/**
 * The canvas glyph plot: the matrix layout that packs the visible glyphs into
 * a grid ordered by colour, the layout update that moves glyphs to their
 * layout coordinates, the interpolation step of the layout animation, the
 * guard of the collision solver and the choice of glyph configuration.
 */
module Glyphplot {
  import opened Base

  /** The mutable position record of a glyph: current, original data, animation source and target. */
  datatype GlyphPosition = GlyphPosition(x: real, y: real, ox: real, oy: real,
                                         sx: real, sy: real, tx: real, ty: real)

  /**
   * A plotted item: its id, the numeric value of the feature that colours it,
   * and its position record.
   */
  datatype Glyph = Glyph(id: int, colour: real, position: GlyphPosition)

  // ---------------------------------------------------------------------
  // Integer square roots (the grid uses floor(sqrt n) and ceil(sqrt n)).

  function FloorSqrt(n: nat): (r: nat)
    ensures r * r <= n < (r + 1) * (r + 1)
  {
    if n == 0 then 0
    else
      var s := FloorSqrt(n - 1);
      if (s + 1) * (s + 1) <= n then s + 1 else s
  }

  function CeilSqrt(n: nat): (r: nat)
    requires n > 0
    ensures 1 <= r && (r - 1) * (r - 1) < n <= r * r
  {
    var s := FloorSqrt(n);
    if s * s == n then s else s + 1
  }

  /**
   * The grid pitch along one axis for `n` laid-out glyphs: the extent divided
   * by ceil(sqrt n), but never less than 100 so that glyphs do not overlap.
   */
  function Spacing(extent: real, n: nat): (s: real)
    requires n > 0
    ensures s >= 100.0 && s >= extent / (CeilSqrt(n) as real)
    ensures s == 100.0 || s == extent / (CeilSqrt(n) as real)
  {
    Max(100.0, extent / (CeilSqrt(n) as real))
  }

  // ---------------------------------------------------------------------
  // Visible glyphs and their order.

  predicate InRange(order: seq<nat>, n: nat)
  {
    forall k :: 0 <= k < |order| ==> order[k] < n
  }

  predicate Distinct(s: seq<nat>)
  {
    forall j, k :: 0 <= j < k < |s| ==> s[j] != s[k]
  }

  /** The indices of the glyphs the clipping test keeps, in list order. */
  function VisibleIndices(gs: seq<Glyph>, clipped: GlyphPosition -> bool): (v: seq<nat>)
    ensures InRange(v, |gs|)
    ensures forall k :: 0 <= k < |v| ==> !clipped(gs[v[k]].position)
    ensures forall i :: 0 <= i < |gs| && !clipped(gs[i].position) ==> i in v
    ensures forall j, k :: 0 <= j < k < |v| ==> v[j] < v[k]
  {
    if gs == [] then []
    else
      var last := |gs| - 1;
      var front := VisibleIndices(gs[..last], clipped);
      assert forall i :: 0 <= i < last ==> gs[..last][i] == gs[i];
      if clipped(gs[last].position) then front else front + [last]
  }

  /** Whether the feature record at slot `j` has a position the clipping test keeps. */
  predicate KeepsSlot(features: seq<nat>, gs: seq<Glyph>, clipped: GlyphPosition -> bool, j: nat)
    requires j < |features|
  {
    features[j] < |gs| && !clipped(gs[features[j]].position)
  }

  /**
   * The slots of the feature list whose record is kept, in increasing order:
   * the order in which the layout visits the feature records.
   */
  ghost function FeatureSlots(features: seq<nat>, gs: seq<Glyph>, clipped: GlyphPosition -> bool): (s: seq<nat>)
    ensures InRange(s, |features|)
    ensures forall k :: 0 <= k < |s| ==> KeepsSlot(features, gs, clipped, s[k])
    ensures forall j :: 0 <= j < |features| && KeepsSlot(features, gs, clipped, j) ==> j in s
    ensures forall j, k :: 0 <= j < k < |s| ==> s[j] < s[k]
  {
    if features == [] then []
    else
      var last := |features| - 1;
      var front := FeatureSlots(features[..last], gs, clipped);
      assert forall j :: 0 <= j < last ==> features[..last][j] == features[j];
      if KeepsSlot(features, gs, clipped, last) then front + [last] else front
  }

  /**
   * The feature records whose item has a position the clipping test keeps, in
   * the order of the feature list. Each record is given as the index of the
   * position with the same id; a record whose id has no position is dropped,
   * as the lookup of its position fails.
   */
  function VisibleFeatures(features: seq<nat>, gs: seq<Glyph>, clipped: GlyphPosition -> bool): (v: seq<nat>)
    ensures InRange(v, |gs|)
    ensures forall i :: i in v <==> i in features && i < |gs| && !clipped(gs[i].position)
    ensures Distinct(features) ==> Distinct(v)
    ensures var s := FeatureSlots(features, gs, clipped);
            |v| == |s| && forall k :: 0 <= k < |s| ==> v[k] == features[s[k]]
  {
    if features == [] then []
    else
      var last := |features| - 1;
      var f := features[last];
      var front := VisibleFeatures(features[..last], gs, clipped);
      assert features == features[..last] + [f];
      assert forall j :: 0 <= j < last ==> features[..last][j] == features[j];
      if f < |gs| && !clipped(gs[f].position) then front + [f] else front
  }

  /** The colour value of the glyph at index `i` (0 for an index outside the list). */
  function Colour(gs: seq<Glyph>, i: nat): real
  {
    if i < |gs| then gs[i].colour else 0.0
  }

  /** Ascending by colour, as the default comparator `+a - +b` orders them. */
  predicate SortedByColour(order: seq<nat>, gs: seq<Glyph>)
  {
    forall j, k :: 0 <= j < k < |order| ==> Colour(gs, order[j]) <= Colour(gs, order[k])
  }

  /** Puts `i` in front of the first entry whose colour is not below its own. */
  function Insert(i: nat, order: seq<nat>, gs: seq<Glyph>): (r: seq<nat>)
    ensures multiset(r) == multiset(order) + multiset{i}
  {
    if order == [] || Colour(gs, i) <= Colour(gs, order[0]) then [i] + order
    else
      assert order == [order[0]] + order[1..];
      [order[0]] + Insert(i, order[1..], gs)
  }

  lemma {:induction false} InsertSorted(i: nat, order: seq<nat>, gs: seq<Glyph>)
    requires SortedByColour(order, gs)
    ensures SortedByColour(Insert(i, order, gs), gs)
  {
    if order == [] || Colour(gs, i) <= Colour(gs, order[0]) {
    } else {
      var rest := Insert(i, order[1..], gs);
      InsertSorted(i, order[1..], gs);
      forall y | y in rest ensures Colour(gs, order[0]) <= Colour(gs, y) {
        assert y in multiset(rest);
        if y != i {
          assert y in order[1..];
        }
      }
    }
  }

  lemma DistinctCons(a: nat, u: seq<nat>)
    requires a !in u && Distinct(u)
    ensures Distinct([a] + u)
  {
  }

  lemma {:induction false} InsertDistinct(i: nat, order: seq<nat>, gs: seq<Glyph>)
    requires Distinct(order) && i !in order
    ensures Distinct(Insert(i, order, gs))
  {
    if order == [] || Colour(gs, i) <= Colour(gs, order[0]) {
      DistinctCons(i, order);
    } else {
      assert order == [order[0]] + order[1..];
      var rest := Insert(i, order[1..], gs);
      InsertDistinct(i, order[1..], gs);
      assert order[0] !in multiset(rest);
      DistinctCons(order[0], rest);
    }
  }

  /**
   * Insertion sort by colour. It is stable: an entry is placed before the
   * entries of equal colour that followed it, as the platform's stable sort does.
   */
  function SortByColour(idx: seq<nat>, gs: seq<Glyph>): (r: seq<nat>)
    ensures multiset(r) == multiset(idx)
  {
    if idx == [] then []
    else
      assert idx == [idx[0]] + idx[1..];
      Insert(idx[0], SortByColour(idx[1..], gs), gs)
  }

  lemma {:induction false} SortSorted(idx: seq<nat>, gs: seq<Glyph>)
    ensures SortedByColour(SortByColour(idx, gs), gs)
  {
    if idx != [] {
      SortSorted(idx[1..], gs);
      InsertSorted(idx[0], SortByColour(idx[1..], gs), gs);
    }
  }

  lemma {:induction false} SortDistinct(idx: seq<nat>, gs: seq<Glyph>)
    requires Distinct(idx)
    ensures Distinct(SortByColour(idx, gs))
  {
    if idx != [] {
      var rest := SortByColour(idx[1..], gs);
      SortDistinct(idx[1..], gs);
      assert idx[0] !in idx[1..];
      assert idx[0] !in multiset(rest);
      InsertDistinct(idx[0], rest, gs);
    }
  }

  /** The entries of `s` whose colour is `c`, in their order in `s`. */
  function OfColour(s: seq<nat>, gs: seq<Glyph>, c: real): seq<nat>
  {
    if s == [] then []
    else (if Colour(gs, s[0]) == c then [s[0]] else []) + OfColour(s[1..], gs, c)
  }

  lemma OfColourCons(a: nat, s: seq<nat>, gs: seq<Glyph>, c: real)
    ensures OfColour([a] + s, gs, c) == (if Colour(gs, a) == c then [a] else []) + OfColour(s, gs, c)
  {
    assert ([a] + s)[0] == a && ([a] + s)[1..] == s;
  }

  /** Inserting `i` puts it before every entry of its own colour and moves no other entry of any colour. */
  lemma {:induction false} InsertStable(i: nat, order: seq<nat>, gs: seq<Glyph>, c: real)
    ensures Colour(gs, i) == c ==> OfColour(Insert(i, order, gs), gs, c) == [i] + OfColour(order, gs, c)
    ensures Colour(gs, i) != c ==> OfColour(Insert(i, order, gs), gs, c) == OfColour(order, gs, c)
  {
    if order == [] || Colour(gs, i) <= Colour(gs, order[0]) {
      OfColourCons(i, order, gs, c);
    } else {
      var o, tail := order[0], order[1..];
      var rest := Insert(i, tail, gs);
      assert Insert(i, order, gs) == [o] + rest;
      assert order == [o] + tail;
      InsertStable(i, tail, gs, c);
      OfColourCons(o, rest, gs, c);
      OfColourCons(o, tail, gs, c);
    }
  }

  /** The sort is stable: entries of equal colour keep the order they had. */
  lemma {:induction false} SortStable(idx: seq<nat>, gs: seq<Glyph>, c: real)
    ensures OfColour(SortByColour(idx, gs), gs, c) == OfColour(idx, gs, c)
  {
    if idx != [] {
      SortStable(idx[1..], gs, c);
      InsertStable(idx[0], SortByColour(idx[1..], gs), gs, c);
      OfColourCons(idx[0], idx[1..], gs, c);
      assert idx == [idx[0]] + idx[1..];
    }
  }

  /**
   * The order in which the matrix layout fills the grid: the visible feature
   * records, sorted by colour.
   */
  function LayoutOrder(gs: seq<Glyph>, features: seq<nat>, clipped: GlyphPosition -> bool): (order: seq<nat>)
    ensures InRange(order, |gs|)
  {
    var v := VisibleFeatures(features, gs, clipped);
    var order := SortByColour(v, gs);
    forall k | 0 <= k < |order|
      ensures order[k] < |gs|
    {
      assert order[k] in multiset(v);
    }
    order
  }

  /**
   * Without a sort function, the layout order lists every item that has a
   * feature record and an unclipped position, in ascending order of colour,
   * and each once when the feature list names each item once.
   */
  lemma LayoutOrderSpec(gs: seq<Glyph>, features: seq<nat>, clipped: GlyphPosition -> bool)
    ensures var order := LayoutOrder(gs, features, clipped);
            && SortedByColour(order, gs)
            && multiset(order) == multiset(VisibleFeatures(features, gs, clipped))
            && (forall i :: i in order <==> i in features && i < |gs| && !clipped(gs[i].position))
            && (Distinct(features) ==> Distinct(order))
  {
    var v := VisibleFeatures(features, gs, clipped);
    var order := SortByColour(v, gs);
    SortSorted(v, gs);
    if Distinct(features) {
      SortDistinct(v, gs);
    }
    forall i
      ensures i in order <==> i in v
    {
      assert i in order <==> i in multiset(order);
      assert i in v <==> i in multiset(v);
    }
  }

  /**
   * Glyphs of equal colour are laid out in the order of the feature list, as
   * the platform's stable sort leaves them.
   */
  lemma LayoutOrderStable(gs: seq<Glyph>, features: seq<nat>, clipped: GlyphPosition -> bool, c: real)
    ensures OfColour(LayoutOrder(gs, features, clipped), gs, c)
            == OfColour(VisibleFeatures(features, gs, clipped), gs, c)
  {
    SortStable(VisibleFeatures(features, gs, clipped), gs, c);
  }

  // ---------------------------------------------------------------------
  // Grid cells and targets.

  datatype Cell = Cell(column: nat, row: nat)

  /** The cell of the `k`-th glyph when `n` glyphs are laid out: rows of floor(sqrt n) + 1 columns. */
  function MatrixCell(k: nat, n: nat): (c: Cell)
    ensures c.column <= FloorSqrt(n)
  {
    var w := FloorSqrt(n) + 1;
    Cell(k % w, k / w)
  }

  /** The target coordinates of a cell: 55 plus the cell's offset on the grid. */
  function CellTarget(c: Cell, spacingX: real, spacingY: real): (t: (real, real))
    ensures t.0 - 55.0 == c.column as real * spacingX && t.1 - 55.0 == c.row as real * spacingY
    ensures spacingX >= 0.0 && spacingY >= 0.0 ==> t.0 >= 55.0 && t.1 >= 55.0
  {
    MulNonNegative(c.column as real, spacingX);
    MulNonNegative(c.row as real, spacingY);
    (c.column as real * spacingX + 55.0, c.row as real * spacingY + 55.0)
  }

  /** The glyph with its targets set to the cell's coordinates; nothing else changes. */
  function Placed(g: Glyph, c: Cell, spacingX: real, spacingY: real): (r: Glyph)
    ensures (r.position.tx, r.position.ty) == CellTarget(c, spacingX, spacingY)
    ensures r.(position := r.position.(tx := g.position.tx, ty := g.position.ty)) == g
  {
    var t := CellTarget(c, spacingX, spacingY);
    g.(position := g.position.(tx := t.0, ty := t.1))
  }

  lemma MulAtLeast(d: int, w: int)
    requires d >= 1 && w > 0
    ensures d * w >= w
  {
    assert d * w - w == (d - 1) * w;
  }

  /** Quotient and remainder are the only pair with `q * w + r == k` and `0 <= r < w`. */
  lemma {:induction false} DivModUnique(k: int, w: int, q: int, r: int)
    requires w > 0 && 0 <= r < w && q * w + r == k
    ensures k / w == q && k % w == r
  {
    var q', r' := k / w, k % w;
    assert q' * w + r' == k;
    assert (q - q') * w == r' - r;
    if q > q' {
      MulAtLeast(q - q', w);
    } else if q < q' {
      MulAtLeast(q' - q, w);
    }
  }

  /** A row and column that count up to `k` are its quotient and remainder. */
  lemma {:induction false} CounterIsCell(k: nat, n: nat, row: nat, column: nat)
    requires row * (FloorSqrt(n) + 1) + column == k && column <= FloorSqrt(n)
    ensures MatrixCell(k, n) == Cell(column, row)
  {
    DivModUnique(k, FloorSqrt(n) + 1, row, column);
  }

  /**
   * The counters of the layout loop: after the `k`-th glyph the column moves
   * on by one and, once it passes floor(sqrt n), wraps to 0 on the next row.
   */
  lemma {:induction false} NextCell(k: nat, n: nat)
    ensures var c := MatrixCell(k, n);
            MatrixCell(k + 1, n) == if c.column + 1 > FloorSqrt(n) then Cell(0, c.row + 1)
                                    else Cell(c.column + 1, c.row)
  {
    var c := MatrixCell(k, n);
    var w := FloorSqrt(n) + 1;
    if c.column + 1 > FloorSqrt(n) {
      assert (c.row + 1) * w == c.row * w + w;
      CounterIsCell(k + 1, n, c.row + 1, 0);
    } else {
      CounterIsCell(k + 1, n, c.row, c.column + 1);
    }
  }

  /**
   * The list after the loop of the matrix layout has handled the first `k`
   * entries of `order`: each of them got the target of its cell, in rows of
   * floor(sqrt visible) + 1 columns.
   */
  function PlaceFirst(gs: seq<Glyph>, order: seq<nat>, k: nat, visible: nat, spacingX: real, spacingY: real)
    : (r: seq<Glyph>)
    requires k <= |order| && InRange(order, |gs|)
    ensures |r| == |gs|
  {
    if k == 0 then gs
    else
      var prev := PlaceFirst(gs, order, k - 1, visible, spacingX, spacingY);
      prev[order[k - 1] := Placed(prev[order[k - 1]], MatrixCell(k - 1, visible), spacingX, spacingY)]
  }

  /**
   * What the matrix layout makes of the glyph list: the glyphs of the layout
   * order get the targets of consecutive grid cells. The spacing divides by
   * the number of glyphs placed, the row length counts the visible positions.
   */
  function MatrixTargets(gs: seq<Glyph>, features: seq<nat>, clipped: GlyphPosition -> bool, width: real, height: real)
    : (r: seq<Glyph>)
    ensures |r| == |gs|
  {
    var order := LayoutOrder(gs, features, clipped);
    var n := |order|;
    if order == [] then gs
    else PlaceFirst(gs, order, n, |VisibleIndices(gs, clipped)|, Spacing(width, n), Spacing(height, n))
  }

  /**
   * Sets the targets `tx`/`ty` of the visible glyphs so that they fill a grid
   * row by row in ascending colour order. `features` is the data's feature
   * list, each record given as the index of the position with its id.
   * Returns the order in which the glyphs were placed.
   */
  method MatrixLayout(glyphs: array<Glyph>, features: seq<nat>, clipped: GlyphPosition -> bool,
                      width: real, height: real)
    returns (order: seq<nat>)
    modifies glyphs
    ensures order == LayoutOrder(old(glyphs[..]), features, clipped)
    ensures glyphs[..] == MatrixTargets(old(glyphs[..]), features, clipped, width, height)
  {
    order := LayoutOrder(glyphs[..], features, clipped);
    var n := |order|;
    if n == 0 {
      return;
    }
    var visible := |VisibleIndices(glyphs[..], clipped)|;
    FillGrid(glyphs, order, visible, Spacing(width, n), Spacing(height, n));
  }

  /**
   * The loop of the matrix layout: walks the order with a column and a row
   * counter, sets each glyph's targets to the counters' cell, and wraps the
   * column to 0 on the next row once it passes floor(sqrt visible).
   */
  method FillGrid(glyphs: array<Glyph>, order: seq<nat>, visible: nat, spacingX: real, spacingY: real)
    requires InRange(order, glyphs.Length)
    modifies glyphs
    ensures glyphs[..] == PlaceFirst(old(glyphs[..]), order, |order|, visible, spacingX, spacingY)
  {
    var n := |order|;
    var m := FloorSqrt(visible);
    var row: nat, column: nat := 0, 0;
    var k := 0;
    CounterIsCell(0, visible, 0, 0);
    while k < n
      invariant 0 <= k <= n
      invariant Cell(column, row) == MatrixCell(k, visible)
      invariant glyphs[..] == PlaceFirst(old(glyphs[..]), order, k, visible, spacingX, spacingY)
    {
      var target := order[k];
      glyphs[target] := Placed(glyphs[target], Cell(column, row), spacingX, spacingY);
      NextCell(k, visible);
      column := column + 1;
      if column > m {
        row := row + 1;
        column := 0;
      }
      k := k + 1;
    }
  }

  /** Entries not among the first `k` of the order are untouched. */
  lemma {:induction false} PlaceFirstOutside(gs: seq<Glyph>, order: seq<nat>, k: nat, visible: nat,
                                             spacingX: real, spacingY: real, i: nat)
    requires k <= |order| && InRange(order, |gs|)
    requires i < |gs| && i !in order[..k]
    ensures PlaceFirst(gs, order, k, visible, spacingX, spacingY)[i] == gs[i]
  {
    if k > 0 {
      assert order[..k] == order[..k - 1] + [order[k - 1]];
      PlaceFirstOutside(gs, order, k - 1, visible, spacingX, spacingY, i);
    }
  }

  /** The `j`-th entry of the order, once handled, carries the target of cell `j`. */
  lemma {:induction false} PlaceFirstAt(gs: seq<Glyph>, order: seq<nat>, k: nat, visible: nat,
                                        spacingX: real, spacingY: real, j: nat)
    requires k <= |order| && InRange(order, |gs|) && Distinct(order)
    requires j < k
    ensures PlaceFirst(gs, order, k, visible, spacingX, spacingY)[order[j]]
            == Placed(gs[order[j]], MatrixCell(j, visible), spacingX, spacingY)
  {
    if j == k - 1 {
      assert order[j] !in order[..k - 1];
      PlaceFirstOutside(gs, order, k - 1, visible, spacingX, spacingY, order[j]);
    } else {
      PlaceFirstAt(gs, order, k - 1, visible, spacingX, spacingY, j);
    }
  }

  /** Only the targets change: `x`, `y`, the sources and the data coordinates stay. */
  lemma {:induction false} PlaceFirstOnlyTargets(gs: seq<Glyph>, order: seq<nat>, k: nat, visible: nat,
                                                 spacingX: real, spacingY: real, i: nat)
    requires k <= |order| && InRange(order, |gs|) && i < |gs|
    ensures var r := PlaceFirst(gs, order, k, visible, spacingX, spacingY)[i];
            r.(position := r.position.(tx := gs[i].position.tx, ty := gs[i].position.ty)) == gs[i]
  {
    if k > 0 {
      PlaceFirstOnlyTargets(gs, order, k - 1, visible, spacingX, spacingY, i);
    }
  }

  /**
   * The `k`-th glyph of the layout order gets column k mod (m+1) and row
   * k div (m+1), with m = floor(sqrt v) for v visible positions, as its
   * target cell, provided the feature list names each item once.
   */
  lemma MatrixTargetsPlaced(gs: seq<Glyph>, features: seq<nat>, clipped: GlyphPosition -> bool,
                            width: real, height: real, k: nat)
    requires Distinct(features) && k < |LayoutOrder(gs, features, clipped)|
    ensures var order := LayoutOrder(gs, features, clipped);
            var n := |order|;
            var r := MatrixTargets(gs, features, clipped, width, height)[order[k]];
            (r.position.tx, r.position.ty)
            == CellTarget(MatrixCell(k, |VisibleIndices(gs, clipped)|), Spacing(width, n), Spacing(height, n))
  {
    var order := LayoutOrder(gs, features, clipped);
    var n := |order|;
    LayoutOrderSpec(gs, features, clipped);
    PlaceFirstAt(gs, order, n, |VisibleIndices(gs, clipped)|, Spacing(width, n), Spacing(height, n), k);
  }

  /**
   * Every field but the targets stays, and glyphs that are clipped or have no
   * feature record keep their previous targets too.
   */
  lemma MatrixTargetsFrame(gs: seq<Glyph>, features: seq<nat>, clipped: GlyphPosition -> bool,
                           width: real, height: real, i: nat)
    requires i < |gs|
    ensures var r := MatrixTargets(gs, features, clipped, width, height)[i];
            r.(position := r.position.(tx := gs[i].position.tx, ty := gs[i].position.ty)) == gs[i]
    ensures clipped(gs[i].position) || i !in features ==>
              MatrixTargets(gs, features, clipped, width, height)[i] == gs[i]
  {
    var order := LayoutOrder(gs, features, clipped);
    if order != [] {
      var n, v := |order|, |VisibleIndices(gs, clipped)|;
      var sx, sy := Spacing(width, n), Spacing(height, n);
      PlaceFirstOnlyTargets(gs, order, n, v, sx, sy, i);
      if clipped(gs[i].position) || i !in features {
        LayoutOrderSpec(gs, features, clipped);
        assert order[..n] == order;
        PlaceFirstOutside(gs, order, n, v, sx, sy, i);
      }
    }
  }

  /** Every laid-out glyph gets targets of at least 55 on both axes. */
  lemma MatrixTargetsAtLeast55(gs: seq<Glyph>, features: seq<nat>, clipped: GlyphPosition -> bool,
                               width: real, height: real, k: nat)
    requires Distinct(features) && k < |LayoutOrder(gs, features, clipped)|
    ensures var order := LayoutOrder(gs, features, clipped);
            var r := MatrixTargets(gs, features, clipped, width, height)[order[k]];
            r.position.tx >= 55.0 && r.position.ty >= 55.0
  {
    MatrixTargetsPlaced(gs, features, clipped, width, height, k);
  }

  lemma {:induction false} CellsDistinct(k1: nat, k2: nat, n: nat)
    requires k1 != k2
    ensures MatrixCell(k1, n) != MatrixCell(k2, n)
  {
  }

  lemma {:induction false} StepApart(a: nat, b: nat, s: real)
    requires a != b && s >= 100.0
    ensures (a as real) * s - (b as real) * s >= 100.0 || (b as real) * s - (a as real) * s >= 100.0
  {
    var d := if a > b then a - b else b - a;
    assert (d as real) * s - s == ((d - 1) as real) * s;
    assert ((d - 1) as real) * s >= 0.0;
    if a > b {
      assert (a as real) * s - (b as real) * s == (d as real) * s;
    } else {
      assert (b as real) * s - (a as real) * s == (d as real) * s;
    }
  }

  lemma CellTargetsApart(c1: Cell, c2: Cell, spacingX: real, spacingY: real)
    requires c1 != c2 && spacingX >= 100.0 && spacingY >= 100.0
    ensures var t1, t2 := CellTarget(c1, spacingX, spacingY), CellTarget(c2, spacingX, spacingY);
            t1.0 - t2.0 >= 100.0 || t2.0 - t1.0 >= 100.0 || t1.1 - t2.1 >= 100.0 || t2.1 - t1.1 >= 100.0
  {
    if c1.column != c2.column {
      StepApart(c1.column, c2.column, spacingX);
    } else {
      StepApart(c1.row, c2.row, spacingY);
    }
  }

  /**
   * No two laid-out glyphs overlap: their targets are at least 100 apart on
   * one of the axes, which is what the lower bound on the spacing is for.
   */
  lemma TargetsApart(gs: seq<Glyph>, features: seq<nat>, clipped: GlyphPosition -> bool,
                     width: real, height: real, k1: nat, k2: nat)
    requires Distinct(features) && k1 != k2
    requires k1 < |LayoutOrder(gs, features, clipped)| && k2 < |LayoutOrder(gs, features, clipped)|
    ensures var order := LayoutOrder(gs, features, clipped);
            var r := MatrixTargets(gs, features, clipped, width, height);
            var p1, p2 := r[order[k1]].position, r[order[k2]].position;
            p1.tx - p2.tx >= 100.0 || p2.tx - p1.tx >= 100.0 || p1.ty - p2.ty >= 100.0 || p2.ty - p1.ty >= 100.0
  {
    var n := |LayoutOrder(gs, features, clipped)|;
    var v := |VisibleIndices(gs, clipped)|;
    MatrixTargetsPlaced(gs, features, clipped, width, height, k1);
    MatrixTargetsPlaced(gs, features, clipped, width, height, k2);
    CellsDistinct(k1, k2, v);
    CellTargetsApart(MatrixCell(k1, v), MatrixCell(k2, v), Spacing(width, n), Spacing(height, n));
  }

  // ---------------------------------------------------------------------
  // Moving glyphs to their layout coordinates.

  datatype GlyphLayout = Cluster | Matrix | OtherLayout

  /** A zoom transform `(k, x, y)`: `applyX(v) = v * k + x`, `applyY(v) = v * k + y`. */
  datatype ZoomTransform = ZoomTransform(k: real, x: real, y: real)

  /** Where one glyph is drawn in the given layout. */
  function LaidOut(g: Glyph, layout: GlyphLayout, zoom: ZoomTransform,
                   xAxis: real -> real, yAxis: real -> real): (r: Glyph)
    ensures r.id == g.id && r.colour == g.colour
    ensures r.position.(x := g.position.x, y := g.position.y) == g.position
    ensures layout == Cluster ==> r.position.x == xAxis(g.position.ox) * zoom.k + zoom.x
                                  && r.position.y == yAxis(g.position.oy) * zoom.k + zoom.y
    ensures layout == Matrix ==> r.position.x == g.position.tx && r.position.y == g.position.ty
    ensures layout == OtherLayout ==> r == g
  {
    match layout
    case Cluster =>
      g.(position := g.position.(x := xAxis(g.position.ox) * zoom.k + zoom.x,
                                 y := yAxis(g.position.oy) * zoom.k + zoom.y))
    case Matrix => g.(position := g.position.(x := g.position.tx, y := g.position.ty))
    case OtherLayout => g
  }

  /**
   * Updates `x`/`y` of every glyph for the current layout. `data` is `None`
   * when the plot has no data set and `Some(length)` otherwise; without data,
   * or with an empty one, nothing changes.
   */
  method UpdateGlyphLayout(glyphs: array<Glyph>, data: Option<nat>, layout: GlyphLayout,
                           zoom: ZoomTransform, xAxis: real -> real, yAxis: real -> real)
    modifies glyphs
    ensures data.None? || data == Some(0) ==> glyphs[..] == old(glyphs[..])
    ensures data.Some? && data != Some(0) ==>
              forall i :: 0 <= i < glyphs.Length ==> glyphs[i] == LaidOut(old(glyphs[i]), layout, zoom, xAxis, yAxis)
  {
    if data.None? || data == Some(0) {
      return;
    }
    var i := 0;
    while i < glyphs.Length
      invariant 0 <= i <= glyphs.Length
      invariant forall j :: 0 <= j < i ==> glyphs[j] == LaidOut(old(glyphs[j]), layout, zoom, xAxis, yAxis)
      invariant forall j :: i <= j < glyphs.Length ==> glyphs[j] == old(glyphs[j])
    {
      glyphs[i] := LaidOut(glyphs[i], layout, zoom, xAxis, yAxis);
      i := i + 1;
    }
  }

  /** After a matrix layout, switching to the Matrix layout draws the glyph at its grid cell. */
  lemma MatrixDrawsAtCell(g: Glyph, c: Cell, spacingX: real, spacingY: real,
                          zoom: ZoomTransform, xAxis: real -> real, yAxis: real -> real)
    ensures var d := LaidOut(Placed(g, c, spacingX, spacingY), Matrix, zoom, xAxis, yAxis);
            (d.position.x, d.position.y) == CellTarget(c, spacingX, spacingY)
  {
  }

  // ---------------------------------------------------------------------
  // Animation between layouts.

  /** Linear interpolation from `s` (at t = 0) to `e` (at t = 1). */
  function Lerp(s: real, e: real, t: real): (r: real)
    ensures r - s == (e - s) * t
  {
    s * (1.0 - t) + e * t
  }

  lemma LerpEnds(s: real, e: real)
    ensures Lerp(s, e, 0.0) == s && Lerp(s, e, 1.0) == e
  {
  }

  lemma MulNonNegative(a: real, b: real)
    ensures a >= 0.0 && b >= 0.0 ==> a * b >= 0.0
  {
  }

  /** For 0 <= t <= 1 the interpolated value lies between source and target. */
  lemma {:induction false} LerpBetween(s: real, e: real, t: real)
    requires 0.0 <= t <= 1.0
    ensures s <= e ==> s <= Lerp(s, e, t) <= e
    ensures e <= s ==> e <= Lerp(s, e, t) <= s
  {
    assert Lerp(s, e, t) == s + (e - s) * t;
    assert (e - s) - (e - s) * t == (e - s) * (1.0 - t);
    if s <= e {
      MulNonNegative(e - s, t);
      MulNonNegative(e - s, 1.0 - t);
    } else {
      MulNonNegative(s - e, t);
      MulNonNegative(s - e, 1.0 - t);
      assert (e - s) * t == -((s - e) * t);
      assert (e - s) * (1.0 - t) == -((s - e) * (1.0 - t));
    }
  }

  /** The glyph with its current position saved as the animation source. */
  function WithSource(g: Glyph): (r: Glyph)
    ensures r.position.sx == g.position.x && r.position.sy == g.position.y
    ensures r.(position := r.position.(sx := g.position.sx, sy := g.position.sy)) == g
  {
    g.(position := g.position.(sx := g.position.x, sy := g.position.y))
  }

  /** The glyph with its current position saved as the animation target. */
  function WithTarget(g: Glyph): (r: Glyph)
    ensures r.position.tx == g.position.x && r.position.ty == g.position.y
    ensures r.(position := r.position.(tx := g.position.tx, ty := g.position.ty)) == g
  {
    g.(position := g.position.(tx := g.position.x, ty := g.position.y))
  }

  /** What the layout update does to one glyph, including its guard on the data set. */
  function Relaid(g: Glyph, data: Option<nat>, layout: GlyphLayout, zoom: ZoomTransform,
                  xAxis: real -> real, yAxis: real -> real): (r: Glyph)
    ensures data.None? || data == Some(0) ==> r == g
    ensures r.id == g.id && r.colour == g.colour
    ensures r.position.(x := g.position.x, y := g.position.y) == g.position
  {
    if data.None? || data == Some(0) then g else LaidOut(g, layout, zoom, xAxis, yAxis)
  }

  method SaveSources(glyphs: array<Glyph>)
    modifies glyphs
    ensures forall i :: 0 <= i < glyphs.Length ==> glyphs[i] == WithSource(old(glyphs[i]))
  {
    var i := 0;
    while i < glyphs.Length
      invariant 0 <= i <= glyphs.Length
      invariant forall j :: 0 <= j < i ==> glyphs[j] == WithSource(old(glyphs[j]))
      invariant forall j :: i <= j < glyphs.Length ==> glyphs[j] == old(glyphs[j])
    {
      var p := glyphs[i].position;
      glyphs[i] := glyphs[i].(position := p.(sx := p.x, sy := p.y));
      i := i + 1;
    }
  }

  method SaveTargets(glyphs: array<Glyph>)
    modifies glyphs
    ensures forall i :: 0 <= i < glyphs.Length ==> glyphs[i] == WithTarget(old(glyphs[i]))
  {
    var i := 0;
    while i < glyphs.Length
      invariant 0 <= i <= glyphs.Length
      invariant forall j :: 0 <= j < i ==> glyphs[j] == WithTarget(old(glyphs[j]))
      invariant forall j :: i <= j < glyphs.Length ==> glyphs[j] == old(glyphs[j])
    {
      var p := glyphs[i].position;
      glyphs[i] := glyphs[i].(position := p.(tx := p.x, ty := p.y));
      i := i + 1;
    }
  }

  /**
   * The set-up of an animation: saves `x`/`y` as the source; when no target
   * data is passed, lays the glyphs out and saves the result as the target.
   */
  method PrepareAnimation(glyphs: array<Glyph>, targetGiven: bool, data: Option<nat>, layout: GlyphLayout,
                          zoom: ZoomTransform, xAxis: real -> real, yAxis: real -> real)
    modifies glyphs
    ensures targetGiven ==> forall i :: 0 <= i < glyphs.Length ==> glyphs[i] == WithSource(old(glyphs[i]))
    ensures !targetGiven ==> forall i :: 0 <= i < glyphs.Length ==>
              glyphs[i] == WithTarget(Relaid(WithSource(old(glyphs[i])), data, layout, zoom, xAxis, yAxis))
  {
    SaveSources(glyphs);
    if !targetGiven {
      UpdateGlyphLayout(glyphs, data, layout, zoom, xAxis, yAxis);
      SaveTargets(glyphs);
    }
  }

  /**
   * Across an animation prepared without target data, eased time 0 shows the
   * glyph where it was and eased time 1 where the layout puts it.
   */
  lemma AnimationEndpoints(g: Glyph, data: Option<nat>, layout: GlyphLayout, zoom: ZoomTransform,
                           xAxis: real -> real, yAxis: real -> real)
    ensures var p := WithTarget(Relaid(WithSource(g), data, layout, zoom, xAxis, yAxis)).position;
            var q := Relaid(g, data, layout, zoom, xAxis, yAxis).position;
            Lerp(p.sx, p.tx, 0.0) == g.position.x && Lerp(p.sy, p.ty, 0.0) == g.position.y
            && Lerp(p.sx, p.tx, 1.0) == q.x && Lerp(p.sy, p.ty, 1.0) == q.y
  {
    var r := Relaid(WithSource(g), data, layout, zoom, xAxis, yAxis);
    var q := Relaid(g, data, layout, zoom, xAxis, yAxis);
    assert r.position.sx == g.position.x && r.position.sy == g.position.y;
    assert r.position.x == q.position.x && r.position.y == q.position.y;
    var p := WithTarget(r).position;
    LerpEnds(p.sx, p.tx);
    LerpEnds(p.sy, p.ty);
  }

  /**
   * One frame of the animation timer, with eased time `t`: every glyph moves to
   * the interpolation of its source and target; nothing else changes.
   */
  method AnimationFrame(glyphs: array<Glyph>, t: real)
    modifies glyphs
    ensures forall i :: 0 <= i < glyphs.Length ==>
              glyphs[i] == old(glyphs[i]).(position := old(glyphs[i].position).(
                x := Lerp(old(glyphs[i].position.sx), old(glyphs[i].position.tx), t),
                y := Lerp(old(glyphs[i].position.sy), old(glyphs[i].position.ty), t)))
  {
    var i := 0;
    while i < glyphs.Length
      invariant 0 <= i <= glyphs.Length
      invariant forall j :: 0 <= j < i ==>
                  glyphs[j] == old(glyphs[j]).(position := old(glyphs[j].position).(
                    x := Lerp(old(glyphs[j].position.sx), old(glyphs[j].position.tx), t),
                    y := Lerp(old(glyphs[j].position.sy), old(glyphs[j].position.ty), t)))
      invariant forall j :: i <= j < glyphs.Length ==> glyphs[j] == old(glyphs[j])
    {
      var p := glyphs[i].position;
      glyphs[i] := glyphs[i].(position := p.(x := p.sx * (1.0 - t) + p.tx * t,
                                             y := p.sy * (1.0 - t) + p.ty * t));
      i := i + 1;
    }
  }

  // ---------------------------------------------------------------------
  // Collision solving and glyph configuration.

  /**
   * The positions handed to the force simulation: none at all when the force
   * layout is off, otherwise those of the unclipped glyphs in list order.
   */
  function SimulationNodes(useForceLayout: bool, gs: seq<Glyph>, clipped: GlyphPosition -> bool)
    : (r: Option<seq<GlyphPosition>>)
    ensures r.None? <==> !useForceLayout
    ensures r.Some? ==> var v := VisibleIndices(gs, clipped);
              |r.value| == |v| && forall k :: 0 <= k < |v| ==> r.value[k] == gs[v[k]].position
  {
    if !useForceLayout then None else Some(UnclippedPositions(gs, clipped))
  }

  function UnclippedPositions(gs: seq<Glyph>, clipped: GlyphPosition -> bool): (ps: seq<GlyphPosition>)
    ensures var v := VisibleIndices(gs, clipped);
            |ps| == |v| && forall k :: 0 <= k < |v| ==> ps[k] == gs[v[k]].position
  {
    if gs == [] then []
    else
      var last := |gs| - 1;
      assert forall i :: 0 <= i < last ==> gs[..last][i] == gs[i];
      var front := UnclippedPositions(gs[..last], clipped);
      if clipped(gs[last].position) then front else front + [gs[last].position]
  }

  datatype GlyphType = Star | Flower | OtherGlyphType

  /**
   * The configuration the active glyph takes at a level of detail: the star
   * table for star glyphs, the flower table for every other type; `None` where
   * the table has no entry (the lookup yields `undefined`).
   */
  function GlyphConfiguration<C>(glyphType: GlyphType, levelOfDetail: nat,
                                 starConfigs: seq<C>, flowerConfigs: seq<C>): (r: Option<C>)
    ensures glyphType == Star ==>
              (r.Some? <==> levelOfDetail < |starConfigs|) && (r.Some? ==> r.value == starConfigs[levelOfDetail])
    ensures glyphType != Star ==>
              (r.Some? <==> levelOfDetail < |flowerConfigs|) && (r.Some? ==> r.value == flowerConfigs[levelOfDetail])
  {
    var table := if glyphType == Star then starConfigs else flowerConfigs;
    if levelOfDetail < |table| then Some(table[levelOfDetail]) else None
  }
}
