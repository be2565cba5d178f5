/**
 * The WebGL glyph plot's viewport and selection rules: the hover search, the
 * pan and wheel-zoom steps, the view frustum computed from the camera data
 * and the viewport transformation, fit-to-selection, and the removal of id
 * filters from the selection's filter list.
 *
 * Publishing a viewport transformation on the event bus is modelled as the
 * handler returning it; the component's own subscription, which stores the
 * published transformation, is `OnViewportTransformationUpdated`.
 */
module GlyphplotWebgl {
  import opened Base

  datatype Vec2 = Vec2(x: real, y: real)

  /** A plotted item: its id and its position in plot coordinates. */
  datatype PlotItem = PlotItem(id: int, position: Vec2)

  /**
   * The viewport transformation event data: translation, scale, and the
   * viewport and cursor offsets that a zoom step introduces.
   */
  datatype Transformation = Transformation(
    translateX: real, translateY: real, translateZ: real, scale: real,
    viewportOffsetX: real, viewportOffsetY: real, viewportOffsetZ: real,
    cursorOffsetX: real, cursorOffsetY: real, cursorOffsetZ: real)

  /** The camera utility of the active view: the data extent and its scale. */
  datatype CameraUtil = CameraUtil(dataMin: Vec2, dataMax: Vec2, dataScale: Vec2)

  /** What the camera utility's zoom-offset computation returns. */
  datatype ZoomOffsets = ZoomOffsets(viewportScaleOffset: Vec2, cursorOffset: Vec2)

  datatype Frustum = Frustum(left: real, top: real, right: real, bottom: real)

  /**
   * An entry of the selection's filter list: an id filter or a feature range
   * filter. `RangeFilter` is the value view of a `FeatureFilters.FeatureFilter`
   * held in that list; removing id filters reads only the tag.
   */
  datatype FilterEntry =
    | IdFilter(featureName: string, acceptableIds: seq<int>)
    | RangeFilter(featureName: string, minValue: JsNumber, maxValue: JsNumber)

  // ---------------------------------------------------------------------
  // Hover.

  const GlyphRadius: real := 5.0

  function Abs(r: real): real
  {
    if r < 0.0 then -r else r
  }

  /** The pointer is over an item when it is within the glyph radius on both axes. */
  function Near(item: PlotItem, px: real, py: real): (r: bool)
    ensures r <==> -GlyphRadius <= item.position.x - px <= GlyphRadius
                   && -GlyphRadius <= item.position.y - py <= GlyphRadius
  {
    Abs(item.position.x - px) <= GlyphRadius && Abs(item.position.y - py) <= GlyphRadius
  }

  /**
   * The hover search: the id of the first item in list order that the pointer
   * is over, and its index; -1 and -1 when there is none.
   */
  method FindHoveredGlyph(items: seq<PlotItem>, px: real, py: real) returns (hovered: int, at: int)
    ensures -1 <= at < |items|
    ensures at == -1 <==> forall k :: 0 <= k < |items| ==> !Near(items[k], px, py)
    ensures at == -1 ==> hovered == -1
    ensures at >= 0 ==> Near(items[at], px, py) && hovered == items[at].id
    ensures at >= 0 ==> forall k :: 0 <= k < at ==> !Near(items[k], px, py)
  {
    hovered, at := -1, -1;
    var i := 0;
    while i < |items|
      invariant 0 <= i <= |items|
      invariant forall k :: 0 <= k < i ==> !Near(items[k], px, py)
    {
      if Near(items[i], px, py) {
        hovered, at := items[i].id, i;
        break;
      }
      i := i + 1;
    }
  }

  // ---------------------------------------------------------------------
  // Pan and zoom.

  /**
   * A pan drag: the translation moves by the pointer movement divided by the
   * scale, against the movement; z translation is reset to 0 and the scale
   * and offsets are kept.
   */
  function PanStep(t: Transformation, movementX: real, movementY: real): (r: Transformation)
    requires t.scale != 0.0
    ensures r.scale == t.scale
    ensures (r.translateX - t.translateX) * t.scale == -movementX
    ensures (r.translateY - t.translateY) * t.scale == -movementY
    ensures r.translateZ == 0.0
    ensures r.(translateX := t.translateX, translateY := t.translateY, translateZ := t.translateZ) == t
  {
    t.(translateX := t.translateX + (-movementX / t.scale),
       translateY := t.translateY + (-movementY / t.scale),
       translateZ := 0.0)
  }

  const MinZoom: real := 0.1

  /**
   * A wheel step: nothing is published while the tooltip is fixed or the view
   * has no camera utility. Otherwise the scale grows by 10% for a wheel turned
   * up (`deltaY < 0`) and shrinks by 10% otherwise, but not below 0.1; the
   * translation stays and the offsets come from the camera utility.
   */
  function WheelZoom(t: Transformation, deltaY: real, tooltipFixed: bool, camUtil: Option<CameraUtil>,
                     zoomOffset: real -> ZoomOffsets): (r: Option<Transformation>)
    ensures r.None? <==> tooltipFixed || camUtil.None?
    ensures r.Some? ==> r.value.scale >= MinZoom
    ensures r.Some? ==> r.value.scale == Max(MinZoom, t.scale * (if deltaY < 0.0 then 1.1 else 0.9))
    ensures r.Some? ==> r.value.translateX == t.translateX && r.value.translateY == t.translateY
                        && r.value.translateZ == t.translateZ
    ensures r.Some? ==> r.value.viewportOffsetZ == 0.0 && r.value.cursorOffsetZ == 0.0
    ensures r.Some? ==> var o := zoomOffset(r.value.scale);
              && r.value.viewportOffsetX == o.viewportScaleOffset.x && r.value.viewportOffsetY == o.viewportScaleOffset.y
              && r.value.cursorOffsetX == o.cursorOffset.x && r.value.cursorOffsetY == o.cursorOffset.y
  {
    if tooltipFixed || camUtil.None? then None
    else
      var wheelDelta := if deltaY < 0.0 then 1.0 else -1.0;
      var zoom := t.scale * (1.0 + wheelDelta * 0.1);
      var zoom := if zoom < MinZoom then MinZoom else zoom;
      var offsets := zoomOffset(zoom);
      Some(Transformation(t.translateX, t.translateY, t.translateZ, zoom,
                          offsets.viewportScaleOffset.x, offsets.viewportScaleOffset.y, 0.0,
                          offsets.cursorOffset.x, offsets.cursorOffset.y, 0.0))
  }

  /** Turning the wheel up never makes a positive scale smaller. */
  lemma ZoomInGrows(t: Transformation, deltaY: real, camUtil: CameraUtil, zoomOffset: real -> ZoomOffsets)
    requires t.scale > 0.0 && deltaY < 0.0
    ensures WheelZoom(t, deltaY, false, Some(camUtil), zoomOffset).value.scale >= t.scale
  {
  }

  /** Turning the wheel down never makes the scale larger, unless it is lifted to the 0.1 floor. */
  lemma ZoomOutShrinks(t: Transformation, deltaY: real, camUtil: CameraUtil, zoomOffset: real -> ZoomOffsets)
    requires t.scale > 0.0 && deltaY >= 0.0
    ensures var s := WheelZoom(t, deltaY, false, Some(camUtil), zoomOffset).value.scale;
            s <= t.scale || s == MinZoom
  {
  }

  // ---------------------------------------------------------------------
  // View frustum.

  /**
   * The frustum set on the active view: the data extent scaled to view
   * units, narrowed by the viewport offset on each side and shifted by the
   * cursor offset and the translation.
   */
  function ViewFrustum(c: CameraUtil, t: Transformation): (f: Frustum)
    ensures f.right - f.left == (c.dataMax.x - c.dataMin.x) * c.dataScale.x - 2.0 * t.viewportOffsetX
    ensures f.bottom - f.top == (c.dataMax.y - c.dataMin.y) * c.dataScale.y - 2.0 * t.viewportOffsetY
    ensures f.left + f.right == (c.dataMin.x + c.dataMax.x) * c.dataScale.x + 2.0 * (t.cursorOffsetX + t.translateX)
    ensures f.top + f.bottom == (c.dataMin.y + c.dataMax.y) * c.dataScale.y + 2.0 * (t.cursorOffsetY + t.translateY)
  {
    Frustum(
      c.dataMin.x * c.dataScale.x + t.viewportOffsetX + t.cursorOffsetX + t.translateX,
      c.dataMin.y * c.dataScale.y + t.viewportOffsetY + t.cursorOffsetY + t.translateY,
      c.dataMax.x * c.dataScale.x - t.viewportOffsetX + t.cursorOffsetX + t.translateX,
      c.dataMax.y * c.dataScale.y - t.viewportOffsetY + t.cursorOffsetY + t.translateY)
  }

  /** A pan moves the frustum rigidly: its size stays and every edge shifts by the translation step. */
  lemma PanShiftsFrustum(c: CameraUtil, t: Transformation, movementX: real, movementY: real)
    requires t.scale != 0.0
    ensures var f, g := ViewFrustum(c, t), ViewFrustum(c, PanStep(t, movementX, movementY));
            g.right - g.left == f.right - f.left && g.bottom - g.top == f.bottom - f.top
            && g.left - f.left == -movementX / t.scale && g.top - f.top == -movementY / t.scale
  {
  }

  // ---------------------------------------------------------------------
  // Fit to selection.

  /** An item is kept when its id is among the filtered ids or no feature filter is set. */
  function KeepForFit(item: PlotItem, filteredItemsIds: seq<int>, noFeatureFilters: bool): (r: bool)
    ensures r <==> noFeatureFilters || exists k :: 0 <= k < |filteredItemsIds| && filteredItemsIds[k] == item.id
  {
    item.id in filteredItemsIds || noFeatureFilters
  }

  function Kept(items: seq<PlotItem>, filteredItemsIds: seq<int>, noFeatureFilters: bool): (r: seq<Vec2>)
    ensures |r| <= |items|
  {
    if items == [] then []
    else
      var last := items[|items| - 1];
      Kept(items[..|items| - 1], filteredItemsIds, noFeatureFilters)
      + (if KeepForFit(last, filteredItemsIds, noFeatureFilters) then [last.position] else [])
  }

  /** The positions of the kept items are exactly the kept items' positions, in list order. */
  lemma {:induction false} KeptMembers(items: seq<PlotItem>, filteredItemsIds: seq<int>, noFeatureFilters: bool)
    ensures forall p :: p in Kept(items, filteredItemsIds, noFeatureFilters) <==>
              exists k :: 0 <= k < |items| && items[k].position == p && KeepForFit(items[k], filteredItemsIds, noFeatureFilters)
    ensures |Kept(items, filteredItemsIds, noFeatureFilters)| == |items| <==>
              forall k :: 0 <= k < |items| ==> KeepForFit(items[k], filteredItemsIds, noFeatureFilters)
  {
    if items != [] {
      var front := items[..|items| - 1];
      KeptMembers(front, filteredItemsIds, noFeatureFilters);
      assert forall k :: 0 <= k < |front| ==> front[k] == items[k];
    }
  }

  /** The smallest box around a non-empty list of positions. */
  method BoundingBox(ps: seq<Vec2>) returns (minX: real, maxX: real, minY: real, maxY: real)
    requires |ps| > 0
    ensures forall k :: 0 <= k < |ps| ==> minX <= ps[k].x <= maxX && minY <= ps[k].y <= maxY
    ensures exists k :: 0 <= k < |ps| && ps[k].x == minX
    ensures exists k :: 0 <= k < |ps| && ps[k].x == maxX
    ensures exists k :: 0 <= k < |ps| && ps[k].y == minY
    ensures exists k :: 0 <= k < |ps| && ps[k].y == maxY
  {
    minX, maxX, minY, maxY := ps[0].x, ps[0].x, ps[0].y, ps[0].y;
    ghost var iMinX, iMaxX, iMinY, iMaxY := 0, 0, 0, 0;
    var i := 0;
    while i < |ps|
      invariant 0 <= i <= |ps|
      invariant forall k :: 0 <= k < i ==> minX <= ps[k].x <= maxX && minY <= ps[k].y <= maxY
      invariant 0 <= iMinX < |ps| && ps[iMinX].x == minX
      invariant 0 <= iMaxX < |ps| && ps[iMaxX].x == maxX
      invariant 0 <= iMinY < |ps| && ps[iMinY].y == minY
      invariant 0 <= iMaxY < |ps| && ps[iMaxY].y == maxY
    {
      var d := ps[i];
      if d.x < minX {
        minX, iMinX := d.x, i;
      }
      if d.x > maxX {
        maxX, iMaxX := d.x, i;
      }
      if d.y < minY {
        minY, iMinY := d.y, i;
      }
      if d.y > maxY {
        maxY, iMaxY := d.y, i;
      }
      i := i + 1;
    }
  }

  /** The transformation fit-to-selection publishes; the offsets keep their default 0. */
  function FitTransformation(minX: real, minY: real): (t: Transformation)
    ensures t.translateX == minX && t.translateY == minY && t.translateZ == 0.0 && t.scale == 100.0
    ensures t.viewportOffsetX == 0.0 && t.viewportOffsetY == 0.0 && t.viewportOffsetZ == 0.0
    ensures t.cursorOffsetX == 0.0 && t.cursorOffsetY == 0.0 && t.cursorOffsetZ == 0.0
  {
    Transformation(minX, minY, 0.0, 100.0, 0.0, 0.0, 0.0, 0.0, 0.0, 0.0)
  }

  /**
   * Fit to selection: collects the positions of the kept items; publishes
   * nothing when none or all of the items are kept, and otherwise a
   * transformation with scale 100 that translates to the smallest x and the
   * smallest y of the kept positions.
   */
  method FitToSelection(items: seq<PlotItem>, filteredItemsIds: seq<int>, featureFilters: seq<FilterEntry>)
    returns (published: Option<Transformation>)
    ensures var kept := Kept(items, filteredItemsIds, featureFilters == []);
            published.None? <==> |kept| == 0 || |kept| == |items|
    ensures published.Some? ==> var kept := Kept(items, filteredItemsIds, featureFilters == []);
              && published.value.scale == 100.0
              && published.value == FitTransformation(published.value.translateX, published.value.translateY)
              && (forall k :: 0 <= k < |kept| ==>
                    published.value.translateX <= kept[k].x && published.value.translateY <= kept[k].y)
              && (exists k :: 0 <= k < |kept| && kept[k].x == published.value.translateX)
              && (exists k :: 0 <= k < |kept| && kept[k].y == published.value.translateY)
  {
    var filteredPositions: seq<Vec2> := [];
    var noFilters := featureFilters == [];
    var i := 0;
    while i < |items|
      invariant 0 <= i <= |items|
      invariant filteredPositions == Kept(items[..i], filteredItemsIds, noFilters)
    {
      assert items[..i + 1][..i] == items[..i];
      if KeepForFit(items[i], filteredItemsIds, noFilters) {
        filteredPositions := filteredPositions + [items[i].position];
      }
      i := i + 1;
    }
    assert items[..i] == items;
    if |filteredPositions| == |items| || |filteredPositions| == 0 {
      return None;
    }
    var minX, maxX, minY, maxY := BoundingBox(filteredPositions);
    published := Some(FitTransformation(minX, minY));
  }

  // ---------------------------------------------------------------------
  // Removing id filters.

  /**
   * What `forEach` with an in-place `splice` makes of the list: an id filter
   * is removed, the entry that then slides into its index is not visited
   * and stays, and the walk goes on after it.
   */
  function ClearedAsWritten(fs: seq<FilterEntry>): (r: seq<FilterEntry>)
    ensures |r| <= |fs|
  {
    if fs == [] then []
    else if !fs[0].IdFilter? then [fs[0]] + ClearedAsWritten(fs[1..])
    else if |fs| == 1 then []
    else [fs[1]] + ClearedAsWritten(fs[2..])
  }

  /**
   * The removal the comment above the component's loop asks for: every id
   * filter goes, every other entry stays, in its order.
   */
  function WithoutIdFilters(fs: seq<FilterEntry>): (r: seq<FilterEntry>)
    ensures forall k :: 0 <= k < |r| ==> !r[k].IdFilter?
    ensures forall f: FilterEntry :: !f.IdFilter? ==> multiset(r)[f] == multiset(fs)[f]
  {
    if fs == [] then []
    else
      assert fs == [fs[0]] + fs[1..];
      (if fs[0].IdFilter? then [] else [fs[0]]) + WithoutIdFilters(fs[1..])
  }

  /** The removal keeps every entry that is not an id filter, in its relative order. */
  lemma {:induction false} ClearedKeepsOthers(fs: seq<FilterEntry>)
    ensures WithoutIdFilters(ClearedAsWritten(fs)) == WithoutIdFilters(fs)
  {
    if fs == [] {
    } else if !fs[0].IdFilter? {
      ClearedKeepsOthers(fs[1..]);
      assert ([fs[0]] + ClearedAsWritten(fs[1..]))[1..] == ClearedAsWritten(fs[1..]);
    } else if |fs| == 1 {
    } else {
      ClearedKeepsOthers(fs[2..]);
      assert ([fs[1]] + ClearedAsWritten(fs[2..]))[1..] == ClearedAsWritten(fs[2..]);
      assert fs[1..][1..] == fs[2..];
    }
  }

  /** Every entry the removal leaves was in the list. */
  lemma {:induction false} ClearedFromList(fs: seq<FilterEntry>)
    ensures forall k :: 0 <= k < |ClearedAsWritten(fs)| ==> ClearedAsWritten(fs)[k] in fs
  {
    if fs == [] {
    } else if !fs[0].IdFilter? {
      ClearedFromList(fs[1..]);
      assert forall f :: f in fs[1..] ==> f in fs;
    } else if |fs| > 1 {
      ClearedFromList(fs[2..]);
      assert forall f :: f in fs[2..] ==> f in fs;
    }
  }

  /**
   * The removal removes nothing but id filters: every other entry keeps its
   * number of occurrences, and nothing new appears.
   */
  lemma ClearedRemovesOnlyIdFilters(fs: seq<FilterEntry>)
    ensures forall f: FilterEntry :: !f.IdFilter? ==> multiset(ClearedAsWritten(fs))[f] == multiset(fs)[f]
    ensures forall k :: 0 <= k < |ClearedAsWritten(fs)| ==> ClearedAsWritten(fs)[k] in fs
  {
    ClearedKeepsOthers(fs);
    ClearedFromList(fs);
    forall f: FilterEntry | !f.IdFilter?
      ensures multiset(ClearedAsWritten(fs))[f] == multiset(fs)[f]
    {
      assert multiset(WithoutIdFilters(ClearedAsWritten(fs)))[f] == multiset(ClearedAsWritten(fs))[f];
      assert multiset(WithoutIdFilters(fs))[f] == multiset(fs)[f];
    }
  }

  /** An id filter right after a removed one survives: two id filters in a row leave the second. */
  lemma ClearedKeepsSecondOfAdjacentIdFilters(a: FilterEntry, b: FilterEntry)
    requires a.IdFilter? && b.IdFilter?
    ensures ClearedAsWritten([a, b]) == [b]
  {
    assert [a, b][1..] == [b];
    assert [a, b][2..] == [];
  }

  /** Where no two id filters are adjacent, every id filter is removed. */
  lemma {:induction false} ClearedWithoutAdjacentIdFilters(fs: seq<FilterEntry>)
    requires forall k :: 0 <= k < |fs| - 1 ==> !(fs[k].IdFilter? && fs[k + 1].IdFilter?)
    ensures ClearedAsWritten(fs) == WithoutIdFilters(fs)
  {
    if fs == [] {
    } else if !fs[0].IdFilter? {
      ClearedWithoutAdjacentIdFilters(fs[1..]);
    } else if |fs| == 1 {
    } else {
      assert !fs[1].IdFilter?;
      ClearedWithoutAdjacentIdFilters(fs[2..]);
      assert fs[1..][1..] == fs[2..];
    }
  }

  /** A list without id filters is left as it is by the intended removal. */
  lemma {:induction false} WithoutIdFiltersKeepsClean(fs: seq<FilterEntry>)
    requires forall k :: 0 <= k < |fs| ==> !fs[k].IdFilter?
    ensures WithoutIdFilters(fs) == fs
  {
    if fs != [] {
      WithoutIdFiltersKeepsClean(fs[1..]);
      assert fs == [fs[0]] + fs[1..];
    }
  }

  // ---------------------------------------------------------------------
  // The component's state.

  class ConfigurationData {
    var idOfHoveredGlyph: int
    var useDragSelection: bool
    var dataSetName: string

    constructor (dataSetName: string, useDragSelection: bool)
      ensures this.dataSetName == dataSetName && this.useDragSelection == useDragSelection
      ensures idOfHoveredGlyph == -1
    {
      this.dataSetName := dataSetName;
      this.useDragSelection := useDragSelection;
      idOfHoveredGlyph := -1;
    }
  }

  class SelectionService {
    var featureFilters: seq<FilterEntry>
    var filteredItemsIds: seq<int>

    constructor ()
      ensures featureFilters == [] && filteredItemsIds == []
    {
      featureFilters := [];
      filteredItemsIds := [];
    }
  }

  class GlyphplotWebglComponent {
    const config0: ConfigurationData
    const config1: ConfigurationData
    var configuration: ConfigurationData
    const selection: SelectionService
    var data: Option<seq<PlotItem>>
    var transformation: Transformation
    /** The frustum last set on the active view's camera. */
    var frustum: Option<Frustum>

    ghost predicate Valid()
      reads this
    {
      (configuration == config0 || configuration == config1) && transformation.scale > 0.0
    }

    /** Starts on the first configuration, with no data and the given initial transformation. */
    constructor (config0: ConfigurationData, config1: ConfigurationData, selection: SelectionService,
                 initial: Transformation)
      requires initial.scale > 0.0
      ensures Valid()
      ensures this.config0 == config0 && this.config1 == config1 && this.selection == selection
      ensures configuration == config0 && data.None? && transformation == initial && frustum.None?
    {
      this.config0 := config0;
      this.config1 := config1;
      this.selection := selection;
      configuration := config0;
      data := None;
      transformation := initial;
      frustum := None;
    }

    /**
     * Pointer movement: with data present, the hovered id is reset and set to
     * the first item under the pointer, in both configurations when they show
     * the same data set and in this view's configuration otherwise. A drag
     * with the first button outside drag-selection mode publishes a pan step.
     */
    method MouseMove(px: real, py: real, movementX: real, movementY: real, buttons: int)
      returns (published: Option<Transformation>)
      requires Valid()
      modifies config0, config1
      ensures Valid()
      ensures data.None? ==> config0.idOfHoveredGlyph == old(config0.idOfHoveredGlyph)
                             && config1.idOfHoveredGlyph == old(config1.idOfHoveredGlyph)
      ensures data.Some? && config0.dataSetName == config1.dataSetName ==>
                config0.idOfHoveredGlyph == config1.idOfHoveredGlyph
      ensures data.Some? && config0.dataSetName != config1.dataSetName ==>
                (configuration == config0 ==> config1.idOfHoveredGlyph == old(config1.idOfHoveredGlyph))
                && (configuration == config1 ==> config0.idOfHoveredGlyph == old(config0.idOfHoveredGlyph))
      ensures data.Some? ==> var items := data.value;
                var id := configuration.idOfHoveredGlyph;
                (id == -1 && forall k :: 0 <= k < |items| ==> !Near(items[k], px, py))
                || (exists k :: 0 <= k < |items| && Near(items[k], px, py) && items[k].id == id
                                && forall j :: 0 <= j < k ==> !Near(items[j], px, py))
      ensures config0.dataSetName == old(config0.dataSetName) && config1.dataSetName == old(config1.dataSetName)
      ensures config0.useDragSelection == old(config0.useDragSelection)
      ensures config1.useDragSelection == old(config1.useDragSelection)
      ensures published == if buttons == 1 && !configuration.useDragSelection
                           then Some(PanStep(transformation, movementX, movementY)) else None
    {
      if data.Some? {
        var hovered, at := FindHoveredGlyph(data.value, px, py);
        if config0.dataSetName == config1.dataSetName {
          config0.idOfHoveredGlyph := hovered;
          config1.idOfHoveredGlyph := hovered;
        } else {
          configuration.idOfHoveredGlyph := hovered;
        }
      }
      if buttons == 1 && !configuration.useDragSelection {
        published := Some(PanStep(transformation, movementX, movementY));
      } else {
        published := None;
      }
    }

    /** The wheel handler: publishes the zoom step of `WheelZoom`, and changes nothing itself. */
    method Mousewheel(deltaY: real, tooltipFixed: bool, camUtil: Option<CameraUtil>,
                      zoomOffset: real -> ZoomOffsets) returns (published: Option<Transformation>)
      requires Valid()
      ensures published.None? <==> tooltipFixed || camUtil.None?
      ensures published.Some? ==> published.value.scale >= MinZoom
      ensures published == WheelZoom(transformation, deltaY, tooltipFixed, camUtil, zoomOffset)
    {
      published := WheelZoom(transformation, deltaY, tooltipFixed, camUtil, zoomOffset);
    }

    /** Sets the active view's frustum from the camera data; without a camera utility nothing changes. */
    method SetViewFrustum(camUtil: Option<CameraUtil>)
      modifies this`frustum
      ensures camUtil.None? ==> frustum == old(frustum)
      ensures camUtil.Some? ==> frustum == Some(ViewFrustum(camUtil.value, transformation))
    {
      if camUtil.None? {
        return;
      }
      frustum := Some(ViewFrustum(camUtil.value, transformation));
    }

    /**
     * The subscription to published transformations: stores the payload and,
     * when the WebGL view is the active one, updates the frustum.
     */
    method OnViewportTransformationUpdated(payload: Transformation, webGlActive: bool, camUtil: Option<CameraUtil>)
      requires Valid() && payload.scale > 0.0
      modifies this`transformation, this`frustum
      ensures Valid()
      ensures transformation == payload
      ensures !webGlActive || camUtil.None? ==> frustum == old(frustum)
      ensures webGlActive && camUtil.Some? ==> frustum == Some(ViewFrustum(camUtil.value, payload))
    {
      transformation := payload;
      if !webGlActive {
        return;
      }
      SetViewFrustum(camUtil);
    }

    /** Fit to selection over the component's data and the selection service's state. */
    method FitToSelectionHandler() returns (published: Option<Transformation>)
      requires data.Some?
      ensures var kept := Kept(data.value, selection.filteredItemsIds, selection.featureFilters == []);
              published.None? <==> |kept| == 0 || |kept| == |data.value|
      ensures published.Some? ==>
                var kept := Kept(data.value, selection.filteredItemsIds, selection.featureFilters == []);
                && published.value == FitTransformation(published.value.translateX, published.value.translateY)
                && (forall k :: 0 <= k < |kept| ==>
                      published.value.translateX <= kept[k].x && published.value.translateY <= kept[k].y)
                && (exists k :: 0 <= k < |kept| && kept[k].x == published.value.translateX)
                && (exists k :: 0 <= k < |kept| && kept[k].y == published.value.translateY)
    {
      published := FitToSelection(data.value, selection.filteredItemsIds, selection.featureFilters);
    }

    /**
     * Removes id filters from the selection's filter list the way the
     * component does: `forEach` over the list, splicing out each id filter it
     * visits. `forEach` fixes the number of visits at the start and skips
     * indices the shrunken list no longer has.
     */
    method ClearIdFilters()
      modifies selection
      ensures selection.featureFilters == ClearedAsWritten(old(selection.featureFilters))
      ensures selection.filteredItemsIds == old(selection.filteredItemsIds)
    {
      var len := |selection.featureFilters|;
      var index := 0;
      while index < len
        invariant 0 <= index <= len
        invariant |selection.featureFilters| <= len
        invariant Processed(selection.featureFilters, index) == ClearedAsWritten(old(selection.featureFilters))
        invariant selection.filteredItemsIds == old(selection.filteredItemsIds)
      {
        var fs := selection.featureFilters;
        if index < |fs| && fs[index].IdFilter? {
          selection.featureFilters := fs[..index] + fs[index + 1..];
          ProcessedSplice(fs, index);
        } else if index < |fs| {
          ProcessedStep(fs, index);
        } else {
          ProcessedPastEnd(fs, index);
          ProcessedPastEnd(fs, index + 1);
        }
        index := index + 1;
      }
      ProcessedPastEnd(selection.featureFilters, index);
    }
  }

  /**
   * The list as the final result will show it when the walk is at `index`:
   * the entries before `index` are settled, the rest is still to be walked.
   */
  function Processed(fs: seq<FilterEntry>, index: nat): seq<FilterEntry>
  {
    if index <= |fs| then fs[..index] + ClearedAsWritten(fs[index..]) else fs
  }

  lemma ProcessedPastEnd(fs: seq<FilterEntry>, index: nat)
    requires index >= |fs|
    ensures Processed(fs, index) == fs
  {
    if index == |fs| {
      assert fs[..index] == fs && fs[index..] == [];
    }
  }

  lemma ProcessedStep(fs: seq<FilterEntry>, index: nat)
    requires index < |fs| && !fs[index].IdFilter?
    ensures Processed(fs, index + 1) == Processed(fs, index)
  {
    assert fs[..index + 1] == fs[..index] + [fs[index]];
    assert fs[index..][1..] == fs[index + 1..];
  }

  lemma ProcessedSplice(fs: seq<FilterEntry>, index: nat)
    requires index < |fs| && fs[index].IdFilter?
    ensures Processed(fs[..index] + fs[index + 1..], index + 1) == Processed(fs, index)
  {
    var fs' := fs[..index] + fs[index + 1..];
    if index + 1 < |fs| {
      assert fs'[..index + 1] == fs[..index] + [fs[index + 1]];
      assert fs'[index + 1..] == fs[index + 2..];
      assert fs[index..][1] == fs[index + 1];
      assert fs[index..][2..] == fs[index + 2..];
    } else {
      assert fs' == fs[..index];
    }
  }
}
