# Glyphboard plot rules in Dafny

Glyphboard draws data items as glyphs (dots, flowers, stars) on a canvas plot
and on a WebGL plot. This project models the parts of it that compute
something rather than draw:

- **The feature filter** (`feature_filter.dfy`, module `FeatureFilters`): a
  class with a feature name and an inclusive interval `[minValue, maxValue]`.
  Its membership test is `min <= value <= max`. Its bound setters throw a
  `RangeError` for `undefined` and for values outside `[0,1]`, and its
  constructor fills in defaults without checking anything. JavaScript numbers
  are modelled with an explicit `NaN` (`Base.JsNumber`). An item's
  non-numeric or missing feature reads as `NaN` and never passes. The
  setters' range test is `v < 0 || v > 1`, which is false for `NaN`, so a
  `NaN` bound is accepted. After that no item passes the filter
  (`CheckBound`, `NaNBoundRejectsAll`).
- **The canvas glyph plot** (`glyphplot.dfy`, module `Glyphplot`):
  - the matrix layout: keep the feature records whose item has an unclipped
    position, sort them stably by colour (ties stay in feature-list order),
    and fill a grid row by row with a column counter that wraps once it
    passes floor(sqrt v) for v visible positions;
  - the layout update, which copies targets into `x`/`y` in the Matrix layout
    and applies the zoom transform to the axis-scaled data coordinates in the
    Cluster layout;
  - the source/target bookkeeping and interpolation step of the layout
    animation;
  - the guard of the collision solver and the choice of glyph configuration.
  - Glyph lists are arrays of position records that the methods update in
    place. Each method is proved against a specification function, and the
    layout's promises are proved about that function: order, grid cell,
    bounds, no overlap, and what stays unchanged.
- **The WebGL glyph plot** (`glyphplot_webgl.dfy`, module `GlyphplotWebgl`):
  - the hover search (first item within 5 units on both axes);
  - the pan step, and the wheel-zoom step with its 0.1 floor;
  - the view frustum;
  - fit-to-selection with its bounding-box loop;
  - the removal of id filters from the selection's filter list, modelled as
    written: a `splice` inside `forEach`, which skips the entry after each
    removed one.
  - Publishing a transformation on the event bus is modelled as returning
    it. The component's own subscription, which stores it and refreshes the
    frustum, is a method of its own.

## Model

| member | source | states |
|---|---|---|
| `FeatureFilters.FeatureFilter.constructor` | src/app/shared/filter/feature-filter.ts:9-13 | omitted name, min and max default to `""`, 0 and 0; given values are stored unchecked |
| `FeatureFilters.FeatureFilter.ItemConfirmsToFilter` | src/app/shared/filter/feature-filter.ts:15-19 | an item passes if and only if its value of the filtered feature and both bounds are numbers and min <= value <= max (`Conforms`) |
| `FeatureFilters.FeatureValue` | src/app/shared/filter/feature-filter.ts:16 | a feature the item lacks reads as `NaN` |
| `FeatureFilters.ConfirmsIgnoresIdAndValues` | src/app/shared/filter/feature-filter.ts:15-19 | the id and the second record passed to the test do not change its answer |
| `FeatureFilters.BoundsInclusive` | src/app/shared/filter/feature-filter.ts:18 | a value equal to either bound passes when min <= max |
| `FeatureFilters.EmptyIntervalRejectsAll` | src/app/shared/filter/feature-filter.ts:18 | when min > max no item passes |
| `FeatureFilters.NaNNeverConforms` | src/app/shared/filter/feature-filter.ts:16-18 | an item whose feature is missing or not numeric never passes |
| `FeatureFilters.NaNBoundRejectsAll` | src/app/shared/filter/feature-filter.ts:18 | a `NaN` bound makes every item fail |
| `FeatureFilters.CheckBound` | src/app/shared/filter/feature-filter.ts:26-29 | `undefined` throws with the "value undefined" message; a number is accepted exactly when it is in [0,1], otherwise it throws with the interval message; `NaN` is accepted |
| `FeatureFilters.FeatureFilter.SetMinValue` | src/app/shared/filter/feature-filter.ts:25-32 | on a `RangeError` nothing changes; on success only `minValue` changes, to the given value |
| `FeatureFilters.FeatureFilter.SetMaxValue` | src/app/shared/filter/feature-filter.ts:35-42 | on a `RangeError` nothing changes; on success only `maxValue` changes, to the given value |
| `FeatureFilters.FeatureFilter.SetFeatureName` | src/app/shared/filter/feature-filter.ts:22 | any name is accepted; the bounds stay |
| `FeatureFilters.SetterKeepsUnitBound` | src/app/shared/filter/feature-filter.ts:25-42 | a numeric bound in [0,1] stays a number in [0,1] after any setter call, successful or not, unless the value passed is `NaN`, which becomes the bound |
| `Glyphplot.FloorSqrt` | src/app/glyphplot/glyphplot.component.ts:438 | the largest r with r*r <= n, the column limit floor(sqrt n) |
| `Glyphplot.CeilSqrt` | src/app/glyphplot/glyphplot.component.ts:424 | the smallest r >= 1 with n <= r*r, the divisor ceil(sqrt n) |
| `Glyphplot.Spacing` | src/app/glyphplot/glyphplot.component.ts:423-430 | the grid pitch is at least 100 and at least the extent divided by ceil(sqrt n), and equals one of the two: `max(100, extent / ceil(sqrt n))` |
| `Base.Max` | src/app/glyphplot/glyphplot.component.ts:429-430 | `Math.max` of two numbers: at least both, and equal to one of them |
| `Glyphplot.VisibleIndices` | src/app/glyphplot/glyphplot.component.ts:400-402 | exactly the unclipped glyphs' indices, in increasing list order |
| `Glyphplot.VisibleFeatures` | src/app/glyphplot/glyphplot.component.ts:403-405 | the k-th kept record is the record at the k-th kept slot of the feature list (`FeatureSlots`), so exactly the records whose item has an unclipped position, in feature-list order and with their multiplicity; no repeats when the feature list has none |
| `Glyphplot.FeatureSlots` | src/app/glyphplot/glyphplot.component.ts:403-405 | exactly the slots of the feature list whose record has an unclipped position, in increasing order |
| `Glyphplot.Insert` | src/app/glyphplot/glyphplot.component.ts:415 | inserting an index adds exactly that index to the multiset of the order |
| `Glyphplot.SortByColour` | src/app/glyphplot/glyphplot.component.ts:409-415 | the result is a permutation of its input |
| `Glyphplot.SortSorted` | src/app/glyphplot/glyphplot.component.ts:409-415 | the sort leaves the indices in ascending colour order |
| `Glyphplot.SortDistinct` | src/app/glyphplot/glyphplot.component.ts:415-419 | the sort never duplicates an index |
| `Glyphplot.InsertStable` | src/app/glyphplot/glyphplot.component.ts:415 | inserting puts the index before every entry of its colour and keeps the order of each colour's other entries |
| `Glyphplot.SortStable` | src/app/glyphplot/glyphplot.component.ts:415 | the sort is stable: the entries of each colour keep the order they had |
| `Glyphplot.LayoutOrder` | src/app/glyphplot/glyphplot.component.ts:400-419 | the layout order indexes the glyph list |
| `Glyphplot.LayoutOrderSpec` | src/app/glyphplot/glyphplot.component.ts:400-419 | without a sort function, the order holds exactly the items with a feature record and an unclipped position, in ascending colour; each once when the feature list names each item once |
| `Glyphplot.LayoutOrderStable` | src/app/glyphplot/glyphplot.component.ts:403-419 | glyphs of equal colour are laid out in feature-list order |
| `Glyphplot.MatrixCell` | src/app/glyphplot/glyphplot.component.ts:421-442 | a cell's column never exceeds floor(sqrt n) |
| `Glyphplot.CounterIsCell` | src/app/glyphplot/glyphplot.component.ts:421-442 | counters with row*(m+1)+column == k and column <= m are k div (m+1) and k mod (m+1) |
| `Glyphplot.NextCell` | src/app/glyphplot/glyphplot.component.ts:434-441 | after each glyph the column goes up by one, and wraps to 0 on the next row once it passes floor(sqrt n) |
| `Glyphplot.CellTarget` | src/app/glyphplot/glyphplot.component.ts:434-435 | a cell's targets are 55 plus column × spacingX and 55 plus row × spacingY, so at least 55 with non-negative spacing |
| `Glyphplot.Placed` | src/app/glyphplot/glyphplot.component.ts:434-435 | a placed glyph's targets are its cell's, and nothing else about it changes |
| `Glyphplot.PlaceFirst` | src/app/glyphplot/glyphplot.component.ts:433-442 | handling the first k entries keeps the list's length |
| `Glyphplot.MatrixTargets` | src/app/glyphplot/glyphplot.component.ts:398-443 | the layout keeps the list's length; the lemmas below state what it does to each glyph |
| `Glyphplot.MatrixLayout` | src/app/glyphplot/glyphplot.component.ts:398-443 | returns the layout order and leaves the list as `MatrixTargets` of the old list |
| `Glyphplot.FillGrid` | src/app/glyphplot/glyphplot.component.ts:433-442 | the counter loop gives the k-th glyph of the order the targets of cell k |
| `Glyphplot.PlaceFirstOutside` | src/app/glyphplot/glyphplot.component.ts:433-442 | glyphs not yet reached by the loop are untouched |
| `Glyphplot.PlaceFirstAt` | src/app/glyphplot/glyphplot.component.ts:433-442 | once reached, the j-th glyph of the order carries the targets of cell j |
| `Glyphplot.PlaceFirstOnlyTargets` | src/app/glyphplot/glyphplot.component.ts:434-435 | the loop changes nothing but `tx` and `ty` |
| `Glyphplot.MatrixTargetsPlaced` | src/app/glyphplot/glyphplot.component.ts:421-442 | with one feature record per item, the k-th glyph of the layout order gets column k mod (m+1) and row k div (m+1), m = floor(sqrt v) for v visible positions, at `column*spacingX + 55`, `row*spacingY + 55` with the spacing of the n placed glyphs |
| `Glyphplot.MatrixTargetsFrame` | src/app/glyphplot/glyphplot.component.ts:400-405 | clipped glyphs and glyphs without a feature record keep their old targets, and no glyph changes anything but its targets |
| `Glyphplot.MatrixTargetsAtLeast55` | src/app/glyphplot/glyphplot.component.ts:434-435 | with one feature record per item, every laid-out glyph has tx >= 55 and ty >= 55 |
| `Glyphplot.CellsDistinct` | src/app/glyphplot/glyphplot.component.ts:433-442 | different places in the order get different cells |
| `Glyphplot.CellTargetsApart` | src/app/glyphplot/glyphplot.component.ts:428-430 | targets of different cells are at least 100 apart on some axis when the spacing is at least 100 |
| `Glyphplot.TargetsApart` | src/app/glyphplot/glyphplot.component.ts:428-442 | with one feature record per item, no two laid-out glyphs overlap: their targets differ by at least 100 in x or in y |
| `Glyphplot.LaidOut` | src/app/glyphplot/glyphplot.component.ts:377-387 | Cluster draws at the zoomed axis image of the data coordinates `ox`/`oy`; Matrix copies `tx`/`ty` into `x`/`y`; any other layout leaves the glyph alone; only `x`/`y` ever change |
| `Glyphplot.UpdateGlyphLayout` | src/app/glyphplot/glyphplot.component.ts:370-389 | without data or with empty data nothing changes; otherwise every glyph is laid out by `LaidOut` |
| `Glyphplot.MatrixDrawsAtCell` | src/app/glyphplot/glyphplot.component.ts:382-387 | after a matrix layout, the Matrix update draws a glyph exactly at its cell's target |
| `Glyphplot.Lerp` | src/app/glyphplot/glyphplot.component.ts:550-551 | the interpolated value is the source moved by the fraction t of the way to the target |
| `Glyphplot.LerpEnds` | src/app/glyphplot/glyphplot.component.ts:550-551 | eased time 0 gives the source and eased time 1 the target |
| `Glyphplot.LerpBetween` | src/app/glyphplot/glyphplot.component.ts:547-551 | for 0 <= t <= 1 the interpolated value lies between source and target |
| `Glyphplot.WithSource` | src/app/glyphplot/glyphplot.component.ts:524-525 | the source `sx`/`sy` becomes the current `x`/`y`, and nothing else changes |
| `Glyphplot.WithTarget` | src/app/glyphplot/glyphplot.component.ts:534-535 | the target `tx`/`ty` becomes the current `x`/`y`, and nothing else changes |
| `Glyphplot.Relaid` | src/app/glyphplot/glyphplot.component.ts:370-389 | without data or with empty data the glyph stays; otherwise at most its `x`/`y` change |
| `Glyphplot.SaveSources` | src/app/glyphplot/glyphplot.component.ts:523-526 | every glyph's `sx`/`sy` become its `x`/`y`; nothing else changes |
| `Glyphplot.SaveTargets` | src/app/glyphplot/glyphplot.component.ts:533-536 | every glyph's `tx`/`ty` become its `x`/`y`; nothing else changes |
| `Glyphplot.PrepareAnimation` | src/app/glyphplot/glyphplot.component.ts:520-537 | sources are saved; without target data the layout is updated and its result saved as the target |
| `Glyphplot.AnimationEndpoints` | src/app/glyphplot/glyphplot.component.ts:520-559 | an animation prepared without target data starts where the glyph was and ends where the layout puts it |
| `Glyphplot.AnimationFrame` | src/app/glyphplot/glyphplot.component.ts:547-552 | each glyph moves to `sx*(1-t) + tx*t`, `sy*(1-t) + ty*t`; nothing else changes |
| `Glyphplot.SimulationNodes` | src/app/glyphplot/glyphplot.component.ts:449-459 | with the force layout off nothing goes to the simulation; otherwise the unclipped glyphs' positions do, in list order |
| `Glyphplot.UnclippedPositions` | src/app/glyphplot/glyphplot.component.ts:454-456 | the k-th node is the position of the k-th unclipped glyph |
| `Glyphplot.GlyphConfiguration` | src/app/glyphplot/glyphplot.component.ts:352-363 | star glyphs take the star table's entry for the level of detail and all other types the flower table's; `undefined` past the table's end |
| `GlyphplotWebgl.Near` | src/app/glyphplot-webgl/glyphplot-webgl.component.ts:221-224 | the pointer is over an item exactly when it is within 5 of the item's position on both axes |
| `GlyphplotWebgl.FindHoveredGlyph` | src/app/glyphplot-webgl/glyphplot-webgl.component.ts:220-234 | -1 if and only if no item is within 5 of the pointer on both axes; otherwise the id of the first such item in list order |
| `GlyphplotWebgl.GlyphplotWebglComponent.MouseMove` | src/app/glyphplot-webgl/glyphplot-webgl.component.ts:209-259 | with data, the hovered id is reset and set per `FindHoveredGlyph`, in both configurations when they show the same data set and only in this view's otherwise; a first-button drag outside drag selection publishes the pan step |
| `GlyphplotWebgl.PanStep` | src/app/glyphplot-webgl/glyphplot-webgl.component.ts:239-249 | the translation moves by `-movement/scale`, z translation becomes 0, and scale and offsets stay |
| `GlyphplotWebgl.WheelZoom` | src/app/glyphplot-webgl/glyphplot-webgl.component.ts:296-339 | nothing is published when the tooltip is fixed or there is no camera utility; otherwise the scale is `max(0.1, scale*1.1)` for `deltaY < 0` and `max(0.1, scale*0.9)` otherwise, the translation stays, the x/y viewport and cursor offsets are the camera utility's offsets for the new scale, and the z offsets are 0 |
| `GlyphplotWebgl.ZoomInGrows` | src/app/glyphplot-webgl/glyphplot-webgl.component.ts:300-309 | turning the wheel up never shrinks a positive scale |
| `GlyphplotWebgl.ZoomOutShrinks` | src/app/glyphplot-webgl/glyphplot-webgl.component.ts:300-309 | turning the wheel down never grows the scale, except when it is raised to the 0.1 floor |
| `GlyphplotWebgl.GlyphplotWebglComponent.Mousewheel` | src/app/glyphplot-webgl/glyphplot-webgl.component.ts:293-342 | publishes the wheel step, never below 0.1, and changes no state itself |
| `GlyphplotWebgl.ViewFrustum` | src/app/glyphplot-webgl/glyphplot-webgl.component.ts:364-367 | width = data width × scale − 2 × viewport offset (same for height); the centre is the scaled data centre shifted by cursor offset plus translation |
| `GlyphplotWebgl.PanShiftsFrustum` | src/app/glyphplot-webgl/glyphplot-webgl.component.ts:364-367 | after a pan step the frustum keeps its size and every edge shifts by `-movement/scale` |
| `GlyphplotWebgl.GlyphplotWebglComponent.SetViewFrustum` | src/app/glyphplot-webgl/glyphplot-webgl.component.ts:354-370 | without a camera utility nothing changes; otherwise the view gets `ViewFrustum` of the current transformation |
| `GlyphplotWebgl.GlyphplotWebglComponent.OnViewportTransformationUpdated` | src/app/glyphplot-webgl/glyphplot-webgl.component.ts:381-393 | stores the published transformation, and refreshes the frustum only when the WebGL view is active |
| `GlyphplotWebgl.GlyphplotWebglComponent.constructor` | src/app/glyphplot-webgl/glyphplot-webgl.component.ts:96-113 | the component starts on the first configuration with no data |
| `GlyphplotWebgl.KeepForFit` | src/app/glyphplot-webgl/glyphplot-webgl.component.ts:400 | an item is kept exactly when no feature filter is set or its id occurs among the filtered ids |
| `GlyphplotWebgl.Kept` | src/app/glyphplot-webgl/glyphplot-webgl.component.ts:397-403 | the collected positions are never more than the items |
| `GlyphplotWebgl.KeptMembers` | src/app/glyphplot-webgl/glyphplot-webgl.component.ts:397-403 | a position is collected exactly when its item's id is among the filtered ids or no feature filter is set; all items are kept only when each satisfies that |
| `GlyphplotWebgl.BoundingBox` | src/app/glyphplot-webgl/glyphplot-webgl.component.ts:407-425 | minX/maxX/minY/maxY bound every kept position and each is attained by one |
| `GlyphplotWebgl.FitTransformation` | src/app/glyphplot-webgl/glyphplot-webgl.component.ts:433 | the published transformation translates to the given x and y, with z translation 0, scale 100 and all offsets 0 |
| `GlyphplotWebgl.FitToSelection` | src/app/glyphplot-webgl/glyphplot-webgl.component.ts:395-437 | publishes nothing when no item or every item is kept; otherwise scale 100, translation to the kept positions' smallest x and smallest y |
| `GlyphplotWebgl.GlyphplotWebglComponent.FitToSelectionHandler` | src/app/glyphplot-webgl/glyphplot-webgl.component.ts:395-437 | over the component's data and the selection service's ids and filters: nothing is published when no item or every item is kept; otherwise scale 100 and a translation to the kept positions' smallest x and smallest y |
| `GlyphplotWebgl.GlyphplotWebglComponent.ClearIdFilters` | src/app/glyphplot-webgl/glyphplot-webgl.component.ts:546-554 | the filter list becomes `ClearedAsWritten` of the old list; the filtered ids stay |
| `GlyphplotWebgl.ClearedAsWritten` | src/app/glyphplot-webgl/glyphplot-webgl.component.ts:547-553 | the list never grows |
| `GlyphplotWebgl.ClearedKeepsOthers` | src/app/glyphplot-webgl/glyphplot-webgl.component.ts:546-554 | every entry that is not an id filter survives, in its relative order |
| `GlyphplotWebgl.ClearedFromList` | src/app/glyphplot-webgl/glyphplot-webgl.component.ts:546-554 | every surviving entry was in the list |
| `GlyphplotWebgl.ClearedRemovesOnlyIdFilters` | src/app/glyphplot-webgl/glyphplot-webgl.component.ts:546-554 | only id filters are removed: every other entry keeps its count and nothing new appears |
| `GlyphplotWebgl.ClearedKeepsSecondOfAdjacentIdFilters` | src/app/glyphplot-webgl/glyphplot-webgl.component.ts:547-553 | two id filters in a row leave the second one in the list |
| `GlyphplotWebgl.ClearedWithoutAdjacentIdFilters` | src/app/glyphplot-webgl/glyphplot-webgl.component.ts:546-554 | when no two id filters are adjacent, all of them are removed |
| `GlyphplotWebgl.WithoutIdFilters` | src/app/glyphplot-webgl/glyphplot-webgl.component.ts:552 | the intended removal: no id filter is left and every other entry keeps its count |
| `GlyphplotWebgl.WithoutIdFiltersKeepsClean` | src/app/glyphplot-webgl/glyphplot-webgl.component.ts:552 | a list without id filters is left unchanged by the intended removal |
| `GlyphplotWebgl.ProcessedSplice` | src/app/glyphplot-webgl/glyphplot-webgl.component.ts:548-550 | splicing out the visited id filter and moving to the next index skips the entry that slid into its place |

## Left out

- `mlbackend/learner.py` is not part of this model. It trains machine-learning models and reads and writes files.
- All drawing is left out: canvas and WebGL rendering, the renderer and dot view, `draw`, `animateGlyphs` and `doAnimateGlyphs`, the selection rectangle, tooltip and magic-lens DOM state.
- Animation timing is left out. The `d3.timer` callback and `d3.easeCubic` are represented only by the eased time `t` passed to `AnimationFrame`. The suppressed-animation branch only redraws. The `drawLock` flag is not modelled.
- The event bus, Angular lifecycle hooks and host-listener wiring are left out. A published transformation is a returned value, and delivery to this component is the separate `OnViewportTransformationUpdated` call.
- The drag-selection half of `mouseMove` and `onMousedown`/`onMouseUp` are left out: they set the dragging flag, publish interaction events carrying the pointer position, and update the tooltip's display state, which belongs to the drawing left out above. `selectByArea` and `IdFilter.extendAccaptableIds` are not part of this model.
- `onInteractionUpdated` is left out. Its TouchEnd branch, which calls `clearIdFilters` and then pushes an id filter or empties the feature filters, depends on `selectByArea` and `extendAccaptableIds`, which are not part of this model. Its TouchBegin branch, which switches the layout to Cluster outside drag-selection mode, is not modelled either.
- The force simulation is left out. Only the guard of `solveCollisions` and the node list it would restart are modelled (`SimulationNodes`).
- `Glyphplot.MatrixLayout`: a caller-supplied sort function is not modelled, only the default colour comparator. The component's own caller passes none.
- `Glyphplot.MatrixLayout`: colour values are modelled as reals. With a `NaN` colour the default comparator is inconsistent, and the platform sort's result is then unspecified.
- `Glyphplot.MatrixLayout`: the join of feature records and positions by id is given as indices. Position ids are assumed unique, and each feature record is the index of the position with its id; a record whose id has no position is left out of the list, as the source's filter drops it. The source looks up the first unclipped position with the id, so with two positions sharing an id, one clipped and one not, it places the unclipped one where the model places nothing. The colour is read from the glyph, which agrees with the feature record only when position ids are unique and each item has at most one feature record. `MatrixTargetsPlaced`, `MatrixTargetsAtLeast55` and `TargetsApart` assume each item has at most one feature record; with two, the source places the same position twice.
- `Glyphplot.MatrixLayout`: position records are values in an array, so two glyphs sharing one position object (aliasing) are not modelled.
- Clipping (`helper.checkClipping`), the D3 axis scales and the camera utility's zoom-offset computation are function parameters.
- In `mousewheel`, the camera-size and zoom-factor values are computed but never used, so they are not modelled.
- `GlyphplotWebgl.PanStep` requires a non-zero scale. Division by zero would give JavaScript infinities, which are not modelled. Every transformation this component publishes has a positive scale.
- `GlyphplotWebgl.GlyphplotWebglComponent.OnViewportTransformationUpdated` requires a positive scale in the payload, for the same reason.
- `GlyphplotWebgl.GlyphplotWebglComponent.constructor`: the default viewport transformation comes from a class that is not part of this model, so it is a parameter, and its scale is assumed to be positive: `Valid()` and the pan step divide by it.
- `GlyphplotWebgl.FitTransformation`: the offsets omitted in `fitToSelection` are taken as 0, and the update strategy argument (always the default here) is dropped.
- `GlyphplotWebgl.GlyphplotWebglComponent.FitToSelectionHandler` requires data to be present. Without it the source fails with a `TypeError`.
- `GlyphplotWebgl.GlyphplotWebglComponent.MouseMove` writes the final hovered id directly, not -1 first and then the id. Nothing observes the value in between.
- `Glyphplot.UpdateGlyphLayout` works on one glyph array. The source's `updateAllItems` flag chooses between all positions of the data set and the layout controller's positions; the caller passes whichever list that is.
- `Glyphplot.GlyphConfiguration` returns the configuration that `updateGlyphConfiguration` assigns, rather than performing the assignment.
- JavaScript infinities and the floating-point rounding of `Math.sqrt` and of coordinates are not modelled. Coordinates are reals, and floor/ceil of square roots are exact integer square roots.
- The `FeatureFilter` getters are plain field reads. Items are maps from feature names to the result of unary `+` on the stored value.

## Findings

| source | as written | input that shows it | evidently intended | confidence | as-written member | corrected member |
|---|---|---|---|---|---|---|
| src/app/glyphplot-webgl/glyphplot-webgl.component.ts:546-554 | `splice` inside `forEach` shifts the next entry into the visited index, so it is never examined | a filter list of two id filters: the second one remains | remove every old id filter, as the comment says, before the new one is pushed | not executed; high | `GlyphplotWebgl.ClearedKeepsSecondOfAdjacentIdFilters` | `GlyphplotWebgl.WithoutIdFilters` |
