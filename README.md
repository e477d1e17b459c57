# Widget layout and colour-map editing, modelled in Dafny

This project models three pieces of the plotting package:

- **The constraint layout solver** (`widgeometry.py`). A tree of widgets holds one size specification (`WidgetSize`) per axis. Each specification has:
  - a space demand: `exact`, `shrinkToFit` or `expandToFit`;
  - an optional range [lo, hi];
  - an outer and an inner buffer, each fractional or in world units;
  - a justification of the children: `toLowest`, `toHighest`, `centre` or `spread`.

  `Geometry`'s constructor checks the policies on every axis and converts every fractional buffer to world units with one scale, the largest root extent. `calcRanges(di)` then resolves one axis in four walks:
  1. a capacity check;
  2. post-order shrinking of `shrinkToFit` frames around their children;
  3. pre-order sharing of the free room among `expandToFit` children;
  4. justified positioning of every child relative to its parent's range and inner buffer.

  This engine uses 2·inner at a frame's edges and the full outer buffers of both neighbours between siblings.
- **The older in-class layout of `widgets.py`**. `Size`, the checks of `_Widget.__init__`, `Frame` and `GUI` build a tree of widgets; `GUI.doSetUp` sets its buffers, then its sizes, then its positions. This engine is kept separate from the first. It uses half the inner buffer at each edge and half of each neighbour's outer buffer in a gap, and each axis is scaled by the GUI's size on that axis.
- **The colour-map editor's state** (`colourmap.py`).
  - `_HueGraph` is the list of (ci, hue) points of one colour, between fixed endpoints at ci 0 and ci 1, with insert, delete, get, set, unpack, copy and piecewise-linear interpolation.
  - `_Action` and its three kinds record one edit each.
  - `ActionHistory` is the undo/redo cursor over the recorded edits.
  - `ColourMap.__init__`, `_undo` and `_redo` apply an edit's inverse or the edit itself to the right graph.

Modelling conventions:

- Extents, buffers, ci values and hues are `real`. The capacity tolerance ε is a parameter.
- A widget tree is a datatype value (`GeometryTypes.Widget`, `WidgetTypes.Node`). The walks that rewrite sizes and ranges in place are methods that return the rewritten tree. Each such method is proved equal to a specification function, and the lemmas are stated about that function.
- A parent reference is a path of child indices from the GUI frame.
- Every raised `ValueError` is a constructor of an error datatype. Every checking walk reports the first offence in the order the source walks the tree.
- Objects whose fields the source updates are classes with methods: `Geometry`, `Gui`, `HueGraph`, `ActionHistory` and `ColourMap`.

Source paths below are relative to the repository root.

## Model

| member | source | states |
|---|---|---|
| GeometryTypes.NewBuffer | general/plotting/widgeometry.py:46-51 | Only the styles `asFrac` and `world` are accepted; any other style is refused with the style in the error, and an accepted buffer keeps its value |
| GeometryTypes.SetWorld | general/plotting/widgeometry.py:54-62 | The result is always in world units; an `asFrac` value is multiplied by the scale; a `world` buffer comes back unchanged, so a second call does nothing |
| GeometryBuild.SetWorldExample | general/plotting/widgeometry.py:625-636 | The source's own example: 0.02 `asFrac` under a root extent of 6.5 becomes 0.13 `world`, and converting again leaves 0.13 |
| GeometryTypes.NewWidgetSize | general/plotting/widgeometry.py:75-104 | Construction succeeds if and only if the demand is known, `exact` comes with an extent, and the justify is known; the errors come in that order. A given extent gives the range [0, maxExtent], no extent gives no range, and a missing buffer defaults to a zero fractional buffer |
| GeometryTypes.MaxExtentIsMax | general/plotting/widgeometry.py:292-301 | The widest-child measure is a maximum: it bounds every child's extent and some child attains it |
| GeometryTypes.CountExpand | general/plotting/widgeometry.py:334-337 | The count of expanding children is at most the number of children, and it is zero exactly when no child expands |
| GeometryTypes.SameExceptAxisTrans | general/plotting/widgeometry.py:497-528 | "Differs only on axis di" composes, so a chain of walks on one axis leaves every other axis alone |
| GeometryBuild.AxisTest | general/plotting/widgeometry.py:137-141 | An axis passes the constructor's tests if and only if the root does not expand, the policy rules hold in the whole tree, and the root has a range; when the root has a range, the failure is the policy check's own |
| GeometryBuild.RootScaleIsMax | general/plotting/widgeometry.py:143-147 | `maxRootSize` bounds every root extent, and equals one of them unless all are non-positive (it starts from 0.0) |
| GeometryBuild.WorldSize | general/plotting/widgeometry.py:189-191 | Both buffers of the axis are in world units, and the demand, range and justify are unchanged |
| GeometryBuild.WorldSizes | general/plotting/widgeometry.py:189-191 | The first n axes are converted and the remaining axes are untouched |
| GeometryBuild.WorldBuffersConverts | general/plotting/widgeometry.py:179-197 | After the conversion every buffer of every widget is in world units, on every axis |
| GeometryBuild.WorldBuffersOfWorld | general/plotting/widgeometry.py:179-197 | A tree whose buffers are already in world units is left exactly as it is, whatever the scale |
| GeometryBuild.WorldBuffersIdempotent | general/plotting/widgeometry.py:179-197 | Converting twice, even with another scale, is converting once |
| GeometryBuild.WorldBuffersSolvable | general/plotting/widgeometry.py:179-197 | The conversion keeps every demand and range, so the policy rules and the ranges of exact widgets survive it |
| GeometryBuild.Construct | general/plotting/widgeometry.py:123-149 | Construction fails if and only if some axis fails its tests, and it reports the first failing axis's error; on success every root axis has a range |
| GeometryBuild.ConstructSucceeds | general/plotting/widgeometry.py:137-175 | Construction succeeds if and only if, on every axis, the root has a range and does not expand, no childless widget shrinks, and no shrinking frame has an expanding child |
| GeometryBuild.ConstructReady | general/plotting/widgeometry.py:137-149 | The constructed tree is the input with every buffer converted using the largest root extent as scale; it is solvable on every axis and keeps the root ranges |
| GeometryBuild.CheckAxes | general/plotting/widgeometry.py:137-141 | The checking loop stops at the first axis that fails, in axis order |
| GeometryBuild.MaxRootSize | general/plotting/widgeometry.py:143-147 | The loop computes the largest root extent, starting from 0.0 |
| GeometryBuild.SetBuffersForChildren | general/plotting/widgeometry.py:179-197 | The recursive loops convert the widget's own buffers, then every child's, exactly as the conversion function does |
| GeometryChecks.CheckSpaceDemands | general/plotting/widgeometry.py:152-175 | The only errors are an expanding root, a shrinking childless widget and an expanding child under a shrinking frame, each tagged with the axis; an expanding root is reported only for the root |
| GeometryChecks.DemandTests | general/plotting/widgeometry.py:169-175 | Each child is first checked against its parent (an expanding child under a shrinking frame), then checked recursively |
| GeometryChecks.CheckSpaceDemandsCorrect | general/plotting/widgeometry.py:162-175 | The check passes if and only if the root does not expand and the whole tree obeys the two policy rules |
| GeometryChecks.CrossTests | general/plotting/widgeometry.py:234-240 | Across the sequence axis, an exact child fails when its extent minus ε exceeds the frame's extent less 2·inner; children that are not exact are not examined |
| GeometryChecks.SizeCheck | general/plotting/widgeometry.py:200-243 | The capacity check can fail only with "no space for children" or "no space for child" |
| GeometryChecks.SizeCheckCorrect | general/plotting/widgeometry.py:213-243 | The capacity check passes if and only if, in every exact frame reachable through exact frames, the exact children fit: along the axis the free space plus ε is not negative, and across it no exact child exceeds extent − 2·inner by more than ε |
| GeometryChecks.SizeCheckSkips | general/plotting/widgeometry.py:213-216 | A widget that is not exact, or has no children, passes without anything below it being examined |
| GeometryChecks.CheckLevel | general/plotting/widgeometry.py:218-240 | The level loops compute the declarative capacity test of one exact frame |
| GeometryChecks.ParallelRoom | general/plotting/widgeometry.py:218-230 | The summing loop computes extent − 2·inner + outer_first + outer_last − Σ exact extents − Σ 2·outer |
| GeometryChecks.CrossRoom | general/plotting/widgeometry.py:234-240 | The cross loop stops at the first child that is too large |
| GeometryChecks.CheckSizeChildren | general/plotting/widgeometry.py:200-243 | The recursive method with its loops equals the capacity check |
| GeometryChecks.CheckSizeKids | general/plotting/widgeometry.py:242-243 | The recursive calls run in child order and stop at the first error |
| GeometryShrink.Shrunk | general/plotting/widgeometry.py:246-310 | Shrinking turns `shrinkToFit` into `exact` and keeps every other demand; an exact widget always has a range |
| GeometryShrink.ShrunkKids | general/plotting/widgeometry.py:265-269 | Every child is shrunk recursively before its parent is resolved |
| GeometryShrink.ResolveShrink | general/plotting/widgeometry.py:271-310 | The step at one frame changes only its own size on the axis and keeps its children, name and sequence axis |
| GeometryShrink.ShrunkWellFormed | general/plotting/widgeometry.py:246-310 | After shrinking no widget is `shrinkToFit`, every exact widget has a range, and nothing off the axis has changed |
| GeometryShrink.ShrunkKeeps | general/plotting/widgeometry.py:271-276 | A widget that does not shrink keeps its size on the axis |
| GeometryShrink.ShrunkKidsExact | general/plotting/widgeometry.py:265-269 | Below a shrinking frame every child has already been resolved, and is exact with a range |
| GeometryShrink.ShrunkTop | general/plotting/widgeometry.py:278-310 | A shrinking frame becomes `exact` with range [0, C + 2·inner], with C taken over its children as already resolved: along the axis Σ extent + Σ 2·outer − outer_first − outer_last, across it the widest child, and 0 with no children |
| GeometryShrink.ResolveShrinkTop | general/plotting/widgeometry.py:278-310 | The same range at one frame, given its already-resolved exact children |
| GeometryShrink.ShrunkIdentity | general/plotting/widgeometry.py:246-276 | A tree with no `shrinkToFit` widget is left unchanged |
| GeometryShrink.ShrunkIdempotent | general/plotting/widgeometry.py:246-310 | Shrinking twice is shrinking once |
| GeometryShrink.NoShrinkLegal | general/plotting/widgeometry.py:162-167 | Once no widget shrinks, the policy rules hold trivially |
| GeometryShrink.ShrunkFits | general/plotting/widgeometry.py:278-310 | A frame shrunk to fit its non-empty child list always passes the capacity test; along the axis it leaves exactly no free space |
| GeometryShrink.ShrinkChildren | general/plotting/widgeometry.py:246-310 | The imperative walk equals the shrink specification |
| GeometryShrink.ShrinkKids | general/plotting/widgeometry.py:265-269 | The first loop resolves each child and counts the children that still expand |
| GeometryShrink.TotalChildSize | general/plotting/widgeometry.py:280-301 | The loops compute C: the packed span along the axis, the widest child across it, 0 without children |
| GeometryShrink.SumChildSizes | general/plotting/widgeometry.py:281-287 | The summing loop gives Σ extent + Σ 2·outer |
| GeometryShrink.MaxChildSize | general/plotting/widgeometry.py:292-301 | The maximising loop gives the largest child extent |
| GeometryExpand.ShareSumRoom | general/plotting/widgeometry.py:342-369 | The k shares A/k add up to exactly A |
| GeometryExpand.SetExact | general/plotting/widgeometry.py:364-380 | An expanded child becomes `exact` with range [0, e] |
| GeometryExpand.Grant | general/plotting/widgeometry.py:360-380 | Every expanding child gets extent e, and every other child is left as it was |
| GeometryExpand.ResolveLevelReady | general/plotting/widgeometry.py:334-380 | After the level step every child is exact, still ready for the walk, and differs from before only on the axis |
| GeometryExpand.Expanded | general/plotting/widgeometry.py:313-383 | The walk leaves the widget's own sizes alone (its parent has already resolved them) and keeps the number of children |
| GeometryExpand.ExpandKids | general/plotting/widgeometry.py:382-383 | Every child is expanded recursively after its parent's level step |
| GeometryExpand.ExpandedReady | general/plotting/widgeometry.py:313-383 | The walk keeps the tree ready and changes nothing off the axis |
| GeometryExpand.ExpandedAllExact | general/plotting/widgeometry.py:313-383 | When the walk does not raise, every widget of the tree ends `exact` |
| GeometryExpand.ExpandedError | general/plotting/widgeometry.py:357-358 | The only error the walk raises is "no space to expand" |
| GeometryExpand.ExpandedLevel | general/plotting/widgeometry.py:334-383 | The parent is resolved before its children: each child of the result keeps the sizes the level step gave it, and a failing level step raises before any child is visited |
| GeometryExpand.ExpandParallelShares | general/plotting/widgeometry.py:339-369 | Along the axis, with k expanding children, the walk raises when A ≤ 0, where A = extent − 2·inner − Σ non-expanding extents − Σ 2·outer + outer_first + outer_last; otherwise each expanding child gets [0, A/k] and every other child keeps its size |
| GeometryExpand.ExpandCrossShares | general/plotting/widgeometry.py:371-380 | Across the axis each expanding child gets [0, extent − 2·inner], with no check that this is positive, and every other child keeps its size |
| GeometryExpand.ResolveCross | general/plotting/widgeometry.py:371-380 | The cross level step always succeeds and grants extent − 2·inner |
| GeometryExpand.ResolveParallel | general/plotting/widgeometry.py:339-369 | With room, the parallel level step grants A/k |
| GeometryExpand.ExpandFills | general/plotting/widgeometry.py:339-369 | Along the axis, after expansion the children laid end to end with their gaps fill the parent's interior (extent − 2·inner) exactly |
| GeometryExpand.LevelFills | general/plotting/widgeometry.py:339-369 | The same, for the level step alone |
| GeometryExpand.GrantSums | general/plotting/widgeometry.py:360-369 | Granting e adds e per expanding child to the fixed extents and leaves the buffers alone |
| GeometryExpand.ExpandChildren | general/plotting/widgeometry.py:313-383 | The imperative walk equals the expand specification |
| GeometryExpand.ExpandLevel | general/plotting/widgeometry.py:331-380 | The level code (count, room, share) equals the level step |
| GeometryExpand.CountExpanding | general/plotting/widgeometry.py:334-337 | The counting loop gives the number of expanding children |
| GeometryExpand.ExpandRoomLoop | general/plotting/widgeometry.py:339-355 | The summing loop gives A |
| GeometryExpand.GrantLoop | general/plotting/widgeometry.py:360-380 | The loop makes each expanding child `exact` with range [0, e] and leaves the rest |
| GeometryExpand.ExpandKidsInOrder | general/plotting/widgeometry.py:382-383 | The recursive calls run in child order and stop at the first error |
| GeometryPosition.PlaceAt | general/plotting/widgeometry.py:412-414 | A placed child starts at the given point and keeps its extent, and nothing else on the axis changes |
| GeometryPosition.PackForward | general/plotting/widgeometry.py:405-416 | Each child of a forward packing is placed at its running position |
| GeometryPosition.PackForwardShape | general/plotting/widgeometry.py:405-416 | In a forward packing the gap between neighbours is outer_i + outer_{i+1} + g; the first child starts one outer buffer past the start; and the last ends one packed span plus (n − 1)·g further on |
| GeometryPosition.CrossPlace | general/plotting/widgeometry.py:471-491 | Across the axis each child is placed by the same rule from its own extent |
| GeometryPosition.LevelPlaced | general/plotting/widgeometry.py:403-491 | The children of one frame are placed, with every extent kept |
| GeometryPosition.LevelPlacedKeeps | general/plotting/widgeometry.py:403-491 | Each placed child changes only where it starts; it keeps its extent, its other axes, and everything below it |
| GeometryPosition.Positioned | general/plotting/widgeometry.py:386-494 | The walk does not change the widget's own range (its parent has placed it) and keeps the tree's shape |
| GeometryPosition.PositionKids | general/plotting/widgeometry.py:493-494 | Every child is positioned recursively after its own placement |
| GeometryPosition.MovedTrans | general/plotting/widgeometry.py:386-494 | The relation "ranges moved but no extent changed" composes |
| GeometryPosition.PlaceAtMoves | general/plotting/widgeometry.py:412-414 | Placing a child moves it and nothing below it |
| GeometryPosition.PositionedKeeps | general/plotting/widgeometry.py:386-494 | Positioning moves widgets without resizing any of them, keeps every range set, and changes nothing off the axis |
| GeometryPosition.ParallelJustified | general/plotting/widgeometry.py:403-469 | Along the axis, neighbours are always outer_i + outer_{i+1} (plus the spread gap) apart. `toLowest` starts at lo + inner; `toHighest` ends at hi − inner; `centre`, and `spread` with one child, centre the packed span on the midpoint; `spread` with two or more runs from lo + inner to hi − inner, with gap (extent − 2·inner − span)/(n − 1) |
| GeometryPosition.ParallelPlaced | general/plotting/widgeometry.py:403-469 | The same placement, stated for the level step |
| GeometryPosition.PlacedNoGap | general/plotting/widgeometry.py:405-451 | With no spread gap, the run starts at lo + inner or ends at hi − inner, or is centred, by justify |
| GeometryPosition.PlacedSpread | general/plotting/widgeometry.py:453-469 | Spread with two or more children is flush with both inner buffers, so the extra space goes only between children |
| GeometryPosition.SpreadGapValue | general/plotting/widgeometry.py:454-457 | The spread gap is the room left inside the frame, divided by one fewer than the number of children |
| GeometryPosition.CrossJustified | general/plotting/widgeometry.py:471-491 | Across the axis, `toLowest` starts every child at lo + inner, `toHighest` ends every child at hi − inner, and `centre` and `spread` both centre every child on the midpoint |
| GeometryPosition.PositionChildren | general/plotting/widgeometry.py:386-494 | The imperative walk equals the positioning specification |
| GeometryPosition.PositionKidsInOrder | general/plotting/widgeometry.py:493-494 | The recursive calls visit the children in order |
| GeometryPosition.PlaceLevel | general/plotting/widgeometry.py:400-491 | The dispatch on the sequence axis and the justify equals the level placement |
| GeometryPosition.PackCentred | general/plotting/widgeometry.py:440-451 | The centred loop is the forward packing that starts half the span below the midpoint |
| GeometryPosition.TotalWidthChildren | general/plotting/widgeometry.py:432-439 | The summing loop gives Σ (extent + 2·outer) − outer_first − outer_last |
| GeometryPosition.PackLoop | general/plotting/widgeometry.py:405-469 | The forward loop, with a running x, produces the forward packing |
| GeometryPosition.PackBackwardLoop | general/plotting/widgeometry.py:417-428 | The backward loop of `toHighest` produces the forward packing that ends at its start point |
| GeometryPosition.BackwardStep | general/plotting/widgeometry.py:421-428 | One backward step places the child where the forward packing does, and moves the cursor to where that packing stands before the child |
| GeometryPosition.CrossPlaceLoop | general/plotting/widgeometry.py:471-491 | The cross loops equal the cross placement |
| GeometrySolver.CalcRangesSpec | general/plotting/widgeometry.py:497-528 | `calcRanges` fails only with a capacity error or "no space to expand"; a capacity error leaves the tree untouched and happens exactly when the capacity rule fails |
| GeometrySolver.CalcRangesResolves | general/plotting/widgeometry.py:516-528 | On success every widget ends `exact` with a range; whatever the outcome, only the axis changes and the tree stays solvable on it |
| GeometrySolver.CalcRangesKeepsExactRoot | general/plotting/widgeometry.py:516-528 | An exact root keeps its size and range on the axis |
| GeometrySolver.CalcRangesKeepsValid | general/plotting/widgeometry.py:497-528 | After `calcRanges` on one axis, every axis can still be solved |
| GeometrySolver.CalcRangesBreaksContainment | general/plotting/widgeometry.py:214-216 | On an exact root of extent 10 holding an exact leaf of extent 9 and an expanding frame with one centred exact child of extent 5, `calcRanges(0)` passes, the frame gets [9, 10] and its child [7, 12], outside both the frame and the root: the capacity check returns at once at a frame that is not exact |
| GeometrySolver.OtherAxisKept | general/plotting/widgeometry.py:497-528 | Two trees that differ only on one axis agree on every other axis, including its policy rules and ranges |
| GeometrySolver.AllExactSolvable | general/plotting/widgeometry.py:497-528 | A tree that is `exact` everywhere on an axis can be solved on it again and can be positioned at once |
| GeometrySolver.MovedKeepsExact | general/plotting/widgeometry.py:386-494 | Moving widgets without resizing them keeps every widget `exact` |
| GeometrySolver.ResolveAxis | general/plotting/widgeometry.py:516-528 | The four phases, run in source order with each phase's tree handed to the next, equal the specification |
| GeometrySolver.Geometry.Init | general/plotting/widgeometry.py:132-135 | The object holds the root, ε and the number of axes |
| GeometrySolver.Geometry.New | general/plotting/widgeometry.py:123-149 | The constructor fails exactly when the construction checks fail, with the same error; on success it holds the converted tree |
| GeometrySolver.Geometry.CalcRanges | general/plotting/widgeometry.py:497-528 | The root is replaced as the four phases leave it; only the axis changes, and every axis can still be solved |
| WidgetTypes.NewSize | general/plotting/widgets.py:177-185 | An unknown demand is refused first, then `exact` without a size; otherwise the demand and the size are kept |
| WidgetTypes.WithAxis | general/plotting/widgets.py:578-580 | Rewriting one axis's layout changes nothing else |
| WidgetTypes.SameShapeTrans | general/plotting/widgets.py:528-744 | "Same widgets in the same places" composes across the layout passes |
| WidgetTree.Attach | general/plotting/widgets.py:443-445 | Appending a child keeps the root's name, flag and layout |
| WidgetTree.AttachAppends | general/plotting/widgets.py:443-445 | The new widget becomes the parent's last child, and every other child is as it was |
| WidgetTree.AttachNames | general/plotting/widgets.py:443-445 | Attaching adds the new widget's names, and no others, below the GUI frame |
| WidgetTree.AttachEnabled | general/plotting/widgets.py:248-251 | Attaching under the rule "a child of a disabled parent is disabled" keeps no enabled widget under a disabled parent |
| WidgetTree.AttachLegal | general/plotting/widgets.py:213-239 | Attaching a legal widget that does not expand under a shrinking parent keeps the tree's demand rules |
| WidgetBuild.StartLayout | general/plotting/widgets.py:213-231 | A widget starts with its demand, its given size and its buffer fractions, and has no range yet |
| WidgetBuild.GuiAxisCheck | general/plotting/widgets.py:1025-1030 | The GUI passes on an axis if and only if it does not expand and has a size, with the two errors in that order |
| WidgetBuild.GuiRoot | general/plotting/widgets.py:1006-1034 | The GUI frame is built if and only if both justifications are known and every axis passes. It starts with no children, its outer buffer fraction 0, and its given demands and sizes. An unknown cross justify's message names the along justify, as in the source |
| WidgetBuild.JustifyCheck | general/plotting/widgets.py:431-435 | A frame passes if and only if both its justifications are known |
| WidgetBuild.AppendCheck | general/plotting/widgets.py:209-246 | The checks before the append pass if and only if the name is free, a non-frame does not shrink, no axis expands under a shrinking parent, and the parent is a frame; a taken name is reported first |
| WidgetBuild.AddCheck | general/plotting/widgets.py:209-246 | A widget is accepted if and only if it passes the checks before the append and the justify checks; a failure before the append is reported first |
| WidgetBuild.NewWidget | general/plotting/widgets.py:202-251 | The constructed widget has its name, kind, demands, sizes and fractions; a frame has no children; it is enabled only if its parent is |
| WidgetBuild.NewWidgetFits | general/plotting/widgets.py:209-251 | An accepted widget obeys the demand rules, keeps no enabled widget under a disabled one, and carries exactly its own name |
| WidgetBuild.NamesAsWritten | general/plotting/widgets.py:209-246 | As written, the name is registered as soon as the checks before the append pass, even when the justify check then fails |
| WidgetBuild.RetryRefusedAsWritten | general/plotting/widgets.py:431-435 | As written, a frame refused for an unknown justify cannot then be built under its own name with a correct justify |
| WidgetBuild.RetryAccepted | general/plotting/widgets.py:209-246 | With a refusal leaving the registry alone, the corrected frame is accepted if and only if the first attempt failed only on its justify |
| WidgetSizing.ScaledBuffers | general/plotting/widgets.py:504-505 | Both buffers become their fractions times the scale, and nothing else changes |
| WidgetSizing.Buffered | general/plotting/widgets.py:500-509 | The widget itself is left alone and the tree keeps its shape |
| WidgetSizing.BufferedSets | general/plotting/widgets.py:500-509 | Every widget below sets its buffers on the axis to fraction × gui.size on that axis |
| WidgetSizing.BufferedKeeps | general/plotting/widgets.py:500-509 | Nothing changes but those buffers |
| WidgetSizing.BufferedIdentity | general/plotting/widgets.py:500-509 | A tree whose buffers are already set is left unchanged |
| WidgetSizing.BufferedIdempotent | general/plotting/widgets.py:500-509 | Setting the buffers twice is setting them once |
| WidgetSizing.SetBuffersForChildren | general/plotting/widgets.py:500-509 | The recursive loop equals the buffer specification |
| WidgetSizing.ParallelTotalClosed | general/plotting/widgets.py:512-525 | The total is Σ sizes + Σ outer − outer_first/2 − outer_last/2; a single child gives size + outer/2, and no children gives 0 |
| WidgetSizing.CalcTotalSizeParallelChildren | general/plotting/widgets.py:512-525 | The loop gives that total |
| WidgetSizing.MaxSizeIsMax | general/plotting/widgets.py:607-610 | The cross minimum is the largest child size, or 0.0 when there is none or all sizes are negative |
| WidgetSizing.MaxChildSize | general/plotting/widgets.py:607-610 | The loop gives that maximum |
| WidgetFit.TotalSize | general/plotting/widgets.py:528-656 | The widget's own fields and its number of children are kept |
| WidgetFit.FirstPassEach | general/plotting/widgets.py:575-595 | The first loop sizes each child in turn and stops at the first child that raises |
| WidgetFit.FirstPassCounts | general/plotting/widgets.py:575-584 | The first loop's counter advances by the number of expanding children |
| WidgetFit.FirstPassSized | general/plotting/widgets.py:575-595 | The first loop passes exactly when every child sizes without error; it then leaves the sized children and the number of expanding ones |
| WidgetFit.CountExpandPositive | general/plotting/widgets.py:575-584 | The counter is positive exactly when some child expands |
| WidgetFit.SizeChildFacts | general/plotting/widgets.py:578-594 | A shrinking child becomes exact with size inner + its children's total; an exact child keeps its size; an expanding child stays expanding, at its inner buffer plus (for a frame) the total its children need once its size is reset to that buffer; no outer buffer changes |
| WidgetFit.ExpandChildMinimum | general/plotting/widgets.py:585-589 | The first loop leaves an expanding child at its minimum: its inner buffer, plus, for a frame, the room its children take as they are left |
| WidgetFit.AtMinimum | general/plotting/widgets.py:585-587 | The child as the first loop sets it before measuring: size equal to its inner buffer, and demand, buffers and children kept |
| WidgetFit.GrowFacts | general/plotting/widgets.py:636-654 | A grown child becomes exact, at its size plus the share along the axis, or at the share across it |
| WidgetFit.SecondPassEach | general/plotting/widgets.py:633-654 | The second loop grows each expanding child in turn and stops at the first that raises |
| WidgetFit.SecondPassGrown | general/plotting/widgets.py:633-654 | A passing second loop leaves the grown children |
| WidgetFit.SettleFacts | general/plotting/widgets.py:597-656 | After the first loop, the method refuses a shrinking frame with an expanding child (bug00), and an exact frame whose children need more than size − inner. It returns size − inner once it grew the children, and the children's minimum otherwise |
| WidgetFit.TotalSizeSteps | general/plotting/widgets.py:568-656 | The whole method, step by step: on success every child was sized, the children are the sized ones (grown when the frame is exact and some of them expand), and the result is as above; the refusals happen exactly where the source raises |
| WidgetFit.ParallelSumShifted | general/plotting/widgets.py:633-638 | Growing every expanding child by the same amount lengthens the run by that amount per expanding child |
| WidgetFit.CrossFilledMax | general/plotting/widgets.py:645-649 | Across the axis, when each expanding child gets m and no child took more than m, the largest child is m |
| WidgetFit.TotalSizeGrew | general/plotting/widgets.py:630-654 | On success, in an exact frame with an expanding child, every expanding child grew without error |
| WidgetFit.TotalSizeDemands | general/plotting/widgets.py:575-654 | On success every child ends `exact`, except that an expanding child under an expanding frame stays expanding |
| WidgetFit.TotalSizeFixesChildren | general/plotting/widgets.py:578-594 | On success a shrinking child has size inner + its children's total, an exact child keeps its size, and no outer buffer changes |
| WidgetFit.AlongFilled | general/plotting/widgets.py:626-638 | Along the axis, sharing the room left over equally among k expanding children makes the run fill the room |
| WidgetFit.FilledAlong | general/plotting/widgets.py:626-638 | Along the axis, the grown run fills size − inner exactly |
| WidgetFit.FilledAcross | general/plotting/widgets.py:645-649 | Across the axis, the largest grown child is exactly size − inner |
| WidgetFit.TotalSizeMeasures | general/plotting/widgets.py:602-656 | On success the result is the room the children take as they are left (their run along the axis, the largest across it). An exact frame holds it within size − inner, and is filled exactly when some child expanded |
| WidgetFit.TotalSizeRefuses | general/plotting/widgets.py:597-628 | The method refuses a shrinking frame with an expanding child, and an exact frame whose sized children need more than size − inner |
| WidgetFit.TotalSizeShape | general/plotting/widgets.py:528-656 | Sizing never adds, drops, renames or re-enables a widget |
| WidgetFit.CalcTotalSizeChildren | general/plotting/widgets.py:528-656 | The recursive method with its two loops equals the sizing specification and keeps the widget count |
| WidgetFit.FixChildren | general/plotting/widgets.py:575-595 | The first loop equals its specification |
| WidgetFit.SizeChildStep | general/plotting/widgets.py:578-594 | One child's treatment in the first loop equals its specification |
| WidgetFit.GrowChildren | general/plotting/widgets.py:633-654 | The second loop equals its specification |
| WidgetFit.GrowStep | general/plotting/widgets.py:636-654 | One child's growth equals its specification |
| WidgetPosition.ExactTests | general/plotting/widgets.py:674-676 | Each child fails the test exactly when it is not `exact`, and the error names the frame, the axis and the child |
| WidgetPosition.PlaceCheck | general/plotting/widgets.py:668-676 | Positioning passes its checks if and only if the range is set and the frame and all its children are `exact`, in that order; the first non-exact child is reported |
| WidgetPosition.Placed | general/plotting/widgets.py:678-738 | Each child gets its range and nothing else changes |
| WidgetPosition.PositionFrom | general/plotting/widgets.py:659-744 | The widget keeps the range it was given |
| WidgetPosition.Descend | general/plotting/widgets.py:742-744 | The recursive loop keeps the number of children |
| WidgetPosition.AlongExtent | general/plotting/widgets.py:713-715 | Each child's range is as long as its size |
| WidgetPosition.SpotExtent | general/plotting/widgets.py:678-738 | On either axis, every placed child's range is exactly as long as the child |
| WidgetPosition.AlongGap | general/plotting/widgets.py:700-716 | Neighbours are (out_i + out_{i+1})/2 plus the spare room per child apart |
| WidgetPosition.AlongFirst | general/plotting/widgets.py:703-713 | The first child starts half the spare room per child after the start point |
| WidgetPosition.CursorClosed | general/plotting/widgets.py:700-716 | Before child i, the start point has moved by the partial run total and i shares of the spare room |
| WidgetPosition.AlongLast | general/plotting/widgets.py:700-716 | With two or more children, the last ends at the start point plus the run total, (n − 1) shares of spare room and half a share |
| WidgetPosition.AlongSingle | general/plotting/widgets.py:700-716 | A single child ends half its outer buffer short of the run total (which counts that half buffer) |
| WidgetPosition.AlongLowEnd | general/plotting/widgets.py:682-695 | `leftOrDown` starts the first child at lo + inner/2; `spread` starts it half the spare room per child further on |
| WidgetPosition.AlongHighEnd | general/plotting/widgets.py:684-685 | `rightOrUp` ends a run of two or more at hi − inner/2; a single child stops half its outer buffer short of that |
| WidgetPosition.AlongCentred | general/plotting/widgets.py:686-687 | `centre` puts the middle of a run of two or more on the frame's midpoint; a single child sits a quarter of its outer buffer below it |
| WidgetPosition.AlongSpread | general/plotting/widgets.py:688-695 | `spread` ends the run at lo + size − inner/2 − half the spare room per child |
| WidgetPosition.CrossPlacement | general/plotting/widgets.py:718-738 | Across the axis each child keeps its length. `leftOrDown` starts every child at lo + inner/2, `rightOrUp` ends every child at hi − inner/2, and `centre` centres every child on the midpoint |
| WidgetPosition.DescendEach | general/plotting/widgets.py:742-744 | Each later child is positioned below with the range it was given, stopping at the first error, and earlier children are untouched |
| WidgetPosition.PositionPlaces | general/plotting/widgets.py:659-744 | On success every child holds its placed range and has been positioned below it |
| WidgetPosition.RangeFree | general/plotting/widgets.py:659-744 | A range written before positioning is overwritten by it |
| WidgetPosition.PositionErrors | general/plotting/widgets.py:665-676 | Positioning raises only its three check errors |
| WidgetPosition.PositionRanges | general/plotting/widgets.py:659-744 | After a successful positioning from a set range, every widget below has its range on the axis |
| WidgetPosition.PositionExact | general/plotting/widgets.py:671-676 | A successful positioning found every widget below `exact` |
| WidgetPosition.PositionKeeps | general/plotting/widgets.py:659-744 | Positioning writes ranges on the axis and changes nothing else anywhere in the tree |
| WidgetPosition.PositionChildren | general/plotting/widgets.py:659-744 | The recursive method equals the positioning specification |
| WidgetPosition.PlaceAlong | general/plotting/widgets.py:678-716 | The along-axis code equals the placement |
| WidgetPosition.PlaceRun | general/plotting/widgets.py:700-716 | The loop with its running `startPoint` gives each child its range |
| WidgetPosition.PlaceAcross | general/plotting/widgets.py:718-738 | The three cross loops equal the placement |
| WidgetPosition.PositionEach | general/plotting/widgets.py:742-744 | The recursive loop equals its specification |
| WidgetGui.BufferAxisSets | general/plotting/widgets.py:1044-1047 | The buffer step on an axis sets every buffer on it, the GUI's own included, from the GUI's size on that axis, and changes nothing else |
| WidgetGui.SizeAxisRoot | general/plotting/widgets.py:1052-1059 | The sizing step raises exactly when sizing the tree does. Otherwise a `shrinkToFit` GUI becomes `exact` at inner + the children's total, any other GUI keeps its demand and size, the range is [0, size], and the other axis is untouched |
| WidgetGui.SizeAxisSettles | general/plotting/widgets.py:1052-1059 | A GUI that is not `expandToFit` on an axis, once sized without error, is `exact` on it with range [0, size] |
| WidgetGui.SetUpKeeps | general/plotting/widgets.py:1041-1066 | Setting up never adds, drops, renames or re-enables a widget, and never makes one `expandToFit` |
| WidgetGui.SizesSettleRoot | general/plotting/widgets.py:1052-1059 | A GUI that sizes without error on both axes is `exact` on both, with range [0, size] |
| WidgetGui.PositionedSettles | general/plotting/widgets.py:1065-1066 | Positioning keeps the GUI's own layout; on success every widget below has a range and is `exact` |
| WidgetGui.PositionsSettle | general/plotting/widgets.py:1065-1066 | The same holds over both axes |
| WidgetGui.SetUpSettles | general/plotting/widgets.py:1041-1066 | A successful set-up leaves the GUI `exact` on both axes with range [0, size], and every widget below it `exact` with a range on both axes |
| WidgetGui.PositionsErrors | general/plotting/widgets.py:1065-1066 | Positioning raises only positioning's errors |
| WidgetGui.GuiRootRegistered | general/plotting/widgets.py:1018-1034 | A new GUI holds no names and keeps the class invariant |
| WidgetGui.AttachRegistered | general/plotting/widgets.py:209-251 | An accepted widget, once attached, keeps the invariant with its name registered, and keeps the demand rules |
| WidgetGui.SetUpRegistered | general/plotting/widgets.py:1041-1066 | Setting up keeps the invariant, whether it succeeds or not |
| WidgetGui.SetBuffers | general/plotting/widgets.py:1044-1047 | The first loop equals the buffer steps on both axes |
| WidgetGui.SizeTree | general/plotting/widgets.py:1052-1059 | The second loop equals the sizing steps, stopping at the first error |
| WidgetGui.PositionTree | general/plotting/widgets.py:1065-1066 | The third loop equals the positioning steps, stopping at the first error |
| WidgetGui.Gui.Init | general/plotting/widgets.py:1032-1034 | A new GUI holds its root, an empty `_widgetDict`, and is not set up |
| WidgetGui.Gui.New | general/plotting/widgets.py:1006-1034 | `GUI.__init__` fails exactly when the GUI frame's checks fail, with the same error |
| WidgetGui.Gui.AddWidget | general/plotting/widgets.py:202-251 | A widget is accepted exactly when every check passes. It is then attached under its parent and its name registered; a refused widget leaves the GUI unchanged; the demand rules are kept |
| WidgetGui.Gui.DoSetUp | general/plotting/widgets.py:1041-1075 | The tree is replaced as the three loops leave it; `isSetUp` becomes true on success; the registered names are kept |
| HuePoints.CheckHue | general/plotting/colourmap.py:77-89 | A hue in [0, 1] passes unchanged; any other is refused, or, with `force`, becomes the nearest value in [0, 1] |
| HuePoints.CheckCi | general/plotting/colourmap.py:57-74 | A ci between its neighbours passes unchanged. One below the previous is refused first, then one above the next; with `force` it becomes the nearest value in between |
| HuePoints.Inserted | general/plotting/colourmap.py:92-102 | Insertion succeeds if and only if 1 ≤ i ≤ N − 1 and, unless forced, the point fits between its neighbours with a hue in [0, 1]. The list grows by one and the others keep their order. Element i is the given point when not forced; when forced it has the ci clamped between its neighbours and the hue clamped to [0, 1] |
| HuePoints.Deleted | general/plotting/colourmap.py:105-112 | Deletion succeeds exactly for 1 ≤ i ≤ N − 2, removes element i, and keeps the rest in order |
| HuePoints.DeletedAsWritten | general/plotting/colourmap.py:105-112 | As written, deletion succeeds for the same indices and gives the same list, but fails differently on the last index |
| HuePoints.DeleteLastAsWritten | general/plotting/colourmap.py:108-111 | As written, the last index gets past the guard and fails in the `pop`; the corrected guard refuses it as the last element |
| HuePoints.Changed | general/plotting/colourmap.py:131-144 | Setting succeeds exactly for 0 ≤ i ≤ N − 1 and changes only element i. Its hue is clamped to [0, 1]; an endpoint keeps its ci; an interior point takes the given ci clamped between its neighbours' |
| HuePoints.InsertTuple | general/plotting/colourmap.py:92-96 | `insert` reports a bad index before it unpacks its tuple; a missing tuple fails only at an index that passed the guard; a present one gives the insertion |
| HuePoints.ChangeTuple | general/plotting/colourmap.py:131-135 | `__setitem__` reports a bad index before it unpacks its tuple; a missing tuple fails only at an index that passed the guard; a present one gives the change |
| HuePoints.InsertedWellFormed | general/plotting/colourmap.py:92-102 | Insertion keeps the class rules: endpoints at ci 0 and 1, ci non-descending, hues in [0, 1] |
| HuePoints.DeletedWellFormed | general/plotting/colourmap.py:105-112 | Deletion keeps the class rules |
| HuePoints.ChangedWellFormed | general/plotting/colourmap.py:131-144 | Setting keeps the class rules |
| HuePoints.DeleteAfterInsert | general/plotting/colourmap.py:92-112 | Deleting the point just inserted gives the list back |
| HuePoints.InsertAfterDelete | general/plotting/colourmap.py:92-112 | Re-inserting a deleted point, unforced, where it was gives the list back |
| HuePoints.ChangeRestores | general/plotting/colourmap.py:131-144 | Setting a point back to its old value gives the list back |
| HuePoints.ClampUnit | general/plotting/colourmap.py:157-162 | The argument is clamped to the nearest value in [0, 1] |
| HuePoints.SegmentFrom | general/plotting/colourmap.py:164-169 | The downward search finds the largest index whose ci is at most x, or 0 |
| HuePoints.SegmentBrackets | general/plotting/colourmap.py:164-172 | The chosen segment holds x; it is degenerate only when it is the last one, ends at ci 1, and x is 1 |
| HuePoints.LerpBetween | general/plotting/colourmap.py:174 | On a non-degenerate segment the interpolated hue lies between the segment's two hues |
| HuePoints.InterpolateAsWritten | general/plotting/colourmap.py:156-176 | As written, the only failure is the division by zero |
| HuePoints.InterpolateBetween | general/plotting/colourmap.py:156-176 | The interpolated hue lies between the hues of the segment holding the clamped argument, hence in [0, 1] |
| HuePoints.InterpolateFails | general/plotting/colourmap.py:164-176 | As written, interpolation fails exactly when the clamped argument is 1 and the last interior point sits at ci 1; otherwise it agrees with the corrected version |
| HuePoints.DivisionByZeroExample | general/plotting/colourmap.py:156-176 | A graph reached by one ordinary insert, on which interpolating at 1 divides by zero as written |
| HueGraphs.HueGraph.Init | general/plotting/colourmap.py:51-54 | A new graph has exactly the two points (0, firstH) and (1, lastH) |
| HueGraphs.HueGraph.New | general/plotting/colourmap.py:45-54 | Construction succeeds exactly when both endpoint hues lie in [0, 1]; firstH is checked first |
| HueGraphs.HueGraph.Get | general/plotting/colourmap.py:115-128 | A negative index counts from the end; an index out of range fails; the endpoints always report ci 0 and 1 |
| HueGraphs.HueGraph.Insert | general/plotting/colourmap.py:92-102 | The index is checked before the tuple is unpacked; the points become the inserted list, or stay as they were on an error; the invariant and the point count are kept |
| HueGraphs.HueGraph.Delete | general/plotting/colourmap.py:105-112 | The points become the deleted list, or stay as they were on an error; the invariant and the point count are kept |
| HueGraphs.HueGraph.SetItem | general/plotting/colourmap.py:131-144 | The index is checked before the tuple is unpacked; the points become the changed list, or stay as they were on an error; the point count is unchanged |
| HueGraphs.HueGraph.UnpackValues | general/plotting/colourmap.py:147-153 | The two lists hold every point's ci and hue, in order |
| HueGraphs.HueGraph.Interpolate | general/plotting/colourmap.py:156-176 | The loop finds the segment and returns the corrected interpolation, which lies in [0, 1] |
| HueGraphs.HueGraph.Copy | general/plotting/colourmap.py:179-183 | A fresh graph with the same points |
| ActionHistories.NewAction | general/plotting/colourmap.py:186-201 | An action is built if and only if its type string is `insert`, `delete` or `change`, and it keeps every field |
| ActionHistories.InsertAction | general/plotting/colourmap.py:204-207 | An insert records only the new point |
| ActionHistories.DeleteAction | general/plotting/colourmap.py:210-213 | A delete records only the old point |
| ActionHistories.ChangeAction | general/plotting/colourmap.py:216-219 | A change records both points |
| ActionHistories.ActionHistory.Init | general/plotting/colourmap.py:229-232 | A new history is empty, with both counters at 0 |
| ActionHistories.ActionHistory.Append | general/plotting/colourmap.py:235-251 | The redo tail is dropped and the action is appended; numUndoable grows by one and numRedoable becomes 0; undoable + redoable = length is kept |
| ActionHistories.ActionHistory.GetLast | general/plotting/colourmap.py:259-276 | With nothing to undo it returns None and changes nothing; otherwise it returns the last done action and moves it to the redo side |
| ActionHistories.ActionHistory.GetNext | general/plotting/colourmap.py:279-296 | With nothing to redo it returns None and changes nothing; otherwise it returns the first undone action and moves it to the undo side |
| ActionHistories.LastThenNext | general/plotting/colourmap.py:259-296 | `getNext` right after `getLast` returns the same action and restores the history |
| ActionHistories.NextThenLast | general/plotting/colourmap.py:259-296 | `getLast` right after `getNext` returns the same action and restores the history |
| ColourMaps.HueIndex | general/plotting/colourmap.py:324-338 | The graph index is a Python list index, so a negative value counts from the end and any other value fails |
| ColourMaps.MissingTupleAfterGuard | general/plotting/colourmap.py:323-338 | An undo of a delete or a change with no old point reports a bad index, when the index is bad, before the missing point |
| ColourMaps.BadIndexBeforeMissingTuple | general/plotting/colourmap.py:323-329 | Undoing `_Action(0, 99, 'delete', None, None)` or its `change` twin on a new graph fails for the index 99, as the source raises |
| ColourMaps.UndoRestores | general/plotting/colourmap.py:323-338 | Undoing an action that records how a graph was reached gives the graph back as it was before the action |
| ColourMaps.RedoAfterUndoDelete | general/plotting/colourmap.py:323-338 | Redoing a delete right after undoing it gives the graph back |
| ColourMaps.RedoAfterUndoInsert | general/plotting/colourmap.py:323-338 | Redoing an insert right after undoing it gives the graph back |
| ColourMaps.ColourMap.Init | general/plotting/colourmap.py:309-320 | Each colour gets its own graph from its default endpoint hues, and the history starts empty |
| ColourMaps.ColourMap.Undo | general/plotting/colourmap.py:323-329 | The named graph becomes the undone list (an insert deleted, a delete re-inserted, a change set back), or stays as it was on an error; every other graph is unchanged |
| ColourMaps.ColourMap.Redo | general/plotting/colourmap.py:332-338 | The named graph becomes the redone list, or stays as it was on an error; every other graph is unchanged |

## Left out

- Drawing, the plotting back end and the event loop are not modelled, because they are foreign calls and user callbacks. This covers `GUI.__call__`, mouse-click routing, enable/disable, draw, the plotter set-up, `checkColoursChildren`, `userInitialFunction` and the plotter argument of `GUI.__init__`.
- Debug printing and the printing test at the end of `widgeometry.py` are not modelled, because they only print; the one sum that test computes is `GeometryBuild.SetWorldExample`.
- Colour-map file I/O, the other `ColourMap` methods and the colour-map application script are not modelled, because they are I/O and GUI wiring.
- `fracVal` is not modelled: over reals it is a plain linear interpolation. The exception classes module is not part of this model; failures are error datatypes.
- The `ranges` module is not part of this model. `SimpleRange` is the value `Range(lo, hi)`, and a missing range is `None` of an `Option`.
- In-place updates are modelled on values. The widget trees are datatypes, and each walk returns the rewritten tree. Aliasing between widgets and parent back-references are not captured; a parent is a path of child indices.
- `Buffer.copy` and `WidgetSize.copy` are not modelled, because a datatype value is already a copy.
- Floating point is not modelled: extents, buffers, ci values and hues are exact reals.
- `None` sizes and buffers in `widgets.py` are modelled as they are used. A widget's missing size is the `Option` in `Size`, and buffers not yet set are 0.0 until `setBuffersForChildren` sets them. A non-Frame widget is a node without children: every walk returns at once for it, as the source does for a childless frame.
- In `widgets.py`, `isTransparent`, the colours and the callback function are not modelled, because no layout rule reads them.
- WidgetFit.TotalSize: the recursion takes a fuel bound, and running out gives the model-only error `FuelExhausted`. The methods are proved never to return it when the fuel is the widget count, so it is never observable.
- HueGraphs.HueGraph.UnpackValues: returns two sequences of reals, not numpy arrays.
- ColourMaps.ColourMap.Undo: a missing point, unpacked by `insert` or `__setitem__` after their index guards, fails with `MissingTuple`, which stands for Python's failure to unpack `None`.
- HuePoints.InterpolateHue has no contract of its own; what it yields is stated by `HuePoints.InterpolateBetween` and `HuePoints.InterpolateFails`.
- GeometrySolver.CalcRangesResolves: does not promise that every child lies inside its parent's range (widgeometry.py:505-507), because the code as written does not keep it. `_checkSizeChildren` returns at once at a frame that is not `exact` (lines 214-216), so the exact children of a frame that is later shrunk or expanded are never compared with the extent that frame receives. `GeometrySolver.CalcRangesBreaksContainment` gives an input on which `calcRanges` passes and places a child outside its parent.
- WidgetBuild.NamesAsWritten: the half-built frame that the source also appends to its parent before raising is not modelled.

## Findings

| source | as written | input that shows it | evidently intended | confidence | as-written member | corrected member |
|---|---|---|---|---|---|---|
| general/plotting/widgets.py:431-435 | `_Widget.__init__` (lines 209-246) appends the widget and registers its name in `_widgetDict` before `Frame.__init__` checks the justifications | a GUI, then a Frame `f` with `alongJustify='middle'` (refused), then the same Frame with `'spread'` | a refused widget leaves the GUI unchanged, so the corrected frame is accepted | not executed | WidgetBuild.NamesAsWritten, WidgetBuild.RetryRefusedAsWritten | WidgetGui.Gui.AddWidget, WidgetBuild.RetryAccepted |
| general/plotting/colourmap.py:108-111 | the guard against deleting the last element is `elementI > numPoints-1`, so `elementI = numPoints-1` passes it and the `pop(elementI-1)` on the interior list fails | `delete(1)` on a new graph (two points) | the last element is refused by the guard (`elementI > numPoints-2`) | not executed | HuePoints.DeletedAsWritten, HuePoints.DeleteLastAsWritten | HuePoints.Deleted, HueGraphs.HueGraph.Delete |
| general/plotting/colourmap.py:164-174 | `interpolate` divides by `c1 - c0` of the chosen segment, which is 0 when the last interior point sits at ci 1 and x is 1 | points (0, 0), (1, 0.5), (1, 1), reached by `insert(1, (1, 0.5))`, then `interpolate(1.0)` | a degenerate segment yields the hue at its end | not executed | HuePoints.InterpolateAsWritten, HuePoints.DivisionByZeroExample, HuePoints.InterpolateFails | HuePoints.InterpolateBetween, HueGraphs.HueGraph.Interpolate |
