# enigma2: rendering, event loop, recordings, threads and decoders, verified

A Dafny model of five groups of code of the enigma2 set-top box software, with proofs of what
that code is for.

* **Scanline rasteriser** (`Bezier`, `Outline`, `FilledShape`, `StrokeShape`, `Winding`, `Coverage`,
  `Sweep`, `Columns`, `Gradient`, `Blend`, `Rasterizer`).  Curves are halved until flat, shapes and strokes become oriented edges, a table of
  edges sorted by y is swept by an active list that is advanced, re-sorted and extended on every
  sub-scanline, spans add coverage to the bytes of a row, and rows are blended with solid or gradient
  paint.  The chain of results runs from the outline to the finished pixel: outlines close, so the
  walk over the active list closes on every sub-scanline under either fill rule; hence the spans are
  disjoint and are exactly the inside columns; hence no coverage byte wraps around; hence every pixel
  is blended once with its own coverage and stays premultiplied, and the straight image is defringed
  as if all at once.  A second chain says where: polygons lie on their paths, strokes beside theirs,
  and a column of a sub-scanline is drawn if and only if the outline winds around the point it shows,
  unless an edge is nearer than its fixed-point steps may have drifted.
* **Event loop** (`Timespec`, `Schedule`, `Timers`, `Dispatch`, `Notifiers`).  `Schedule` and
  `Dispatch` say on values what a pass of the loop does, for callbacks that are arbitrary lists of
  operations; `Timers` and `Notifiers` are the objects whose methods are tied to them.
* **Recordings** (`Recording`, `RawFile`, `CachedSource`, `IoBuffer`).  A reader indexes the parts of
  a recording that another process is still writing.  What the reader does not control - the
  recording at the moment of each system call, which calls fail, how much a read brings - is a
  parameter that every contract holds for.
* **Concurrency** (`MessagePump`, `Semaphore`, `ThreadHandshake`).  State machines whose steps are the
  accesses of single threads to what they share; the results are about every interleaving.
* **Decoders and text** (`FreesatHuffman`, `HuffmanTrie`, `Utf8Text`).

## Where the code does less than it promises

* `eThread` promises that a start after the thread has finished is safe.  It is not: `runAsync` clears
  `m_started` while the old worker may still be on its way to the test of it in `thread_completed`.
  `ThreadHandshake.LateStartBreaks` is the interleaving, `ThreadHandshake.StartIsSafeIff` the exact
  condition, and joining first (`the_thread` is 0) is the rule a caller can follow.
  `ThreadHandshake.AtWorkIsReachable` is an ordinary run to a state where it fails.
* A periodic timer started with 0 or a negative count keeps the ready loop going for ever
  (`Schedule.StartedForGood`).  `Schedule.PassEndsIffPositive` is the exact condition after any
  operations; `Schedule.PassEndsIffNoneLasts` holds for any fields of the timers, even due times that
  negative counts have left not normal (`Timespec.AddMsIsExact` says exactly when they do).
* `timespec + long` carries a millisecond where a second is due (`Timespec.PlusMsIsExactIff`,
  `Timespec.PlusMsCarriesWrong`).
* After `fromfile` has met the end of its input `eIOBuffer::empty` can be false although there are no
  bytes.  `IoBuffer.EndOfInput` is such a call, `IoBuffer.EmptyIsWrongIff`, `IoBuffer.HollowIff` and
  `IoBuffer.EmptyWrongAfterReading` are the exact conditions.
* The freesat decoder stops at 32 zero bits.  `FreesatHuffman.TextCutShort` is a text that this cuts
  short, `FreesatHuffman.WholeTextIff` says exactly when it does not.
* `replace_all` for UTF-8 does not end if and only if stepping over the input comes to a byte that
  begins no character (`Utf8Text.SpinsIffStuck`), and can differ from the default path if and only if
  it steps over the beginning of the entity (`Utf8Text.AgreeIff`); `Utf8Text.NotUTF8` has an input for
  either.  Neither path ends for an empty entity (`Utf8Text.ReplaceByChar`, `Utf8Text.ReplaceByByte`).
* The defringing loop never looks at column 0 for a left neighbour nor at row 0 for an upper one
  (`x-1 > 0`, `y-1 > 0`).  `Blend.AllNeighboursIff` says exactly which pixels miss a visible neighbour
  by it, `Blend.MissedNeighbour` is a picture with one.

## Conventions

`Basics` and `Bytes` hold what several modules share.  Bytes are integers from 0 to 255; shifts and masks by constants are written as divisions and
remainders, except in `FreesatHuffman`, where the register is a 32 bit vector.  Coordinates are exact
reals, fixed-point positions are integers.  `ActiveEdge.src` and the notifiers' `epoch` are
bookkeeping that the program does not store: which edge an active entry came from, and how often a
notifier has been started or stopped.  Methods with several places where the program calls the
operating system take a function that gives the answer of the k-th call.

## Model

| member | source | states |
|---|---|---|
| Gradient.InsertStopAt | include/nanosvg.h:2775-2789 | a parsed stop goes in front of the first stop with a larger offset: when that one is at k, the list is its first k stops, the new one and the others |
| Gradient.ParsedStopsSortedAndStable | include/nanosvg.h:2770-2790 | over any sequence of stop elements the list is sorted by offset, and stops with equal offsets keep the order in which they were parsed |
| Gradient.GradientData.AddStop | include/nanosvg.h:2770-2790 | growing the array and shifting its tail in place performs exactly that insertion |
| Gradient.ApplyOpacity | include/nanosvgrast.h:987-995 | opacity never raises alpha; 1 or more leaves the colour as it is, 0 or less makes it transparent |
| Gradient.OpacityScalesAlpha | include/nanosvgrast.h:987-995 | an opacity between 0 and 1 scales alpha, up to two steps lost in rounding, and changes no colour |
| Gradient.Mix | include/nanosvgrast.h:977-985 | the fixed-point blend of two channels stays between them and meets both ends exactly |
| Gradient.EveryEntryWrittenOnce | include/nanosvgrast.h:1364-1397 | for sorted stops the three fill loops together write each of the 256 entries exactly once and no other index |
| Gradient.IndexIs | include/nanosvgrast.h:1369-1378 | a stop at an offset between 0 and 1 belongs at its whole 255ths, one outside at that end of the ramp |
| Gradient.RampIsLinear | include/nanosvgrast.h:1379-1394 | between two stops every channel of the ramp goes straight from the first stop's to the second's: after j of count steps it is their weighted mean, up to two steps lost in rounding |
| Gradient.RampEnds | include/nanosvgrast.h:1364-1397 | before the first stop the ramp has that stop's colour, from the last one on the last's |
| Gradient.RampStaysBetweenStops | include/nanosvgrast.h:1379-1394 | inside an interval every channel of the ramp stays between its two stops, and the ramp starts an interval with its stop's colour |
| Gradient.FillRamp | include/nanosvgrast.h:1364-1397 | the loops fill the cache with the ramp, entry by entry and in ascending order, each written once |
| Gradient.FillInterval | include/nanosvgrast.h:1379-1394 | the inner loop writes one interval, its accumulated u being the exact share of the way |
| Blend.Div255IsExact | include/nanosvgrast.h:997-1000 | the shift formula is x / 255 on the whole range of a product of two bytes |
| Blend.Mul255 | include/nanosvgrast.h:997-1000 | the scaled product of two bytes is the product divided by 255, rounded down, and at most either factor |
| Blend.OverChannel | include/nanosvgrast.h:1015-1031 | the blended channel is the sum of the two shares, which never exceeds a byte, so the cast loses nothing |
| Blend.OverKeepsPremultiplied | include/nanosvgrast.h:1015-1031 | blending keeps every colour channel at most alpha |
| Blend.OverExtremes | include/nanosvgrast.h:1015-1031 | no coverage leaves a pixel alone; full coverage by an opaque colour replaces it |
| Blend.OverIsBlend | include/nanosvgrast.h:1015-1031 | every channel, and alpha, becomes the colour's blended over the pixel's by coverage times alpha out of 65025, up to three steps lost in rounding |
| Blend.LastIsOnTop | include/nanosvgrast.h:1002-1130 | draws are made in order on a transparent pixel: an opaque colour with full coverage hides what was drawn before |
| Blend.DrawnPixelsArePremultiplied | include/nanosvgrast.h:1002-1130 | from cleared pixels, after any number of blends every colour channel is at most alpha |
| Blend.CachedPaint.InitColor | include/nanosvgrast.h:1346-1349 | the cache of a plain paint holds its colour with the opacity applied |
| Blend.CachedPaint.InitGradient | include/nanosvgrast.h:1351-1397 | the cache of a gradient of two or more stops holds the ramp in all 256 entries |
| Blend.RootIndex | include/nanosvgrast.h:1099-1100 | the ramp index of a radial gradient is the whole part of 255 times the root, capped: bounded from both sides by squares |
| Blend.IndexIsByPosition | include/nanosvgrast.h:1045-1104 | a linear gradient takes the whole 255ths of the transformed y, a radial one of the distance from the transformed origin, both cut off at the ends of the ramp |
| Blend.PaintIsByPosition | include/nanosvgrast.h:1002-1130 | a pixel takes the colour of the user's point (fx, fy) for which fx * sx + tx and fy * sy + ty are the pixel's coordinates |
| Blend.ScanlineSolid | include/nanosvgrast.h:1002-1130 | blends exactly the pixels of one run of a row, each with its own coverage and the paint's colour at its own point; the incremental x is the point's x |
| Blend.StraightIsInverse | include/nanosvgrast.h:1224-1236 | the straight colour, multiplied by alpha again, gives the stored channel or one less |
| Blend.Unpremultiply | include/nanosvgrast.h:1224-1236 | every pixel of a premultiplied bitmap becomes straight; the division never exceeds 255 |
| Blend.DefringePixel | include/nanosvgrast.h:1243-1273 | one pixel of the second loop: an invisible pixel takes the mean colour of its visible neighbours, except a left one in column 0 or an upper one in row 0 |
| Blend.Defringe | include/nanosvgrast.h:1238-1277 | although the second loop works in place, every pixel ends as if all had been computed at once from the original |
| Blend.DefringedKeepsVisible | include/nanosvgrast.h:1238-1277 | defringing changes neither a visible pixel nor any alpha |
| Blend.FourNeighbours | include/nanosvgrast.h:1244-1265 | with all four neighbours the sum has the number of the visible ones and the total of each of their channels |
| Blend.AverageIs | include/nanosvgrast.h:1266-1272 | each channel of a defringed pixel is the mean of that channel over those summed, rounded down |
| Blend.AllNeighboursIff | include/nanosvgrast.h:1238-1277 | the sum of the neighbours' colours is that of all visible ones if and only if not (x is 1 and the pixel at the left end of the row is visible) and not (y is 1 and the pixel at the top of the column is visible); then the pixel is the one it should be |
| Blend.MissedNeighbour | include/nanosvgrast.h:1244-1258 | two pixels in a row, the first grey and the second invisible: the second stays black although its only neighbour is visible |
| Bezier.HalvesAreParts | include/nanosvgrast.h:355-383 | the midpoint construction splits a part of a cubic into its two parts at the middle parameter |
| Bezier.EvalIsBernstein | include/nanosvgrast.h:355-383 | the curve whose halves these are is the Bezier curve of the four control points, in both coordinates |
| Bezier.FlatCurveIsNearItsChord | include/nanosvgrast.h:364-372 | a cubic that passes the flatness test stays nearer than the root of the tolerance to the line through its ends, at every parameter |
| Bezier.FlatTestIs | include/nanosvgrast.h:364-372 | the test compares the squared sum of the two middle control points' distances from the chord, times its length, with the tolerance times its squared length |
| Bezier.ParamsIncrease | include/nanosvgrast.h:344-384 | the end parameters of the emitted pieces strictly increase and there are no more than the width allows |
| Bezier.PointsLieOnCurve | include/nanosvgrast.h:344-384 | every point the recursion appends is the original curve at the end parameter of its piece |
| Bezier.FlatteningKeepsMeaning | include/nanosvgrast.h:344-384 | all appended points are the original cubic at strictly increasing multiples of 1/1024, at most 1024 of them |
| Bezier.FlattenedIsNear | include/nanosvgrast.h:344-384 | when no piece had to be dropped at the tenth halving, the points end with the curve's end, and between any two in a row the curve stays near the line through them |
| Outline.EdgesCrossLikeSegments | include/nanosvgrast.h:296-329 | storing an edge top to bottom with a direction, and dropping horizontal ones, keeps the net crossing of every height |
| Winding.EdgesWindLikeSegments | include/nanosvgrast.h:296-329 | and how often the segments wind around any point |
| Outline.FlatPathPoints | include/nanosvgrast.h:248-384 | the points handed to addPathPoint match the exact subdivision, and just the curve's end is marked as the corner it is |
| FilledShape.PolygonIsOnPath | include/nanosvgrast.h:386-405 | every vertex of the polygon that is filled is the scaled start of the path or, by its Bernstein form, a point of one of its scaled curves |
| FilledShape.CurveIs | include/nanosvgrast.h:393-396 | curve k is that of the scaled points 3k to 3k + 3 |
| FilledShape.PolygonKeepsPath | include/nanosvgrast.h:386-405 | every flattened point of every curve is a vertex or nearer to one than the distance tolerance, vertices in a row are not that near, and the first is the start |
| FilledShape.AddPointIs | include/nanosvgrast.h:248-271 | a point nearer than the tolerance to the last one is left out and its flag merged, any other is appended, and none moves |
| FilledShape.PolygonSides | include/nanosvgrast.h:401-403 | side i of the polygon runs from vertex i - 1 to vertex i, the first from the last |
| Outline.ShapesClose | include/nanosvgrast.h:386-405 | for any paths, the directions of the edges of a filled shape cancel at every height |
| Outline.CapDivs | include/nanosvgrast.h:614-620 | a half circle gets the divisions it asks for, and at least two |
| StrokeShape.CapEnds | include/nanosvgrast.h:428-466 | a butt cap runs straight across its end point and a square cap half a width beyond it, from half a width on the left to half a width on the right |
| StrokeShape.RoundCapPoints | include/nanosvgrast.h:468-502 | point k of a round cap lies half a width times the cosine across from its end point and half a width times the sine beyond it |
| StrokeShape.BevelCorners | include/nanosvgrast.h:504-522 | a bevel runs from beside the point in the old direction to beside it in the new one, half a width out on either side |
| StrokeShape.MiterCorners | include/nanosvgrast.h:524-558 | a miter bevels one side like that, by the turning direction, and on the other meets half a width of the extrusion |
| StrokeShape.StraightCorners | include/nanosvgrast.h:601-612 | a straight join meets half a width of the extrusion on both sides |
| StrokeShape.TurnDivsIs | include/nanosvgrast.h:560-583 | a round join takes the steps its angle asks for, at least two and no more than half a circle |
| StrokeShape.RoundCorners | include/nanosvgrast.h:560-599 | step k of a round join takes the left and the right side to the opposite points of its arc at half a width, each from where the step before left it |
| StrokeShape.EachJoinIsDone | include/nanosvgrast.h:622-691 | a stroke's joins come one after the other, each from the rails the one before has left and from the point before |
| StrokeShape.ClosedStartIsBeside | include/nanosvgrast.h:414-426 | a closed stroke starts on both sides of the middle of its last segment |
| StrokeShape.LineCoversItsStrip | include/nanosvgrast.h:622-691 | the outline of a straight line with butt or square caps, in any direction, winds once around exactly the points within half a width of it and between its ends, or half a width beyond them with square caps |
| Outline.StrokesClose | include/nanosvgrast.h:428-691 | for an open or closed outline with any mix of caps and joins, the directions of the stroke's edges cancel at every height |
| Outline.PlacementKeepsBalance | include/nanosvgrast.h:1439-1446 | scaling and translating the edges keeps the outline closed |
| Winding.PlacedWinds | include/nanosvgrast.h:1439-1446 | and winds around the point moved by tx and ty and with five times its height as the outline did around the point |
| Outline.CrossSumPermuted | include/nanosvgrast.h:1448-1450 | the net crossing of a height does not depend on the order in which the sort leaves the edges |
| Coverage.BalancedCloses | include/nanosvgrast.h:936-968 | when the directions on a list cancel, both the non-zero and the even-odd walk end with w equal to 0 |
| Coverage.SpansAreInside | include/nanosvgrast.h:936-968 | over any sorted list the drawn spans never overlap, a drawn column is inside, and when the walk closes every inside column is drawn |
| Coverage.DrawnLengthIsInsideCount | include/nanosvgrast.h:936-968 | in any window the drawn length is at most the number of inside columns, and equal to it when the walk closes |
| Coverage.SubScanlineBound | include/nanosvgrast.h:906-968 | one sub-scanline adds at most maxWeight to a pixel, however many spans share it |
| Coverage.FullPixel | include/nanosvgrast.h:906-968 | a pixel that lies in one span receives exactly maxWeight |
| Coverage.WindowCoversWeight | include/nanosvgrast.h:906-968 | every pixel that receives weight lies in the window from xmin to xmax |
| Coverage.FillScanline | include/nanosvgrast.h:906-931 | adds each pixel's share of one span, modulo 256, clips at both ends of the row and widens the window |
| Coverage.FillActiveEdges | include/nanosvgrast.h:936-968 | one walk over the list adds the shares of all its spans, widens the window by them and leaves the final winding |
| Sweep.EntryAtStart | include/nanosvgrast.h:870-898 | an edge enters on the first sub-scanline that samples at or below its top, at the x of the line through its ends, rounded to a 1024th, with its end and direction |
| Sweep.EntryIsNearLine | include/nanosvgrast.h:870-898 | after n steps the fixed-point x is within (n + 1) / 2 units of 1024 times x0 + (x1 - x0) * (height - y0) / (y1 - y0), half a unit for each rounded step and for the rounded start |
| Sweep.RoundIs | include/nanosvgrast.h:882-889 | rounding goes to the nearest whole number, and from the middle away from zero |
| Sweep.RoundIsExact | include/nanosvgrast.h:1163-1204 | sorting the advanced list and inserting the starting edges gives the exact list of the next sub-scanline |
| Sweep.SweepIsExact | include/nanosvgrast.h:1140-1204 | at every sub-scanline of the sweep the active list is sorted by x and holds exactly the edges with y0 <= scany < y1, each once and at its own position |
| Sweep.TableIff | include/nanosvgrast.h:859-867 | the edge table is what sorting edges with y0 < y1 and a direction of 1 or -1 by y0 gives |
| Sweep.ActiveDirections | include/nanosvgrast.h:1140-1204 | the directions on the active list add up to the net crossing of the edge table at that height |
| Sweep.FillsClose | include/nanosvgrast.h:1140-1209 | over a balanced table in any sorted order, no sub-scanline leaves an open span under either rule |
| Sweep.RowWeightBound | include/nanosvgrast.h:1137-1209 | s sub-scanlines add at most s times maxWeight, so five of 51 stay within 255 |
| Sweep.FullyCovered | include/nanosvgrast.h:1137-1209 | a pixel inside a span on each of sub-scanlines 5y to 5y + 4 gets exactly 255 |
| Columns.InsideIffWound | include/nanosvgrast.h:1140-1209 | on any sub-scanline, a column clear of the live edges by their drift is inside if and only if the fill rule is for how often the edges wind around its point (q / 1024, n + 1/2) |
| Columns.OutlineIsDrawnWhereItWinds | include/nanosvgrast.h:1132-1218 | from the outline to its spans: placed and sorted in any way, it is drawn in such a column if and only if it winds, by the fill rule, around its own point (q / 1024 - tx, (n + 1/2) / 5 - ty) |
| Columns.LineIsDrawn | include/nanosvgrast.h:622-691 | so a straight line is drawn within half a width of it and nowhere else |
| Columns.PixelIsShare | include/nanosvgrast.h:906-968 | on one sub-scanline a pixel gets 51 for all of its 1024 columns, and for some their share, rounded down for each span |
| Columns.RowCoverIsFive | include/nanosvgrast.h:1140-1209 | the coverage of a pixel is that of sub-scanlines 5y to 5y + 4 |
| Columns.CoverIsShare | include/nanosvgrast.h:1132-1218 | the coverage byte is 255 times the share of the pixel's 5120 columns that are inside, rounded down for each span |
| Sweep.AdvanceList | include/nanosvgrast.h:1149-1161 | removing finished edges and advancing the others in one walk |
| Sweep.SwapRemovesInversion | include/nanosvgrast.h:1168-1175 | exchanging two neighbours out of order removes exactly one inversion, so the passes run out |
| Sweep.SwapKeepsSort | include/nanosvgrast.h:1168-1175 | such an exchange does not change what the list sorts to, stability included |
| Sweep.BubblePass | include/nanosvgrast.h:1165-1177 | one pass of exchanges keeps the sort, lowers the inversions when it changes something, and changes nothing only when the list is sorted |
| Sweep.Resort | include/nanosvgrast.h:1163-1179 | the passes end, with the stable sort of the list |
| Sweep.InsertPos | include/nanosvgrast.h:1186-1201 | a new edge goes to the front if and only if it lies left of the head; else everything before it but the head lies further left, and what follows it does not |
| Sweep.InsertOne | include/nanosvgrast.h:1184-1201 | the search along the list inserts a new edge at that place |
| Sweep.InsertStarted | include/nanosvgrast.h:1181-1204 | inserts the edges that have started, leaves out those that also end, and moves the table index past both |
| Rasterizer.Rasterizer.AddEdge | include/nanosvgrast.h:296-329 | appends the oriented edge of a segment, or nothing when it is horizontal |
| Rasterizer.Rasterizer.AddPathPoint | include/nanosvgrast.h:248-271 | appends a point, or merges its flags into an equal last one |
| Rasterizer.Rasterizer.FlattenCubicBez | include/nanosvgrast.h:344-384 | the recursion appends exactly the subdivision's points, in order |
| Rasterizer.Rasterizer.BuildEdges | include/nanosvgrast.h:401-403 | the loop over consecutive points, from the last to the first, gives the closed polygon's edges |
| Rasterizer.Rasterizer.FlattenShape | include/nanosvgrast.h:386-405 | the edges of a filled shape are those of its flattened closed paths, with tolerances 0.25 and 0.01 |
| Rasterizer.Rasterizer.AddCap | include/nanosvgrast.h:428-502 | butt, square and round caps add the cap line and, when asked, the two edges to the rails, and set the rails |
| Rasterizer.Rasterizer.AddArc | include/nanosvgrast.h:468-502 | the loop of the round cap adds its chain of points |
| Rasterizer.Rasterizer.AddBevel | include/nanosvgrast.h:504-522 | the edges of a bevel join, and the new rails |
| Rasterizer.Rasterizer.AddMiter | include/nanosvgrast.h:524-558 | the edges of a miter join for either turning direction, and the new rails |
| Rasterizer.Rasterizer.AddStraight | include/nanosvgrast.h:601-612 | the two edges of a straight join, and the new rails |
| Rasterizer.Rasterizer.AddRound | include/nanosvgrast.h:560-599 | the two chains of a round join, and the new rails |
| Rasterizer.Rasterizer.AddJoin | include/nanosvgrast.h:662-671 | the choice of join by the flags of the point and the line join |
| Rasterizer.Rasterizer.ExpandStroke | include/nanosvgrast.h:622-691 | the edges of a stroke are its start, all joins, and its end or closing edges |
| Rasterizer.Rasterizer.PlaceEdges | include/nanosvgrast.h:1439-1446 | the loop scales and translates every edge in place |
| Rasterizer.Rasterizer.UpdateActive | include/nanosvgrast.h:1149-1204 | the updates of one sub-scanline take the list and the table index to the next sweep state |
| Rasterizer.Rasterizer.FillLine | include/nanosvgrast.h:1206-1208 | drawing one sub-scanline advances the row's coverage without wrapping around |
| Rasterizer.Rasterizer.CoverRow | include/nanosvgrast.h:1140-1209 | the five sub-scanlines of a row give each pixel the sum of its weights, and the window holds every covered pixel |
| Rasterizer.Rasterizer.BlitRow | include/nanosvgrast.h:1210-1215 | clipping the window and blending it draws the whole row |
| Rasterizer.Rasterizer.RasterizeSortedEdges | include/nanosvgrast.h:1132-1218 | every pixel of the bitmap is blended once with its paint colour by its coverage, although only windows are touched |
| Rasterizer.Rasterizer.DrawLayer | include/nanosvgrast.h:1452-1455 | one fill or stroke: the paint is initialised, then the table drawn with it |
| Rasterizer.Rasterizer.Render | include/nanosvgrast.h:1425-1484 | after clearing and drawing the layers in order each pixel is the result of its own draws, and so premultiplied |
| Rasterizer.DrawsInOrder | include/nanosvgrast.h:1425-1484 | the draws of a pixel are those of the layers in order, each with its own colour and cover there |
| Rasterizer.Rasterizer.RasterizeFull | include/nanosvgrast.h:1403-1495 | every pixel of the finished image is the defringed one of the picture that the straight forms of those pixels make; a visible one is its own straight form, and every alpha is the drawn one |
| Rasterizer.OutlineIsFilledExactly | include/nanosvgrast.h:1132-1218 | a balanced outline, placed and sorted in any way, is drawn on every sub-scanline with no open span and exactly on its inside columns |
| Rasterizer.FilledShapesFillExactly | include/nanosvgrast.h:386-405 | so is the outline of every filled shape |
| Rasterizer.StrokesFillExactly | include/nanosvgrast.h:622-691 | so is the outline of every stroke, open or closed, with any caps and joins |
| Timespec.ComparisonIsByInstant | lib/base/ebase.h:26-34 | on normal values the two-field comparisons compare instants |
| Timespec.AddMsIsExact | lib/base/ebase.h:82-91 | adding milliseconds is exact for every count and every value; from a normal value the result is normal if and only if the nanoseconds do not fall below zero, which non-negative counts never make happen |
| Timespec.AddMovesOn | lib/base/ebase.h:82-91 | a positive count leads to a later time in the order of the two fields, even from a value that is not normal |
| Timespec.AddStays | lib/base/ebase.h:82-91 | a count that is not positive does not, unless a second is carried; and once it has not, it never does |
| Timespec.PlusMsIsExactIff | lib/base/ebase.h:93-103 | the other addition is the same if and only if no second is carried, and else 999 milliseconds too late |
| Timespec.PlusMsCarriesWrong | lib/base/ebase.h:93-103 | half a second and half a second |
| Timespec.AddNegativeMsNotNormal | lib/base/ebase.h:82-91 | a negative count can leave a value that is not normal |
| Timespec.SubMsIsExact | lib/base/ebase.h:117-126 | subtracting is exact for every count and every value; a non-negative count leaves a normal value normal |
| Timespec.SubUndoesAdd | lib/base/ebase.h:82-126 | from a normal value subtracting takes back adding, for every count |
| Timespec.DifferenceIsExact | lib/base/ebase.h:59-69 | the difference of two instants is normal and exact, and adding it back gives the first |
| Schedule.LowerBound | lib/base/eptrlist.h:157-162 | the insertion point: everything before it is due earlier, nothing from it on is |
| Schedule.AddFacts | lib/base/eptrlist.h:157-162 | inserting in order keeps the timer list sorted and free of duplicates |
| Schedule.DoKeepsValid | lib/base/ebase.cpp:48-122 | start, startLongTimer, stop and changeInterval keep the list equal to the active timers, sorted |
| Schedule.StartIsDue | lib/base/ebase.cpp:48-64 | a started timer runs and is due exactly max(msek, 0) milliseconds after the clock; its interval is msek |
| Schedule.StartLongIsDue | lib/base/ebase.cpp:66-82 | one started for seconds is a single-shot due exactly max(seconds, 0) seconds after the clock |
| Schedule.ChangeIsDue | lib/base/ebase.cpp:93-107 | changing the interval of a running timer moves its due time by exactly the difference, of a stopped one by the interval |
| Schedule.DoMovesOne | lib/base/ebase.cpp:48-107 | an operation on a timer neither moves nor changes another one |
| Schedule.PerformFacts | lib/base/ebase.cpp:109-122 | a callback that makes nothing due adds no work and leaves alone the timers it does not name |
| Schedule.HarmlessAre | lib/base/ebase.cpp:48-107 | such operations are every stop, and every start and change of interval by which the timer is due later than now |
| Schedule.RearmWork | lib/base/ebase.cpp:109-122 | each firing uses up exactly one unit of the work that is due |
| Schedule.ReadyPassOutcome | lib/base/ebase.cpp:184-202 | if no listed timer stays due for good the ready loop ends, fires in non-decreasing due time, and leaves a sorted list with nothing due |
| Schedule.ReadyPassCounts | lib/base/ebase.cpp:184-202 | a timer no callback touches fires once when it is a due single-shot, and the exact number of times when periodic; its fields afterwards are those of that many firings |
| Schedule.PeriodicCount | lib/base/ebase.cpp:184-202 | for a due periodic timer with a normal due time that number is floor((now - due) / interval) + 1 |
| Schedule.StartedFires | lib/base/ebase.cpp:48-202 | from start to signal: a timer started with msek >= 1 that no callback touches does not fire in a pass before clock + msek; from then on a single-shot fires once, a periodic timer floor((now - clock - msek) / msek) + 1 times |
| Schedule.SpinsForever | lib/base/ebase.cpp:193-202 | with a timer that stays due for good the loop is at it after any number of rounds |
| Schedule.LastingIff | lib/base/ebase.cpp:109-116 | a timer with a positive interval never stays due for good; one whose due time has fewer nanoseconds than a second does if and only if it is due, periodic and its interval is zero or negative |
| Schedule.PassEndsIffNoneLasts | lib/base/ebase.cpp:193-202 | with silent callbacks the ready loop ends if and only if no listed timer stays due for good, for any fields of the timers, normal due times or not |
| Schedule.DoKeepsInStep | lib/base/ebase.cpp:48-107 | no operation, with any count of milliseconds, leaves a due time with more nanoseconds than a second has and its interval has added |
| Schedule.PassEndsIffPositive | lib/base/ebase.cpp:48-202 | after any operations and firings whatever, the ready loop ends if and only if every due periodic timer has an interval of at least 1 |
| Schedule.StartedForGood | lib/base/ebase.cpp:48-64 | a periodic timer started with 0 or a negative count by a clock that is not beyond now keeps the loop from ending |
| Timers.Timer.Start | lib/base/ebase.cpp:48-64 | starting a timer, with any count, makes it due max(msek, 0) milliseconds after the clock, changes its fields and its place in the list, and nothing else |
| Timers.Timer.StartLongTimer | lib/base/ebase.cpp:66-82 | the same for a single-shot given in seconds |
| Timers.Timer.Stop | lib/base/ebase.cpp:84-91 | stopping takes the timer off the list |
| Timers.Timer.ChangeInterval | lib/base/ebase.cpp:93-107 | the due time moves by exactly the old interval back and the new one on, whatever their signs, and the timer to its new place |
| Timers.Timer.Activate | lib/base/ebase.cpp:109-122 | a periodic timer is due exactly one interval later and listed, a single-shot retired |
| Timers.Mainloop.AddTimer | lib/base/eptrlist.h:157-162 | the halving search and the insertion put the timer where the sorted list wants it |
| Timers.Mainloop.RemoveTimer | lib/base/ebase.cpp:88-89 | removing drops the timer's first occurrence from the list |
| Timers.Mainloop.FireOne | lib/base/ebase.cpp:193-199 | one round of the ready loop, callback included |
| Timers.Mainloop.ProcessReady | lib/base/ebase.cpp:184-202 | the loop over the objects ends and gives the outcome and the signals of the pass |
| Dispatch.DoFacts | lib/base/ebase.cpp:25-44 | every operation keeps the table equal to the running notifiers, and never puts one back among the polled ones |
| Dispatch.StopIs | lib/base/ebase.cpp:37-44 | a stop leaves the notifier in state 0 and out of the table, and everything else as it was |
| Dispatch.StartIs | lib/base/ebase.cpp:25-35 | a start leaves it in state 2 and in the table, with its interests and references; of the others it stops just a current one that nobody else holds |
| Dispatch.RecordsAre | lib/base/ebase.cpp:263-271 | asking for other events and holding a reference change that field, letting go counts down and stops the notifier with the last reference |
| Dispatch.BeforeFollows | lib/base/ebase.cpp:253-276 | the state at any position of the dispatch loop follows from the polled one |
| Dispatch.PolledIs | lib/base/ebase.cpp:225-235 | building the poll array leaves every running notifier in state 1 and touches nothing else |
| Dispatch.WakeIdle | lib/base/ebase.cpp:263-271 | an activation whose callback does nothing leaves everything as it was, and nobody current |
| Dispatch.HeldWhileWoken | lib/base/ebase.cpp:263-271 | the reference held around a callback keeps it from stopping its own notifier, as the current one that nobody else holds, by starting another |
| Dispatch.TurnWithoutWake | lib/base/ebase.cpp:257-276 | a position that wakes nobody changes no notifier and no entry |
| Dispatch.PolledOwner | lib/base/ebase.cpp:229-262 | what the table finds in state 1 under a polled descriptor is the notifier that was polled there, if and only if it has not been started or stopped since |
| Dispatch.WokenIsPolled | lib/base/ebase.cpp:257-272 | a reported descriptor wakes its polled notifier or nobody |
| Dispatch.CommonIsMost | lib/base/ebase.cpp:269-270 | the events of an activation are in the reported and in the requested ones, and all that is in both is in them |
| Dispatch.NoStaleActivation | lib/base/ebase.cpp:229-276 | whatever the callbacks start or stop, a notifier is activated exactly when it was polled, has not been started or stopped since and has events both reported and requested, with just those events |
| Dispatch.AtMostOnce | lib/base/ebase.cpp:253-276 | a notifier is activated at most once in a pass, so none that reuses the descriptor is woken by an old result |
| Notifiers.SocketNotifier.Start | lib/base/ebase.cpp:25-35 | a start stops a running notifier, enters it in the table and marks it running, not in poll |
| Notifiers.SocketNotifier.Stop | lib/base/ebase.cpp:37-44 | a stop takes a running notifier out of the table |
| Notifiers.SocketNotifier.Release | lib/base/ebase.cpp:266-268 | letting go of the last reference stops the notifier |
| Notifiers.Mainloop.AddSocketNotifier | lib/base/ebase.cpp:141-157 | entering first stops the current notifier when nobody else holds it |
| Notifiers.Mainloop.RemoveSocketNotifier | lib/base/ebase.cpp:159-171 | removes the entry of the notifier's descriptor |
| Notifiers.Mainloop.BuildPoll | lib/base/ebase.cpp:225-235 | the poll array lists the table's descriptors in ascending order, and every running notifier is marked as polled |
| Notifiers.Mainloop.WakeOne | lib/base/ebase.cpp:263-271 | one activation: a reference is held, the callback runs, the reference is let go, nobody is current |
| Notifiers.Mainloop.DispatchPass | lib/base/ebase.cpp:253-276 | the loop over the poll array gives the state and the signals of the pass |
| Recording.WriterRunGrows | lib/base/rawfile.cpp:135-136 | any run of a writer that appends to the last part and starts a part only when the one before is final leaves complete parts alone and shortens nothing |
| Recording.WriterMay | lib/base/rawfile.cpp:135-136 | a writer's action is to append any bytes to the last part, or to start the next one |
| Recording.LenStable | lib/base/rawfile.cpp:135-145 | the sum of the complete parts before an index is final, and no length ever shrinks |
| Recording.ReadIsSlice | lib/base/rawfile.cpp:85-96 | what a read call delivers from a part, however short, is a slice of the flat stream |
| Recording.Seen | lib/base/rawfile.cpp:129-130 | the reader sees a recording of up to 1000 parts whole, and the first 1000 of a longer one |
| RawFile.PartComplete | lib/base/rawfile.cpp:135-147 | a part with a successor is complete, so the offset recorded for the successor is the true final sum |
| RawFile.CoversAll | lib/base/rawfile.cpp:118-149 | when no successor exists the total covers everything that was there when the scan began |
| RawFile.SeenLength | lib/base/rawfile.cpp:129-134 | a missing successor means there were no more parts earlier either |
| RawFile.WithinPart | lib/base/rawfile.cpp:152-174 | an offset below the total lies inside the part that the offsets select, and below that part's known end |
| RawFile.EndReached | lib/base/rawfile.cpp:82-83 | an offset at or past the total right after a scan is past everything there was when the scan began |
| RawFile.RawFile.Open | lib/base/rawfile.cpp:28-49 | opening indexes the recording from its first part, or leaves the file closed |
| RawFile.RawFile.Scan | lib/base/rawfile.cpp:107-150 | interleaved with the writer, every offset is a final sum, the total never exceeds the bytes present nor shrinks, and a successful scan covers what was there at its start |
| RawFile.RawFile.ScanPart | lib/base/rawfile.cpp:118-149 | one turn of that loop: record the size, look for a successor, enter it |
| RawFile.RawFile.EnterPart | lib/base/rawfile.cpp:135-147 | a successor is entered only with the re-read final size of its predecessor |
| RawFile.RawFile.UpperBound | lib/base/rawfile.cpp:154 | the number of offsets that are not beyond the given one |
| RawFile.RawFile.SwitchOffset | lib/base/rawfile.cpp:152-174 | descriptor, position and last offset agree afterwards, in the part that holds the offset |
| RawFile.RawFile.ReadSome | lib/base/rawfile.cpp:85-97 | the system call, however short, delivers bytes of the flat stream at the offset and keeps position and last offset together |
| RawFile.RawFile.ReadTurn | lib/base/rawfile.cpp:75-98 | one turn of the read loop: scan at the known end, position, read, with the original's reasons to stop |
| RawFile.RawFile.Read | lib/base/rawfile.cpp:63-100 | delivers a slice of the flat stream; without system errors all that was asked for or all there was, and on a recording that does not grow exactly the available part; of the recording itself when it has at most 1000 parts |
| RawFile.Clip | lib/base/rawfile.cpp:73-73 | a request is cut only beyond 0x7FFFFFFFFFFFFFFF bytes |
| RawFile.RawFile.Length | lib/base/rawfile.cpp:193-197 | the length is the total of a fresh scan, between what was there before and what is there after, or -1, which without system errors it is not |
| CachedSource.CachedSource.Read | lib/base/cachedtssource.cpp:21-40 | for any sequence of reads the bytes delivered are those of the same flat stream at the offset; a read inside the cached block makes no system call, one of 32768 bytes or more leaves the cache alone, and any other fetches a block of 32768 bytes or up to the end |
| IoBuffer.IOBuffer.Size | lib/base/buffer.cpp:37-44 | the number of bytes in the queue |
| IoBuffer.IOBuffer.Peek | lib/base/buffer.cpp:51-74 | a copy of the first bytes of the queue, across blocks |
| IoBuffer.IOBuffer.Skip | lib/base/buffer.cpp:76-90 | drops exactly the first bytes, removing blocks as they empty, and leaves the room behind the last byte as the flat queue has it |
| IoBuffer.IOBuffer.Read | lib/base/buffer.cpp:92-98 | what is read and what remains are together what was there, and as much is read as was asked for and there |
| IoBuffer.IOBuffer.Write | lib/base/buffer.cpp:100-116 | appends the bytes, in as many blocks as it takes; the room left in the last one is the remainder |
| IoBuffer.IOBuffer.FromFile | lib/base/buffer.cpp:118-145 | appends exactly what the read calls bring up to the first short one; says how much that is, and how much room it leaves, a whole block when one was added for bytes that do not come |
| IoBuffer.IOBuffer.ToFile | lib/base/buffer.cpp:147-172 | under any short or failing writes, the bytes written and those that remain are together what was there; says how many are written, and that asking for more than there is drops even a block without bytes |
| IoBuffer.IOBuffer.SearchChr | lib/base/buffer.cpp:174-196 | the first index of the character in the queue, or -1 |
| IoBuffer.IOBuffer.Empty | lib/base/buffer.cpp:46-49 | true if and only if the queue has neither bytes nor room left over |
| IoBuffer.IOBuffer.Clear | lib/base/buffer.cpp:31-35 | leaves a queue with neither |
| IoBuffer.IOBuffer.HandOver | lib/base/buffer.cpp:151-169 | one turn of tofile: the first chunk is offered, what is taken is dropped, and a block that empties is removed |
| IoBuffer.AllTaken | lib/base/buffer.cpp:147-172 | when no write is cut short tofile hands over all that was asked for, or all there is |
| IoBuffer.AllArrives | lib/base/buffer.cpp:118-145 | when no read comes short of a block fromfile gets all that was asked for, or all there is |
| IoBuffer.HollowIff | lib/base/buffer.cpp:118-145 | fromfile leaves a block without bytes if and only if less came than was asked for and it fills the last block, and every one added, to the end |
| IoBuffer.EmptyIsWrongIff | lib/base/buffer.cpp:46-49 | empty() misses that there are no bytes if and only if a block without bytes is there |
| IoBuffer.EmptyWrongAfterReading | lib/base/buffer.cpp:46-145 | after fromfile on an empty buffer that is so if and only if something was asked for and nothing came |
| IoBuffer.EndOfInput | lib/base/buffer.cpp:46-145 | fromfile at the end of its input, on an empty buffer: it returns 0, there are no bytes, and empty() is false |
| IoBuffer.NeverHollow | lib/base/buffer.cpp:37-196 | without fromfile empty() is right after any sequence of operations |
| IoBuffer.Run | lib/base/buffer.cpp:37-196 | any sequence of operations, reads from and writes to files included, gives the results of a flat byte queue that remembers the room behind its last byte, up to the one that trips an assertion, and leaves that queue |
| MessagePump.StepKeepsInv | lib/base/message.h:48-83 | every step of every thread keeps: queue length = bytes in the pipe + senders between push and write + receiver between read and pop; and the else branch is never taken |
| MessagePump.StepKeepsAccount | lib/base/message.h:48-83 | every step keeps: messages sent = delivered, in hand, queued, coming, in this order |
| MessagePump.ExactlyOnceInOrder | lib/base/message.h:48-83 | in every interleaving of many senders and one receiver pop never meets an empty queue, and delivered and waiting messages together are the sent ones in push order |
| MessagePump.PipeNeverOverflows | lib/base/message.h:48-66 | a write waits for room in the pipe, so there are never more bytes in it than fit |
| MessagePump.NoDeadlock | lib/base/message.h:48-83 | in every reachable state some thread can go on, unless nobody is in the pump and the pipe is empty |
| MessagePump.EverythingIsDelivered | lib/base/message.h:48-83 | when nobody sends any more every run is of bounded length, and when it can go no further all messages have been delivered, once and in order |
| Semaphore.RunKeepsInv | lib/base/elock.cpp:61-93 | in every interleaving the count is its first value plus the ups less the downs, and no wakeup is lost |
| Semaphore.DownAndUpAreAtomic | lib/base/elock.cpp:48-93 | for any number of threads: the count starts at 1 and is never negative, and when all is quiet a thread still waits only if it is 0 |
| Semaphore.NobodyIsLost | lib/base/elock.cpp:61-93 | whoever has called down has taken one or still wants to, and every up that has given back the mutex has signalled or is about to |
| Semaphore.SomebodyMoves | lib/base/elock.cpp:61-93 | until all is quiet some thread in the semaphore can go on |
| ThreadHandshake.NeverTwoThreads | lib/base/thread.cpp:66-78 | whatever is called and whenever, a thread is created only when none is left |
| ThreadHandshake.ThreadsComeAndGo | lib/base/thread.cpp:66-166 | a thread is created only when there is none and dropped only when it has exited; in between it goes on by its own steps |
| ThreadHandshake.HandshakeIsSafe | lib/base/thread.cpp:9-166 | in every interleaving that keeps to the rule for starting, the semaphore stays in {0, 1}, every ASSERT and fatal check holds, and it is raised once for each start, even if the worker dies early |
| ThreadHandshake.RunWaitsForTheWorker | lib/base/thread.cpp:84-113 | when run returns the worker has passed hasStarted or died; a start that proceeds finds the old worker out of thread() |
| ThreadHandshake.NoDeadlock | lib/base/thread.cpp:9-166 | a call under way never hangs for good: the controller or the worker can go on |
| ThreadHandshake.LateStartBreaks | lib/base/thread.cpp:9-82 | started while the old worker's test of m_started is ahead, an interleaving raises the semaphore twice and the new worker's ASSERT fails |
| ThreadHandshake.AtWorkIsReachable | lib/base/thread.cpp:9-113 | from the initial state, by a run that keeps to the rule, the program gets to a state in which a start is not safe: the controller is between calls, the worker at its work |
| ThreadHandshake.StartIsSafeIff | lib/base/thread.cpp:9-113 | run and runAsync are safe in every interleaving if and only if the old worker is joined, or is past its test of m_started, or died before hasStarted |
| ThreadHandshake.StartIsSafeOnceJoined | lib/base/thread.cpp:66-82 | as far as the caller can tell: in all states that the program gets to while it keeps to the rule, starting is safe whatever the worker is doing if and only if the_thread is 0 |
| FreesatHuffman.DecodeBinary | lib/base/freesatv2.cpp:118-133 | the value of a code is its bits packed from the top of a 32 bit word, any character but 1 standing for 0 |
| FreesatHuffman.SpelledOut | lib/base/freesatv2.cpp:118-133 | 1011 is 0xB0000000 and 0x1 is 0x20000000 |
| FreesatHuffman.MaskOf | lib/base/freesatv2.cpp:239-245 | the mask loop covers exactly the first bits |
| FreesatHuffman.MatchIsPrefix | lib/base/freesatv2.cpp:239-246 | the masked register equals an entry's value if and only if the code is a prefix of the next 32 bits |
| FreesatHuffman.FindEntry | lib/base/freesatv2.cpp:236-259 | the search through a bucket finds its first entry whose code comes next |
| FreesatHuffman.ZeroMeansZeros | lib/base/freesatv2.cpp:284-285 | the register is 0 if and only if the next 32 bits are |
| FreesatHuffman.Load | lib/base/freesatv2.cpp:208-217 | the register starts as the first 32 bits of the payload, zero-padded |
| FreesatHuffman.Shift | lib/base/freesatv2.cpp:264-276 | after shifting by n bits the register is the next 32 unread bits, zero-padded, n further on |
| FreesatHuffman.FreesatHuffmanDecoder.AddEntry | lib/base/freesatv2.cpp:164-175 | a table line's entry goes to the end of its bucket and changes nothing else |
| FreesatHuffman.FreesatHuffmanDecoder.Round | lib/base/freesatv2.cpp:221-260 | one turn of the loop, escape or search, does what the bit-list decoder does in one round |
| FreesatHuffman.FreesatHuffmanDecoder.Decode | lib/base/freesatv2.cpp:196-288 | the decoder ends for codes of 1 to 32 bits and gives what the bit-list decoder with previous-symbol context gives on the bits behind the header, with the first table for 0x1f 1, the second for 0x1f 2, and nothing for any other text |
| FreesatHuffman.RoundInverts | lib/base/freesatv2.cpp:221-260 | with prefix-free codes one round on a symbol's code gives back the symbol |
| FreesatHuffman.SymbolsAre | lib/base/freesatv2.cpp:28-30 | symbol 0 stops and 1 escapes, both without text; behind an escape every symbol is text, until one below 0x80 |
| FreesatHuffman.EscapedRun | lib/base/freesatv2.cpp:224-233 | characters from 0x80 on and the ASCII character that ends them are coded by their eight bits each, and are all text |
| FreesatHuffman.DecodeAfterEncode | lib/base/freesatv2.cpp:219-285 | on the code of any terminated list of symbols, whatever follows it, the decoder gives the text of exactly the symbols before the first 32 zero bits |
| FreesatHuffman.DecodeInvertsEncode | lib/base/freesatv2.cpp:219-285 | it inverts encoding when the remaining code always has a 1 among its next 32 bits |
| FreesatHuffman.SeenIff | lib/base/freesatv2.cpp:219-285 | the decoder sees m symbols if and only if none of the first m - 1 is followed by 32 zero bits |
| FreesatHuffman.NoTextIff | lib/base/freesatv2.cpp:219-260 | the rest of a terminated list has no text if and only if it is just a stop that is not escaped |
| FreesatHuffman.WholeTextIff | lib/base/freesatv2.cpp:219-285 | the whole text comes back if and only if no symbol before the stop, save perhaps the one right before it when that is not an escape, is followed by 32 zero bits |
| FreesatHuffman.TextCutShort | lib/base/freesatv2.cpp:219-285 | a prefix-free table and three symbols of which the decoder gives only the first, because the second has 32 zero bits for a code |
| HuffmanTrie.HuffmanDictionary.Descend | lib/base/huffman.cpp:62-107 | one step down makes a node where there is none and leaves every other node as it was |
| HuffmanTrie.HuffmanDictionary.Insert | lib/base/huffman.cpp:57-109 | a line adds the nodes of its path; its value is stored only in a new last node, an existing one is left alone |
| HuffmanTrie.HuffmanDictionary.ReadDictionary | lib/base/huffman.cpp:33-115 | the trie afterwards is the one of the lines in order, whatever it was before, and the count is of the values stored: all of a prefix-free dictionary |
| HuffmanTrie.DigitsSpellAll | lib/base/huffman.cpp:62-83 | a code of zeros and ones spells a path of as many bits, 1 where the character is 1 |
| HuffmanTrie.OthersArePassedOver | lib/base/huffman.cpp:62-83 | any other character of a code is passed over |
| HuffmanTrie.TrieContains | lib/base/huffman.cpp:57-109 | for any lines, a path has a node if and only if some code goes through it, and the value of the first such code if that ends there |
| HuffmanTrie.TrieIsDictionary | lib/base/huffman.cpp:57-109 | for a dictionary of non-empty strings of zeros and ones, none a prefix of another, the trie maps exactly their paths |
| HuffmanTrie.AllAreStored | lib/base/huffman.cpp:57-109 | and stores every value of it |
| HuffmanTrie.HuffmanDictionary.Decode | lib/base/huffman.cpp:140-240 | walking the nodes from mask 0x20 of the first byte succeeds exactly when the walk over the bits does, and leaves its text, closed by a zero |
| HuffmanTrie.DataBitsAre | lib/base/huffman.cpp:152-226 | the coded bits are those of the bytes, the highest first, without the first two |
| HuffmanTrie.SixBits | lib/base/huffman.cpp:57-226 | with the codes 0 for e and 1 for t the byte 0x1F is ettttt |
| HuffmanTrie.DecodeInvertsEncode | lib/base/huffman.cpp:152-226 | on the codes of any entries and an unfinished rest the walk gives their values |
| HuffmanTrie.WalkReads | lib/base/huffman.cpp:152-226 | a walk that stays in the trie has read codes, and gives their values |
| HuffmanTrie.ParseIsUnique | lib/base/huffman.cpp:152-226 | bits can be read as codes with an unfinished rest in at most one way |
| HuffmanTrie.DecodesExactlyTheParse | lib/base/huffman.cpp:140-240 | on any bits the decoder succeeds if and only if there is such a reading, and its text is that reading's |
| Utf8Text.IsUTF8 | lib/base/estring.cpp:886-923 | true if and only if the text is a list of whole characters |
| Utf8Text.CharLengthIs | lib/base/estring.cpp:886-923 | a first byte shows a length of 1 to 4 by the high bits 0, 110, 1110 or 11110, and no other byte begins a character |
| Utf8Text.UnicodeRoundTrip | lib/base/estring.cpp:452-474 | every code point below 0x200000 becomes one whole character, from which it can be read back |
| Utf8Text.ConvertLatin1UTF8 | lib/base/estring.cpp:872-884 | the result is UTF-8 and its characters are the bytes of the input |
| Utf8Text.ReplaceByChar | lib/base/estring.cpp:1009-1026 | the character-stepping replacement as a loop over a changing string; with a non-empty UTF-8 entity it goes round for ever if and only if stepping over the input comes to a byte that begins no character |
| Utf8Text.ReplaceByByte | lib/base/estring.cpp:1058-1064 | the byte-searching replacement as a loop; it ends unless the entity is empty |
| Utf8Text.ReplacesEachOccurrence | lib/base/estring.cpp:1058-1064 | the result is the input with each leftmost occurrence of the entity replaced and everything between kept |
| Utf8Text.BytesInsideMatchNothing | lib/base/estring.cpp:1018-1025 | UTF-8 synchronises itself: inside a character an entity never begins |
| Utf8Text.ByCharIsByByte | lib/base/estring.cpp:1009-1064 | if input and non-empty entity pass isUTF8, the UTF-8 path ends with the result of the default path |
| Utf8Text.ReplacementStaysUTF8 | lib/base/estring.cpp:1009-1064 | and the result passes isUTF8 when the symbol does |
| Utf8Text.SpinsIffStuck | lib/base/estring.cpp:1009-1026 | for any input and any non-empty UTF-8 entity that is exactly when the UTF-8 path does not end |
| Utf8Text.AgreeIff | lib/base/estring.cpp:1009-1064 | for any input and any non-empty UTF-8 entity, the two paths agree for every symbol if and only if stepping over the input neither gets stuck nor steps over a place where the entity begins |
| Utf8Text.UTF8IsNeither | lib/base/estring.cpp:1009-1026 | UTF-8 input does neither |
| Utf8Text.NotUTF8 | lib/base/estring.cpp:1009-1026 | a lone continuation byte gets it stuck; a lead byte without its continuation makes it step over the A behind it, which the default path replaces |

## Left out

- Floating-point rounding: curves, strokes, gradients and edge slopes are over exact reals; `Blend.RootIndex` is the exact index of a root, and overflow of fixed-point x is ignored.
- Trigonometry in round caps and joins: the cosines and sines along an arc are parameters, and any values at all; so are the direction and length that normalising a segment gives.
- Preparing strokes: dash splitting, `nsvg__prepareStroke` and the degenerate strokes it filters are not modelled; a stroke starts from prepared points.
- Sorting the edge table: `qsort` is any rearrangement that is sorted by y0, so the results hold for every order among equals.
- Memory of the rasteriser: the linked active list and its free list are a sequence, so relinking is rebuilding it; the bitmap is a two-dimensional array of pixels without a row stride; failing allocations are left out.
- Gradients with fewer than two stops, the spread modes and the inverse of a singular transformation: those branches do not do what the code around them intends.
- The blue-green-red variant of the image conversion, which differs only in the order of the channels.
- Gradient.GradientData.AddStop: takes the finished stop; parsing its attributes is not modelled.
- The width of the program's integers in timers: seconds, nanoseconds and milliseconds are unbounded.
- Schedule.ReadyPassOutcome: callbacks that make a timer due again at once are outside the claim, since such a pass need not end; operations of that kind are passed over in a script.
- Schedule.PassEndsIffNoneLasts: is about callbacks that do nothing; with others the pass is covered by `Schedule.ReadyPassOutcome`.
- Dispatch.NoStaleActivation: a callback's start that would fail the program's assertion about the descriptor ends the program there, and is passed over in a script; a nested loop inside a callback is not modelled.
- The computation of the poll timeout, Python objects in the poll set, interrupted polls and the destruction of a whole loop.
- Existing loops: every timer and notifier belongs to a loop that is alive, so `isValid` is always true.
- RawFile.RawFile.Read: a read interrupted by a signal is repeated by the program and counts as one call here; the lock of the reader is not modelled, since one reader at a time is in it.
- Failing `close`, the choice between `stat` and `fstat`, and file names: all three name the same part.
- IoBuffer.IOBuffer.FromFile: the branch after a failing read is left out; it adds the error code to the block length.
- IoBuffer.IOBuffer.Skip: asking for more bytes than there are trips an assertion; that is a precondition here, and ends a run of operations in `IoBuffer.Run`.
- The bytes of a block beyond its length are not represented.
- Memory order between threads: steps are sequentially consistent, although `m_alive` and `m_started` are plain integers.
- A read from the pump's pipe that fails, and slots of the receiver that send on the same pump.
- ThreadHandshake.HandshakeIsSafe: assumes that the thread can be created; `join` with a time limit is a `kill` that happens or not; a signal to the thread and the destructor are left out.
- `eLock`, `decrement` and the byte order of the queues in `eMessagePumpMT`, whose code does not do what it is meant to.
- FreesatHuffman.FreesatHuffmanDecoder.Decode: codes have 1 to 32 bits (longer ones are matched by their first 32 only), and characters are unsigned where the program's `char` may be signed; buckets are sequences instead of linked entries.
- Reading the freesat table files and the title dictionary line by line, and the named characters in them.
- HuffmanTrie.HuffmanDictionary.Decode: the text fits the result, so the branch that truncates is left out, as is the debug output; the mask steps are divisions.
- Freeing the trie.
- The Big5, GB18030 and UTF-16 branches of `replace_all`, the other conversions and their tables.
- HTTP, TLS, console, device and Python code: input and output around this core.
