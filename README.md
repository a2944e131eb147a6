# Temperature trails and quad-grid helpers

A verified model of the core of a small p5.js sketch. A user adds cities by
name. Each city is placed on a world map with an equirectangular projection
and coloured by its current temperature from a nine-point palette. On every
animation frame, each city grows a random-walk trail from its anchor; when a
trail gets longer than 120 points it snaps back to the anchor. A utility file
next to it provides three helpers:

- a per-key smoother that keeps bounded FIFO queues and returns their mean;
- a bilinear grid of vertices and texture coordinates over a quadrilateral;
- the triangle-index loop that draws a textured quad from that grid.

The model has six modules:

- `Projection` (`projection.dfy`): the projection from latitude and longitude
  to screen coordinates. The viewport size is a parameter.
- `Palette` (`palette.dfy`): the control points and the first-matching-pair
  colour lookup.
- `Trails` (`trails.dfy`): the trail step as functions, and two classes.
  - `City` is a record whose only mutable field is its trail. `City.Tick` is
    the per-city body of the frame loop.
  - `Registry` holds the append-only list of cities. It has the frame loop
    (`Draw`) and the record append of city intake (`AddCity`).
  - The frame's two random draws per city are inputs. The line a tick draws
    is returned as a `Segment` value.
- `Smoothing` (`smoothing.dfy`): the landmark smoother. It is a class whose
  field is the map of queues the closure captures. A ghost field records
  every value seen per key, so that "the queue holds the last `size`
  arrivals" can be stated.
- `QuadGrid` (`quad_grid.dfy`): the grid builder and the triangle-index loop.
  The loop appends indices to a sequence instead of issuing vertex calls.
- `Wrappers` (`wrappers.dfy`) holds `Option`.

All coordinates, temperatures and colour channels are Dafny `real`s, so
interpolation and averaging are exact. The latitude range of the projection
is the Mercator ±85.05112878. The jitter draws lie in [-8, 8), so a step can
move an axis by exactly -8 but never by +8.

## Model

| member | source | states |
|---|---|---|
| Projection.Fraction | src/scripts/index.js:14-15 | the fraction of the way from lo to hi, (v - lo) / (hi - lo); FractionInUnit and FractionMonotone state that it lies in [0, 1] on the range and grows with v |
| Projection.LatLonToXY | src/scripts/index.js:13-17 | the projection itself: x is the fraction of the longitude range times width, y is one minus the fraction of the latitude range times height. It has no contract of its own; the four lemmas below state its properties |
| Projection.ProjectionEdges | src/scripts/index.js:7-16 | longitude -180 maps to x = 0 and 180 maps to x = width; latitude maxLat maps to y = 0 and minLat maps to y = height |
| Projection.ProjectionInViewport | src/scripts/index.js:13-16 | for a positive viewport and a latitude and longitude inside the Mercator bounds, the point lies in [0, width] x [0, height] |
| Projection.ProjectionCentre | src/scripts/index.js:7-16 | the bounds are symmetric, so (0, 0) maps to (width / 2, height / 2) |
| Projection.ProjectionMonotone | src/scripts/index.js:13-16 | x grows with longitude and y falls as latitude grows, strictly when the coordinate grows strictly |
| Palette.ColorsIncreasing | src/scripts/index.js:23-33 | the control temperatures of the palette are strictly increasing |
| Palette.Lerp | src/scripts/index.js:42 | linear interpolation from start to stop by amt, as lerpColor does on each channel. Its end values are stated by LerpEnds and BlendEnds |
| Palette.Blend | src/scripts/index.js:41-42 | the colour of a pair at temp: each channel interpolated by (temp - t1) / (t2 - t1), the value of map(temp, t1, t2, 0, 1). BlendBetween, BlendEnds and BlendMonotone state its properties |
| Palette.LookUp | src/scripts/index.js:36-46 | a temperature outside the palette's first-to-last control range gives white |
| Palette.LookUpFirstPair | src/scripts/index.js:37-43 | when pair i is the first pair whose closed interval holds temp, the lookup is the blend of pair i at (temp - t1) / (t2 - t1) |
| Palette.TempToColor | src/scripts/index.js:36-46 | the lookup on the fixed nine-point palette; specified by TempToColorSpec, ControlPointColor and TempToColorMonotone |
| Palette.CoveredHasFirstPair | src/scripts/index.js:37-44 | every temperature inside the palette's range has a first matching pair |
| Palette.BlendBetween | src/scripts/index.js:40-42 | inside a pair's interval, each channel of the blend lies between the two control channels |
| Palette.BlendEnds | src/scripts/index.js:40-42 | a blend is the lower control colour at the lower temperature (amount 0) and the upper one at the upper temperature (amount 1) |
| Palette.BlendMonotone | src/scripts/index.js:40-42 | for temperatures a <= b inside a pair's interval, each channel at a is no further from the lower control channel, towards the upper one, than at b |
| Palette.TempToColorSpec | src/scripts/index.js:36-46 | below -30 or above 50 the colour is white; in [-30, 50] it is the blend of the first matching pair, and each channel lies between that pair's channels |
| Palette.TempToColorMonotone | src/scripts/index.js:36-43 | on the closed interval between two consecutive control points of the palette, each channel moves monotonically from the lower point's channel towards the upper one's as the temperature rises |
| Palette.ControlTemperatures | src/scripts/index.js:23-43 | -30 gives (0, 100, 0), 0 gives (255, 255, 0), 10 gives (255, 165, 0) and 50 gives (75, 0, 130) |
| Palette.ControlPointLookUp | src/scripts/index.js:37-43 | for any increasing palette, the lookup of an exact control temperature is that point's colour |
| Palette.ControlPointColor | src/scripts/index.js:23-43 | every exact control temperature gives that control point's colour, through the first pair at amount 0 or the pair below at amount 1 |
| Trails.Seeded | src/scripts/index.js:69-71 | the trail after the empty-list seeding: [anchor] for an empty trail, the trail itself otherwise; never empty |
| Trails.Last | src/scripts/index.js:74 | the last point of a non-empty trail, the lastPoint of a tick |
| Trails.NextPoint | src/scripts/index.js:74-79 | the point a tick appends: the last point of the seeded trail moved by (dx, dy). Its use is stated by Step and StepSegment |
| Trails.Step | src/scripts/index.js:69-100 | a tick leaves at least one point and at most 120 when there were at most 120. It keeps the anchor first. Below capacity it appends last + (dx, dy) to the seeded trail; otherwise the trail becomes exactly [anchor] |
| Trails.StepSegment | src/scripts/index.js:73-100 | the drawn segment starts at the last point before the push and ends at that point moved by (dx, dy), on every tick including the one that collapses the trail; below capacity that end is the point the tick appends. It has the city's colour. With draws in [-8, 8) it moves each axis by at least -8 and less than 8 |
| Trails.StepFromEmpty | src/scripts/index.js:69-92 | one tick on an empty trail gives [anchor, anchor + (dx, dy)] |
| Trails.RunLength | src/scripts/index.js:69-100 | after k ticks a trail of length n in 1..120 has length ((n - 1 + k) mod 120) + 1 |
| Trails.RunFromEmpty | src/scripts/index.js:69-99 | from an empty trail, k >= 1 ticks give length (k mod 120) + 1; the 120th tick, whose push would reach 121, leaves exactly [anchor] |
| Trails.RunResets | src/scripts/index.js:92-100 | a run of ticks that brings the trail to 121 points ends at [anchor] |
| Trails.City.constructor | src/scripts/index.js:109-119 | a new city record keeps name, latitude, longitude and temperature. Its anchor is their projection, its colour the palette colour of the temperature, and its trail is empty |
| Trails.City.Tick | src/scripts/index.js:68-100 | the trail becomes Step of the old trail and the returned segment is StepSegment. Name, position and colour are constants. The trail invariant (at most 120 points, anchor first) is preserved |
| Trails.Registry.constructor | src/scripts/index.js:4 | the city list starts empty |
| Trails.Registry.AddCity | src/scripts/index.js:104-124 | a city is added exactly when intake found one. The list only grows by appending one fresh record, built from the found values, with an empty trail |
| Trails.Registry.Draw | src/scripts/index.js:62-102 | every city is ticked once in list order with its own draws. The city list is unchanged, city i's trail is Step of its old trail and segment i is its StepSegment |
| Smoothing.QueueOf | src/scripts/utils.js:23-27 | the queue a key has before a call: the stored one, or the empty queue a new key is given. PushOnto and Average state what a call does with it |
| Smoothing.Pushed | src/scripts/utils.js:27-31 | one push onto a bounded queue: append, then drop the oldest when over size. LastNPush and PushOnto state what it keeps |
| Smoothing.Sum | src/scripts/utils.js:34 | the reduce from 0, left to right. SumBounds bounds it |
| Smoothing.Mean | src/scripts/utils.js:34-35 | the sum over the length; None for the empty queue, whose 0 / 0 is NaN. MeanWithin, MeanBetween and MeanSingle state its properties |
| Smoothing.LastN | src/scripts/utils.js:23-31 | the result is the final min(len, n) elements of the sequence, in order |
| Smoothing.LastNPush | src/scripts/utils.js:27-31 | pushing a value and dropping the oldest when over size turns the last `size` values of s into the last `size` values of s + [v] |
| Smoothing.PushOnto | src/scripts/utils.js:23-31 | a push onto the last `size` of the values seen gives the last `size` of those values plus the new one; with size >= 1 the queue has 1..size entries, and a first value gives exactly [value] |
| Smoothing.TracksUpdate | src/scripts/utils.js:23-31 | updating one key's queue to the last `size` of its arrivals keeps every other key tracking its own arrivals |
| Smoothing.Min | src/scripts/utils.js:34-35 | the minimum is at most every queued value and is one of them |
| Smoothing.Max | src/scripts/utils.js:34-35 | the maximum is at least every queued value and is one of them |
| Smoothing.SumBounds | src/scripts/utils.js:34 | a sum of n values each in [lo, hi] lies in [n * lo, n * hi] |
| Smoothing.MeanWithin | src/scripts/utils.js:34-35 | the mean of a non-empty queue of values within [lo, hi] exists and lies within [lo, hi] |
| Smoothing.MeanBetween | src/scripts/utils.js:34-35 | the mean of a non-empty queue exists and lies between its minimum and maximum |
| Smoothing.MeanSingle | src/scripts/utils.js:34-35 | the mean of a one-element queue is that element |
| Smoothing.LandmarkSmoother.constructor | src/scripts/utils.js:19-20 | a new smoother has no queues |
| Smoothing.LandmarkSmoother.Average | src/scripts/utils.js:22-36 | only key's queue changes. It becomes the last `size` of all values seen for key, in arrival order, and the result is its mean. With size >= 1 the queue has 1..size entries and the mean lies between their minimum and maximum. A key's first call makes the queue [value] and returns value |
| QuadGrid.GridStep | src/scripts/utils.js:45-46 | the step 1 / (n - 1) between grid lines, xStep and yStep |
| QuadGrid.Progress | src/scripts/utils.js:50-51 | the progress of line i, i * GridStep(n), as col * xStep and row * yStep; ProgressInUnit states that it is i / (n - 1) in [0, 1] |
| QuadGrid.Bilinear | src/scripts/utils.js:53-59 | the vertex at progress (xp, yp): the edges from corner 1 to 4 and from corner 2 to 3 interpolated by yp, then between them by xp. GridCorners states its values at the corners |
| QuadGrid.GridVertex | src/scripts/utils.js:50-59 | the vertex of (row, col): Bilinear at the column and row progress |
| QuadGrid.GridTexCoord | src/scripts/utils.js:50-62 | the texture coordinate of (row, col): the column and row progress. TexCoordInUnit states its value and range |
| QuadGrid.CalculateQuadGrid | src/scripts/utils.js:42-69 | unless a count of 1 meets a positive other count, there are Count(numCols) * Count(numRows) vertices and texture coordinates. Entry k is the bilinear point and progress pair of row k / numCols and column k % numCols; a count of 1 with the other count at most 0 gives an empty grid |
| QuadGrid.GridEntry | src/scripts/utils.js:48-66 | for 0 <= row < numRows and 0 <= col < numCols, the index row * numCols + col is in range and maps back to (row, col) |
| QuadGrid.ProgressInUnit | src/scripts/utils.js:45-51 | the progress i * (1 / (n - 1)) equals i / (n - 1), lies in [0, 1], is 0 at i = 0 and is 1 at i = n - 1 |
| QuadGrid.TexCoordInUnit | src/scripts/utils.js:45-62 | the texture coordinate of (row, col) is (col / (numCols - 1), row / (numRows - 1)), both in [0, 1] |
| QuadGrid.GridCorners | src/scripts/utils.js:50-59 | the grid's four corner entries are exactly the quad's corners: (0, 0) is (x1, y1), (0, numCols - 1) is (x2, y2), (numRows - 1, numCols - 1) is (x3, y3) and (numRows - 1, 0) is (x4, y4) |
| QuadGrid.Cell | src/scripts/utils.js:91-94 | the six indices tl, tr, br, tl, br, bl of a cell, with tl = x + y * gridSizeX and the other corners to its right and below. CellInGrid bounds them |
| QuadGrid.TriangleIndex | src/scripts/utils.js:89-133 | the closed form of index i of the list: entry i % 6 of cell i / 6, cells numbered row by row. TrianglePattern ties it to Cell |
| QuadGrid.CellInGrid | src/scripts/utils.js:89-94 | all six corner indices of a cell are in [0, gridSizeX * gridSizeY) |
| QuadGrid.TrianglePattern | src/scripts/utils.js:89-133 | index 6 * (cell number) + k is entry k of the pattern tl, tr, br, tl, br, bl of that cell, numbering cells row by row |
| QuadGrid.CellAppend | src/scripts/utils.js:89-133 | appending one cell's six indices after the cells before it keeps the whole list in the per-cell pattern and below gridSizeX * gridSizeY |
| QuadGrid.TriangleIndices | src/scripts/utils.js:89-134 | the loop emits 6 indices per cell, (gridSizeX - 1) * (gridSizeY - 1) * 6 in all. Each index is in [0, gridSizeX * gridSizeY) and follows the per-cell pattern |
| QuadGrid.DrawTexturedQuad | src/scripts/utils.js:71-136 | an 8 x 8 grid gives 64 vertices and texture coordinates and 294 indices, all below 64. Vertices 0, 7, 63 and 56 are the corners (x1, y1), (x2, y2), (x3, y3) and (x4, y4). Entry k of the grid is the bilinear vertex and texture coordinate of row k / 8 and column k % 8. Index i follows the per-cell pattern tl, tr, br, tl, br, bl |

## Left out

- Network and DOM intake is not modelled: reading the input field, geocoding, the weather request, `alert` and logging (src/scripts/index.js:104-108, 121-151). `Registry.AddCity` receives the outcome as an `Option<Reading>`.
  - `None` covers "no geocoding result" and a failed geocoding request, which the source reports by returning null.
  - A failed weather request rejects the promise and adds no city; that is also `None` here.
- The viewport size, read from the browser window, is a parameter of the projection.
- Canvas work is not modelled: setup, input and button creation (src/scripts/index.js:48-60), and `stroke`, `strokeWeight` and `line` (src/scripts/index.js:65-66, 95). A tick returns its segment as data instead. The colour's 50/255 alpha and the stroke weight are not part of that segment.
- `random(-8, 8)` is a pair of inputs per city, required to be in [-8, 8).
- Palette.TempToColorSpec: p5's `map` and `lerpColor` are modelled as exact real interpolation. The model leaves out p5's rounding of the channel levels to integers and the alpha entry of `levels`.
- The Perlin-noise variant is left out because it is commented out. `noiseTime`, `noiseResolution` and `noiseScale` (src/scripts/index.js:19-21, 80-89) are left out because they affect nothing.
- `pulse` (src/scripts/utils.js:6-10) is left out: it needs the sine function and p5's frame counter.
- Texture creation is left out: `createAndSetupTextures` (src/scripts/utils.js:140-163). Shape drawing is left out too: `beginShape`, `texture`, the `vertex` calls and `endShape` (src/scripts/utils.js:87-88, 96-135). `DrawTexturedQuad` returns the grid and the index sequence that those calls would consume.
- Floating-point rounding is not modelled; all arithmetic is on reals.
- QuadGrid.CalculateQuadGrid: excludes a count of 1 together with a positive other count. For numCols = 1 the source divides by zero (xStep is Infinity) and each column progress is 0 * Infinity = NaN, so every vertex and every u is NaN; v stays finite when numRows >= 2 (and the reverse for numRows = 1). Reals cannot express NaN. A count of 1 with the other count at most 0 is modelled: the loops never run and the grid is empty, as are all other grids with a count of 0 or less.
- Smoothing.LandmarkSmoother.Average: with size <= 0 the source divides 0 by 0 and returns NaN; the model returns `None`.
- Smoothing.LandmarkSmoother.Average: keys are a `map` from strings. The model does not capture keys that collide with inherited JavaScript object properties (such as "constructor"), for which the source fails.
- Channel values are not bounded by the type. The palette's bounds follow from `BlendBetween` and the control colours.

