# handsketch drawing engine in Dafny

This project models the raster drawing engine of handsketch (`js/drawing.js`).
The engine keeps three things:

- the canvas's RGBA byte buffer, four bytes per pixel, stored row by row;
- a per-pixel "done" mark that stops a stroke from processing a pixel twice;
- the tool settings, the active colour, and the undo and redo stacks of saved buffers.

Its operations are:

- `toolAction`: one visit of the box around the pointer by the brush, the airbrush or the eraser;
- `filler`: a stack-driven flood fill gated by a colour-distance threshold;
- `picker`: reads one pixel, or averages an area of the buffer;
- `snapshot`, `undo` and `redo`;
- the getters/setters for tool, shape, opacity, density, threshold and thickness;
- `nextShape` and `prevShape`.

The model is a class, `Drawing.Engine`, whose fields are the module's state:

- `data: array<Byte>` is the buffer and `done: array<bool>` holds the marks;
- the settings are plain fields;
- the two stacks are sequences of buffers.

Each method is proved against a pure specification in its own module:

- `Strokes` for one `toolAction`: `Step` visits one pixel, `SweepRow`, `SweepRows` and `Sweep` visit the box;
- `FloodFill` for the filler: `Reached` defines its region as the pixels reachable from the seed;
- `Picking` for the picker: the tally over the footprint and its truncated average;
- `History` for the stacks;
- `Compositing` for the per-pixel arithmetic;
- `Shapes` and `Settings` for the shape tests and the slider scaling.

In these places the code departs from what it evidently means to do, and the model follows the code:

- The `square` shape test returns `true` for every pixel. It is not a max-norm test, so the square tools act on the whole box they sweep.
- The filler's colour distance computes the red difference and then overwrites it with the alpha difference. Red is ignored and alpha counts twice (`FloodFill.RedIgnored`, `FloodFill.AlphaCountsTwice`).
- The blend and the eraser truncate with `| 0`; they do not round. The fill alpha `alpha * opacity` is rounded, ties to even, because the clamped byte array converts it that way.
- The filler compares strictly below the squared threshold. At threshold 0 it paints nothing, not even the seed (`FloodFill.ZeroThresholdReachesNothing`).
- The filler never bounds-checks its seed. `Drawing.Engine.Fill` requires the seed to be on the canvas.
- The blend does not divide the colour channels by the computed alpha. At opacity 0 a translucent pixel is darkened (`Compositing.BlendZeroOpacityDarkensTranslucent`).
- The stroke box and the picker box include column `width` and row `height`. A visit at column `width` is pixel 0 of the next row, and a visit past the end of the buffer does nothing visible. The picker's average there is `NaN`, which truncates to 0 (`Picking.BottomEdgeGivesTransparentBlack`).

## Model

| member | source | states |
|---|---|---|
| Pixels.WithPixel | js/drawing.js:252-267 | writing a pixel sets exactly its four bytes to the new colour and keeps the buffer's length and every other byte |
| Pixels.WithPixelOthers | js/drawing.js:252-267 | a pixel write leaves every other pixel as it was |
| Settings.ParseTool | js/drawing.js:56-69 | a name is accepted exactly when some tool has it, and the tool found carries that name |
| Settings.Normalise | js/drawing.js:97-126 | a slider value in 0..max becomes a fraction in 0..1 that gives the value back when scaled by max; it is 0 exactly at 0 and 1 exactly at max |
| Shapes.CircleBoundaryInclusive | js/drawing.js:196-200 | the circle includes pixels at exactly `thickness` along an axis and excludes the next one |
| Shapes.SquareAcceptsEverything | js/drawing.js:210-212 | the square test holds for every pixel, centre and thickness |
| Shapes.DiamondBoundaryExclusive | js/drawing.js:222-224 | a pixel at Manhattan distance exactly `thickness` is outside the diamond and inside the one a step larger |
| Shapes.FootprintInsideBox | js/drawing.js:196-224 | every pixel of a circle or diamond lies within `thickness` of the centre on both axes, so the swept box covers the footprint |
| Shapes.DiamondInsideCircle | js/drawing.js:196-224 | the diamond is contained in the circle of the same thickness |
| Shapes.Contains | js/drawing.js:196-224 | the centre belongs to its circle and square, and to its diamond exactly when the thickness is positive |
| Shapes.BoxLow | js/drawing.js:439-442 | the box's first row or column is `centre - thickness` clamped up to 0: never negative, never below `centre - thickness`, and one of the two |
| Shapes.BoxHigh | js/drawing.js:481-484 | the box's last row or column is `centre + thickness` clamped down to the canvas size: never above either, and one of the two |
| Shapes.ParseShape | js/drawing.js:76-90 | a name is accepted exactly when some shape has it, and the shape found carries that name |
| Shapes.NextShape | js/drawing.js:506-517 | succeeds exactly on the three shape names, giving a different shape name; any other name is the error |
| Shapes.PrevShape | js/drawing.js:524-535 | succeeds exactly on the three shape names, giving a different shape name; any other name is the error |
| Shapes.NextPrevInverse | js/drawing.js:506-535 | next and previous undo each other on every shape name |
| Shapes.NextThriceIsIdentity | js/drawing.js:506-517 | three steps forward come back to the starting shape |
| Shapes.NextVisitsAll | js/drawing.js:506-517 | a name and its two successors are the three distinct shapes |
| Compositing.Truncate | js/drawing.js:258 | truncating a value in 0..255 with a bitwise or by 0 gives the integer at or just below it |
| Compositing.Coverage | js/drawing.js:255 | the colour's weight is a fraction, and it is 1 exactly for an opaque colour at full opacity |
| Compositing.Underneath | js/drawing.js:256 | the destination's weight is a fraction no larger than what the colour leaves over |
| Compositing.Mix | js/drawing.js:260-262 | a blended channel never exceeds the exact weighted sum |
| Compositing.BlendOpaqueReplaces | js/drawing.js:252-267 | an opaque colour at full opacity replaces the pixel by the colour with alpha 255 |
| Compositing.Blend | js/drawing.js:252-267 | blending never lowers a pixel's alpha, and a result whose alpha is 0 is transparent black |
| Compositing.BlendInvisibleClears | js/drawing.js:259-266 | an invisible colour over a transparent pixel yields transparent black |
| Compositing.BlendZeroOpacity | js/drawing.js:252-267 | at opacity 0, at any alpha including 0, alpha is kept and each colour channel becomes channel × alpha / 255, truncated |
| Compositing.BlendZeroOpacityKeepsOpaque | js/drawing.js:252-267 | at opacity 0 an opaque pixel is unchanged |
| Compositing.BlendZeroOpacityDarkensTranslucent | js/drawing.js:252-267 | at opacity 0 a half-transparent grey (200, 200, 200, 128) drops to (100, 100, 100, 128) |
| Compositing.EraseAlpha | js/drawing.js:312 | the eraser never raises alpha; opacity 0 keeps it and opacity 1 clears it |
| Compositing.RoundToByte | js/drawing.js:389 | storing a number in the clamped byte array rounds it to the nearest byte, ties to even |
| Compositing.FillAlpha | js/drawing.js:356 | the fill alpha is at most the colour's alpha: equal at opacity 1 and 0 at opacity 0 |
| Strokes.Step | js/drawing.js:276-315 | a per-pixel action touches only its own pixel's bytes and mark; it changes nothing when the visit is already settled (no per-pixel action for the tool, index past the buffer, pixel outside the shape, or pixel already marked); it keeps every mark and every marked pixel, and leaves its own visit settled |
| Strokes.SweepTwiceIsSweepOnce | js/drawing.js:480-499 | within one stroke, repeating a tool action at the same place changes nothing, whatever the random draws |
| Strokes.SweepRow | js/drawing.js:487-489 | a row of visits keeps one mark per pixel and four bytes per mark |
| Strokes.SweepRows | js/drawing.js:486-490 | the rows of visits keep one mark per pixel and four bytes per mark |
| Strokes.Sweep | js/drawing.js:480-492 | a tool action never touches a pixel already marked in this stroke, and keeps every mark |
| Strokes.SweepKeepsOutside | js/drawing.js:480-492 | a tool action touches only its footprint: a pixel that no visit of the box reaches inside the shape keeps its mark and its four bytes |
| Strokes.SweepMarksFootprint | js/drawing.js:276-315 | after a brush, airbrush or eraser action, every footprint pixel of the box that lies in the buffer is marked, whether or not the airbrush drew |
| Strokes.NonStrokeToolChangesNothing | js/drawing.js:488 | with a tool that has no per-pixel action, a tool action leaves buffer and marks unchanged |
| Strokes.EraserOnlyLowersAlpha | js/drawing.js:308-315 | the eraser changes no colour channel and never raises an alpha |
| Strokes.EraserStepLowersAlpha | js/drawing.js:308-315 | one eraser visit changes no colour channel and never raises an alpha |
| Strokes.AirbrushZeroDensityKeepsPixels | js/drawing.js:291-299 | at density 0 the airbrush changes no pixel |
| Strokes.AirbrushFullDensityIsBrush | js/drawing.js:291-299 | at density 1 the airbrush does exactly what the brush does |
| FloodFill.Distance | js/drawing.js:379-384 | the distance is 0 exactly when green, blue and alpha agree with the seed's, and never exceeds the largest possible value |
| FloodFill.RedIgnored | js/drawing.js:379-384 | the red channel does not affect the colour distance |
| FloodFill.AlphaCountsTwice | js/drawing.js:379-384 | an alpha difference alone counts twice its square |
| FloodFill.Limit | js/drawing.js:359 | the squared-threshold limit is 0 at threshold 0 and positive above it |
| FloodFill.Passes | js/drawing.js:384 | at threshold 0 no colour passes the test; above it every colour at distance 0 from the seed, the seed's own included, passes |
| FloodFill.Reached | js/drawing.js:371-418 | every pixel of the region is on the canvas and passes the colour test |
| FloodFill.ReachedStep | js/drawing.js:371-418 | the region is closed under stepping to an unmarked, matching neighbour |
| FloodFill.SeedReached | js/drawing.js:347-384 | the seed is in its region exactly when the threshold is positive |
| FloodFill.ZeroThresholdReachesNothing | js/drawing.js:371-418 | at threshold 0 the region is empty |
| FloodFill.RegionCharacterised | js/drawing.js:371-418 | the region is the least set that contains the matching seed and is closed under open neighbours |
| FloodFill.UniformFillsEverything | js/drawing.js:371-418 | on a one-colour canvas with no marks and a positive threshold, every pixel is in the region |
| FloodFill.RefillReachesOnlySeed | js/drawing.js:371-418 | when the seed's neighbours are all marked, the region is the seed alone, or empty at threshold 0 |
| FloodFill.FilledSeedNeighboursMarked | js/drawing.js:394-416 | after a fill with a positive threshold every neighbour of the seed is marked, so a second fill from that seed repaints only the seed |
| FloodFill.Keep | js/drawing.js:394-416 | a neighbour is pushed exactly when it is on the canvas and unmarked, which is exactly when the source's own guard, reading the mark at the row-major index first, lets it through |
| FloodFill.Candidates | js/drawing.js:394-416 | at most four pushes, each exactly an in-bounds unmarked neighbour |
| FloodFill.FillStart | js/drawing.js:362-376 | the stack holding only the seed satisfies the loop invariant |
| FloodFill.FillStep | js/drawing.js:371-418 | one pop, test, paint and push keeps the loop invariant |
| FloodFill.FillMeasure | js/drawing.js:371-418 | each iteration lowers the count of unmarked pixels or, failing that, the stack's stale entries, so the loop ends |
| FloodFill.FillResult | js/drawing.js:371-418 | at loop exit the painted pixels are exactly the region, holding the fill colour, and the marks are the old ones plus the seed and the region's neighbours |
| Picking.Area | js/drawing.js:431-455 | the tally over the footprint box keeps every sum within 255 per counted pixel |
| Picking.Visit | js/drawing.js:446-453 | a visit counts a pixel exactly when it is in the footprint, and poisons the sums exactly when it counts an unreadable one |
| Picking.TallyRow | js/drawing.js:444-455 | a row of visits keeps every sum within 255 per count, never lowers the count and never clears poisoning |
| Picking.TallyRows | js/drawing.js:444-455 | the rows of visits keep every sum within 255 per count, never lower the count and never clear poisoning |
| Picking.Mean | js/drawing.js:457-460 | the truncated quotient of a sum by a count |
| Picking.Picked | js/drawing.js:427-472 | a pick of thickness 1 or less returns the pixel under the pointer; a wider one returns transparent black on a poisoned or empty tally, and otherwise each channel is its sum over the count, rounded down |
| Picking.Average | js/drawing.js:457-460 | each channel is its sum over the count, truncated; a poisoned or empty tally gives transparent black |
| Picking.CentreCounted | js/drawing.js:431-455 | with the pointer on the canvas and a thickness above 1, the pixel under the pointer is counted, so the average never divides by zero |
| Picking.BottomEdgeGivesTransparentBlack | js/drawing.js:440-460 | a circle or square pick with thickness above 1 whose box reaches row `height` yields transparent black, whatever the canvas holds |
| Picking.InteriorBoxIsClean | js/drawing.js:439-455 | when the box stays inside the buffer no visit is poisoned |
| Picking.UniformAreaGivesItsColour | js/drawing.js:431-461 | averaging a one-colour buffer gives that colour back whenever the tally is clean and not empty |
| History.Snapshot | js/drawing.js:598-601 | pushes the buffer onto the undo stack and empties the redo stack, keeping the buffer and the older entries |
| History.Undo | js/drawing.js:542-556 | succeeds exactly when there is something to undo: it brings back the top saved buffer and makes the step redoable; otherwise nothing changes |
| History.Redo | js/drawing.js:563-577 | succeeds exactly when there is something to redo: it brings back the top redo buffer and makes the step undoable; otherwise nothing changes |
| History.RedoUndoes | js/drawing.js:542-577 | a successful undo followed by a redo restores the whole history |
| History.UndoRedoes | js/drawing.js:542-577 | a successful redo followed by an undo restores the whole history |
| History.UndoRestoresEdit | js/drawing.js:542-601 | after a snapshot and an edit, undo gives back the buffer from before and redo the edited one |
| History.UndoAll | js/drawing.js:542-556 | the number of undos that succeed in a row is the height of the undo stack |
| History.UndoAllReachesOldest | js/drawing.js:542-556 | undoing as many times as there are snapshots reaches the oldest buffer and empties the undo stack |
| Drawing.Engine.constructor | js/drawing.js:160-181 | a fresh canvas of the given size, in newly allocated arrays, is opaque white, no pixel is marked and both stacks are empty |
| Drawing.Engine.SetTool | js/drawing.js:56-69 | a known tool name becomes the tool, an unknown one leaves it; the canvas is untouched and the current tool is returned |
| Drawing.Engine.SetShape | js/drawing.js:76-90 | a known shape name becomes the shape, an unknown one leaves it; the canvas is untouched and the current shape is returned |
| Drawing.Engine.SetOpacity | js/drawing.js:97-102 | stores the slider value as a fraction of `OpacityMax` and returns it |
| Drawing.Engine.SetDensity | js/drawing.js:109-114 | stores the slider value as a fraction of `DensityMax` and returns it |
| Drawing.Engine.SetThreshold | js/drawing.js:121-126 | stores the slider value as a fraction of `ThresholdMax` and returns it |
| Drawing.Engine.SetThickness | js/drawing.js:133-138 | stores the thickness and returns it |
| Drawing.Engine.SetColour | js/drawing.js:18 | sets the active colour and nothing else |
| Drawing.Engine.AlphaBlend | js/drawing.js:252-267 | the pixel at `k` becomes the blend of the active colour over it, and no other byte changes |
| Drawing.Engine.BrushAt | js/drawing.js:276-282 | the buffer and marks become one brush step of the specification |
| Drawing.Engine.AirbrushAt | js/drawing.js:291-299 | the buffer and marks become one airbrush step under the given random draws |
| Drawing.Engine.EraserAt | js/drawing.js:308-315 | the buffer and marks become one eraser step |
| Drawing.Engine.PixelAction | js/drawing.js:488 | dispatches on the tool to the specification step; tools without a per-pixel action change nothing |
| Drawing.Engine.ToolAction | js/drawing.js:480-492 | the buffer and marks become the specification's sweep of the box, so every sweep lemma holds of it |
| Drawing.Engine.ToolActionRows | js/drawing.js:486-490 | the rows of the box are swept as the specification says |
| Drawing.Engine.ToolActionRow | js/drawing.js:487-489 | one row of the box is swept as the specification says |
| Drawing.Engine.FillColour | js/drawing.js:353-356 | the fill colour has the active colour's red, green and blue and an alpha no larger than its alpha: equal at opacity 1 and 0 at opacity 0 |
| Drawing.Engine.StartStroke | js/drawing.js:497-499 | every mark is cleared and the buffer is untouched |
| Drawing.Engine.FillVisit | js/drawing.js:372-417 | one pop marks the pixel and tests it against the seed colour; a match is painted and pushes its open neighbours |
| Drawing.Engine.PushNeighbours | js/drawing.js:394-416 | the stack grows by exactly the in-bounds unmarked neighbours, in source order |
| Drawing.Engine.PushOne | js/drawing.js:395-398 | a neighbour is pushed exactly when it is on the canvas and unmarked |
| Drawing.Engine.Fill | js/drawing.js:337-420 | exactly the pixels of the region take the fill colour and the rest keep theirs; the marks become the old ones plus the seed and every neighbour of the region |
| Drawing.Engine.SampleArea | js/drawing.js:431-461 | the returned colour is the average of the tally over the footprint box |
| Drawing.Engine.SampleRow | js/drawing.js:445-454 | the running sums after one row are the specification's tally of that row |
| Drawing.Engine.Pick | js/drawing.js:427-472 | the active colour becomes the picked colour (average or single pixel); the canvas and the other settings are unchanged |
| Drawing.Engine.Snapshot | js/drawing.js:598-601 | the stacks change as the history snapshot says; buffer and settings are untouched |
| Drawing.Engine.Undo | js/drawing.js:542-556 | the result and the new buffer and stacks are the history undo; a success installs a new buffer |
| Drawing.Engine.Redo | js/drawing.js:563-577 | the result and the new buffer and stacks are the history redo; a success installs a new buffer |
| Drawing.Engine.CanUndo | js/drawing.js:583-585 | true exactly when the undo stack is not empty |
| Drawing.Engine.CanRedo | js/drawing.js:591-593 | true exactly when the redo stack is not empty |

## Left out

- `js/circular_selector.js` is not part of this model.
- The canvas, its 2D context and the `ImageData` object are left out. So are `d.canvas`, `putImageData` and the `canvasUpdate` event. The buffer is the model's array.
- The colour-picker widget `cpw` is the engine's `colour` field. `Drawing.Engine.SetColour` stands in for its setters and the picker writes the field directly. The jQuery `input` trigger is left out.
- `Math.random` is the `rand` parameter of a tool action: a function giving the number drawn at each visit.
- `console.log` on an invalid tool or shape name is left out; the setting just stays as it was.
- The unused helpers `distance` and `filled` are not modelled, because no operation calls them.
- Drawing.Engine.constructor: models `canvasResize` without an image, on a fresh engine. Drawing an image into the canvas and resizing an engine that is already in use are left out. The getters start at `null` in the source; the model picks defaults.
- Drawing.Engine.SetTool: accepts only the five tool names. The source also accepts the name of any other engine function (a shape name, `undo` and so on); `toolAction` would later call that function.
- Drawing.Engine.ToolAction: with the filler or the picker as the tool, the source fails on a call to an undefined function at the first visit. The model changes nothing and reports no error.
- Drawing.Engine.SetOpacity: requires a value in `0..OpacityMax`. The source divides whatever it is given.
- Drawing.Engine.SetDensity: requires a value in `0..DensityMax`, for the same reason.
- Drawing.Engine.SetThreshold: requires a value in `0..ThresholdMax`, for the same reason.
- Drawing.Engine.SetShape: accepts only the three shape names. The source accepts the name of any private engine function, the tool names `brush`, `airbrush` and `eraser` included, and a stroke with such a shape then calls itself without end; the model keeps the old shape instead.
- Drawing.Engine.SetThickness: takes a natural number. The source stores any JavaScript value.
- Drawing.Engine.Pick: requires that a one-pixel pick reads a pixel inside the buffer. Outside it the source passes `undefined` to the colour widget's setters, with an outcome the model does not define.
- Drawing.Engine.Fill: requires the seed to be on the canvas, because the source reads the seed's colour without checking.
- Stroke visits past the end of the buffer: the source grows its `done` array there and discards the byte writes. The model treats such a visit as changing nothing and keeps the marks at one per pixel.
- Arithmetic is exact: numbers are reals and integers, not IEEE doubles. A value truncated with `| 0` can therefore come out one higher in the model than in the program when the double falls just below an integer. For example, the eraser at opacity 30 on alpha 90 computes 90 × (1 − 0.3), which is 62.99999999999999 in doubles, and stores 62 where the model stores 63.
- The undo and redo methods replace the buffer array with a new one, as the source replaces its `ImageData`. Aliasing with other holders of the old array is left out.
