# Mind-bending visual effects: a verified model of the effect state

The program is a full-screen demo that runs one of six procedural animations
at 60 frames per second: digital rain, plasma, tunnel, fire, DNA helix and
starfield. Number keys pick the effect, F toggles fullscreen, H toggles the
overlay, and Escape or closing the window quits. This project models the
discrete state that the effects keep from frame to frame, plus the input
handling of the main loop:

- **Digital rain** (`matrix_rain.dfy`, `glyph_queue.dfy`). There is one drop
  per 20-pixel column. Each drop has a position, a speed, a font size and a
  bounded glyph history: a deque with a fixed maximum length that evicts its
  oldest glyph when full. Also modelled: rebuilding the columns, the per-frame
  fall and respawn rule, and the colour ramp of the glyphs.
- **Fire** (`fire.dfy`). A heat grid of `(height + 2) x width` cells, stored in
  a two-dimensional array that is updated in place. `StepGrid` is a pure
  function on the grid's rows. `Fire.Update` is proved to compute it, and the
  heat-range invariant is proved about it. The heat-to-colour ramp is modelled
  too.
- **Starfield** (`starfield.dfy`). A pool of 500 stars whose depth falls by
  0.02 per frame and is recycled to 2. Also modelled: the closeness, brightness
  and dot size derived from the depth.
- **Main loop input handling** (`events.dfy`). Each event is a transition on
  the state (selected effect, fullscreen, overlay, running flag, window size).
  A loop drains one frame's batch of events. Alongside the state it records
  the window width at every rebuild of the rain.
- `numeric.dfy` holds the RGB colour type and Python's `int()` on floats,
  which is truncation toward zero.

Random draws (`randint`, `uniform`, `random`, `choice`) are parameters of the
operations. Each has a precondition stating the range the draw comes from.
The native display size that a fullscreen window takes is also a parameter.
The window size is a parameter of the operations that read it, not a global.

Three behaviours of the code that a reader might not expect, all modelled as
written:

- Glyph 0 of a rain column, the one drawn white at the drop's head, is the
  OLDEST glyph still in the deque, not the newest: the deque is enumerated
  from its left end, and new glyphs are appended on the right. `GlyphColour`
  takes the index as the code enumerates it.
- The fire grid is sized once, in `Fire.__init__`, from the start-up window
  size, and is not resized on fullscreen or resize events, although the rain
  is rebuilt on those. `FireSim.Fire` has constant dimensions.
- A quit event does not stop the handling of the rest of that frame's events.
  The whole batch is drained, and the frame is still updated and presented.
  `MainLoop.Drain` handles every event of the batch.

## Model

| member | source | states |
|---|---|---|
| `Numeric.Trunc` | Effects.py:197-201 | `int()` of a float is the integer toward zero within one unit of it, for both signs |
| `GlyphQueues.Newest` | Effects.py:47 | the retained part of a history is its last `maxlen` elements, in order |
| `GlyphQueues.Empty` | Effects.py:47 | a new deque is empty, within its bound, with the given maximum length |
| `GlyphQueues.Append` | Effects.py:63-64 | appending keeps the bound and the maximum; below the maximum the glyph is added at the end; when full, the oldest glyph is dropped and the length stays `maxlen` |
| `GlyphQueues.Clear` | Effects.py:60 | clearing empties the deque and keeps its maximum length |
| `GlyphQueues.AppendAll` | Effects.py:63-64 | any sequence of appends keeps the deque within its bound and keeps its maximum |
| `GlyphQueues.AppendAllKeepsNewest` | Effects.py:63-64 | after any appends the deque holds exactly the newest `maxlen` glyphs it was given, oldest first; its length is the smaller of the total and `maxlen` |
| `Rain.NewDrop` | Effects.py:43-49 | a rebuilt drop for column `i` has `x = 20 i`, `y` in [-500, 0], an empty history of the drawn maximum, and all drop ranges |
| `Rain.DropStep` | Effects.py:54-64 | past `height + 100` a drop respawns at the drawn `y` and speed with an emptied history (holding only the new glyph if one is emitted); otherwise it advances by its speed; `x`, font size and maximum never change; afterwards `y <= height + 100`; the drop ranges are preserved |
| `Rain.Intensity` | Effects.py:71 | the intensity `(len - i) / len` lies in (0, 1] and is 1 only for glyph 0 |
| `Rain.GlyphColour` | Effects.py:68-80 | glyph 0 and only glyph 0 is white; any other glyph is bright green above intensity 0.7, green in (0.4, 0.7] and dim green at or below 0.4; every channel is in [0, 255] |
| `Rain.IntensityAntitone` | Effects.py:71 | intensity does not increase with the glyph's index |
| `Rain.GlyphColourFades` | Effects.py:68-80 | past glyph 0, no channel brightens further along the history |
| `Rain.MatrixRain.constructor` | Effects.py:33-37 | the rain starts with the columns of the start-up width, built as by `ResetDrops` |
| `Rain.MatrixRain.ResetDrops` | Effects.py:39-49 | afterwards there are `width // 20` drops; drop `i` has `x = 20 i`, `y` in [-500, 0], speed in [3, 8], font size in [16, 24] and an empty history of maximum in [15, 30] |
| `Rain.MatrixRain.Update` | Effects.py:51-64 | every drop takes one `DropStep` with its own draws; the invariant holds; no drop lies below `height + 100` |
| `FireSim.LeftOf` | Effects.py:174 | the left neighbour column of a column in the grid is in the grid: the column to the left, or column 0 at the edge |
| `FireSim.RightOf` | Effects.py:175 | the right neighbour column of a column in the grid is in the grid: the column to the right, or the last column at the edge |
| `FireSim.Cooled` | Effects.py:177-182 | a new heat is exactly the larger of 0 and the average of its four sources less the cooling: never negative, never below the average less the cooling, equal to it when positive, and never hotter than the hottest source |
| `FireSim.Seeded` | Effects.py:168-169 | the seed row holds exactly the drawn seeds and every other row is unchanged |
| `FireSim.StepGrid` | Effects.py:164-182 | one frame of the grid keeps its shape of `height + 2` rows of `width` cells |
| `FireSim.StepRows` | Effects.py:167-182 | after a frame the seed row is the seeds, in [200, 255]; row `height + 1` is untouched; each visible cell is computed from the pre-frame rows below it through clamped columns, except that reads of the seed row see the new seeds |
| `FireSim.StepKeepsInvariant` | Effects.py:164-182 | a frame keeps every cell in [0, 255] and the bottom row cold |
| `FireSim.Run` | Effects.py:164-182 | any number of frames keeps the grid's shape |
| `FireSim.RunKeepsInvariant` | Effects.py:164-182 | however many frames run, every cell stays in [0, 255] and the bottom row stays cold |
| `FireSim.FireColour` | Effects.py:190-201 | white-hot (255, 255, 200) exactly above 200; yellow (255, 255, 0) exactly in (150, 200]; (255, int(1.5 heat), 0) in (100, 150]; (int(2 heat), 0, 0) in (50, 100]; (int(heat), 0, 0) at or below 50; for heat in [0, 255] every channel is in [0, 255]; blue is non-zero only above 200; green is zero and red below 255 exactly up to 100 |
| `FireSim.FireColourMonotone` | Effects.py:190-201 | a hotter cell is no darker in any channel |
| `FireSim.Fire.constructor` | Effects.py:158-162 | the grid has `width = W // 4` and `height = H // 4` for the start-up window size W x H, and every cell is cold |
| `FireSim.Fire.Update` | Effects.py:164-182 | the in-place, top-to-bottom update of the array computes `StepGrid` of the old grid, and the heat invariant holds afterwards |
| `Stars.NextDepth` | Effects.py:256-261 | a depth in (0, 2] stays in (0, 2] after a frame; it becomes 2 exactly when it had reached 0.02 or less |
| `Stars.StarStep` | Effects.py:255-261 | a star at depth 0.02 or less is recycled to depth 2 at the drawn position; otherwise it keeps its position; star ranges are preserved |
| `Stars.Speed` | Effects.py:268 | for a depth in (0, 2] the closeness `1 - z / 2` is in [0, 1), and 0 only at depth 2 |
| `Stars.Brightness` | Effects.py:270 | for a depth in (0, 2] the brightness is in [0, 254] |
| `Stars.DotSize` | Effects.py:269 | for a depth in (0, 2] the dot size is in [1, 3] |
| `Stars.NearerIsBrighter` | Effects.py:268-270 | a nearer star is never dimmer or smaller |
| `Stars.DepthFalls` | Effects.py:256 | until it is recycled, a star's depth falls by exactly 0.02 per frame |
| `Stars.RecycledWithin` | Effects.py:256-261 | a star at depth z is recycled within any n frames with z <= 0.02 n |
| `Stars.PoolStarRecycled` | Effects.py:255-261 | every star of the pool is recycled within 100 frames |
| `Stars.Starfield.constructor` | Effects.py:240-248 | the pool holds the 500 drawn stars |
| `Stars.Starfield.Update` | Effects.py:250-261 | every star takes one `StarStep`; afterwards each star's depth is in (0, 2] |
| `MainLoop.EffectAt` | Effects.py:287-294 | the registry holds rain at 0, plasma at 1, tunnel at 2, fire at 3, DNA helix at 4 and starfield at 5, each at exactly one index |
| `MainLoop.Step` | Effects.py:302-336 | keys 1 to 6 select effects 0 to 5 and change nothing else; F toggles fullscreen and takes the display size or 1200 x 800; H toggles the overlay; quit and Escape clear the running flag; resize takes the new size; other events change nothing; exactly key 1, F and resize rebuild the rain; the index stays in [0, 5] |
| `MainLoop.Drain` | Effects.py:301-336 | draining a batch keeps the index in [0, 5] and rebuilds the rain once per key 1, F or resize in the batch |
| `MainLoop.HandleEvents` | Effects.py:302-336 | the event loop computes `Drain` of the batch |
| `MainLoop.DrainStops` | Effects.py:303-308 | the loop stops after a frame exactly when it was already stopping or the batch held a quit or Escape |
| `MainLoop.RainMatchesFinalWidth` | Effects.py:322-336 | the last rebuild of the rain in a batch uses the final window width; a batch without rebuilds leaves the size unchanged |
| `MainLoop.DigitSelects` | Effects.py:309-321 | pressing number key n makes effect n - 1 the one drawn (key 3 selects the tunnel) |
| `MainLoop.InitialState` | Effects.py:296-300 | the loop starts on the rain, with the overlay shown, running, not fullscreen |

## Left out

- `PlasmaWave`, `TunnelZoom` and `DNAHelix` are not modelled. They are floating-point trigonometry used only to paint, with no state beyond a time counter.
- Painting is not modelled: fills, rectangles, circles, lines, fonts, text rendering, blits, the overlay, the FPS counter, window creation, presenting the frame and frame pacing. These are calls into the graphics library.
- The glyph drawing positions and their on-screen test are not modelled, nor is the glyph alphabet; a glyph is any character.
- The starfield's projection to the screen, its on-screen test and its trails are not modelled. They are float-to-pixel painting coordinates, so `Brightness` and `DotSize` are stated for every star rather than only for the stars that are drawn.
- The fire grid's scaling onto the window is not modelled.
- The random number generator is not modelled. Every draw is a parameter, constrained to its documented range. `random.uniform` is taken to return values in its closed interval.
- Floating point is modelled by exact reals. The 0.02 depth step, the heat averages and the intensity thresholds ignore IEEE rounding.
- Each drop and star is modelled as a value in a sequence field that is replaced per index. The source mutates dictionaries in place, but no dictionary is shared, so no aliasing is lost.
- The frame loop is not composed into one operation. The effect updates, the event handling and the dispatch to the selected effect (`effects[current].update`) are each modelled on their own. `MainLoop.DigitSelects` covers which effect gets dispatched.
- MainLoop.HandleEvents records the width for each rain rebuild, but it does not itself call `MatrixRain.ResetDrops`. A rebuild takes fresh random draws, and these stay with the caller.
