# Verified model of the raster and frame-selection core of gft's plotting scripts

The scripts run the geodesic flight tracer (GFT) over three swept parameter
combinations and then post-process what it writes. This project models the
two pieces of logic they own and proves properties of them.

- `complexity.py`: every exterior-ring vertex of the land polygons is counted
  into an 18 x 36 grid of 10 degree cells (`Complexity.BuildHistogram`). The
  grid is upscaled 100 times by block filling into an RGB image
  (`Complexity.Upscale`, `Complexity.FillBlock`). An empty cell is white. A
  non-empty cell takes entry `round(min(255, 255 h / 66))` of a 256-entry
  colour table. The ring vertices are also projected to clamped pixel
  coordinates for drawing (`Complexity.ProjectRing`).
- `ripples_flight.py`: the frequency short-hands passed to GFT
  (`Ripples.ShortHands`) and the map from a distance in km to a step-file
  number (`Ripples.StepNumber`). Step files are named `istep=%06d.wkb.gz`
  and parsed back, and the latest one is found by string order
  (`Ripples.Latest`, `Ripples.LatestStepNumber`). The frame loop over
  distances 1 to 30000 (`Ripples.SelectFrames`, `Ripples.CollectStepFiles`)
  reuses existing frames and renders a new frame only when every
  combination has its step file.
- `Text` models the parts of Python's string handling those scripts use:
  `str.split`, `os.path.basename`, `int()`, the `%0Nd` format and `<` on
  `str`. `Wrappers` holds the `Option` type, where `None` stands for a
  Python exception or, in `StepNumber`, a combination the loop skips.

Modelling choices:
- Coordinates and pixel positions are `real`, and binning uses `.Floor`.
- Counts are unbounded `nat`.
- The histogram is an `array2<nat>` updated in place. The image is an
  `array2<Rgb>`, because a pixel's three channels are always assigned
  together.
- The polygons are a sequence of exterior rings. The colour table is the
  input `turbo`, a 256-entry sequence.
- Existing files are a `set<string>`. A directory listing is a sequence of
  base names.
- The directory names depend on float formatting of the precision and the
  start point, so they are inputs: `Setup.stepDirs` and `Setup.frameDir`.
- Rendering a frame is modelled as a `Render` record. It holds the
  distance, the frame name and the step files the frame would be drawn from.

Where the model and the code could seem to differ:
- `complexity.py:197-202` computes `255 h / 66` in float64 and rounds with
  Python's `round`, which sends ties to the even integer. For integer `h`
  the quotient is a tie for h = 11, 33 and 55 (42.5, 127.5, 212.5). Those
  values are exact in float64, and every other quotient is at least 1/44
  away from a tie. So `ColourIndex` uses exact integer round-half-even and
  agrees with the float code for every count.
- `ripples_flight.py:259` computes `istep = 1000 dist // prec - 1`, and the
  file name uses `istep + 1`. `StepNumber` returns that file number,
  `istep + 1`, directly. `CollectStepFiles` computes `istep` exactly as the
  code does.
- Each rendered frame is saved into the frame directory as the loop runs
  (`ripples_flight.py:416`), but `Setup.existing` stays fixed. This changes
  nothing: a later distance has a different frame name (`FrameNameInjective`),
  and a frame name is never a step file's path (`FrameIsNotStepFile`).
- The floor quotients of the step arithmetic live in the small `Arith` module.

## Model

| member | source | states |
|---|---|---|
| `Complexity.LonBin` | complexity.py:162 | the column is always in [0, 36); for a longitude in [-180, 180) it is the 10 degree cell containing it; west of -180 it is 0 and from 180 on it is 35 |
| `Complexity.LatBin` | complexity.py:163 | the row is always in [0, 18); for a latitude in (-90, 90] it is the 10 degree band (counted from the north) containing it; north of 90 it is 0 and from -90 south it is 17 |
| `Complexity.CountVertex` | complexity.py:162-166 | counting one vertex raises the count of exactly its own cell by exactly 1; every other cell is unchanged |
| `Complexity.BuildHistogram` | complexity.py:150-166 | a fresh histogram in which each cell holds the number of ring vertices in it, and whose grand total equals the number of vertices |
| `Complexity.CountAppend` | complexity.py:166 | one more vertex adds one to its own cell's count and nothing to any other |
| `Complexity.GridCountTotal` | complexity.py:157-166 | conservation: the counts of all 18 x 36 cells add up to the number of vertices |
| `Complexity.GridSumIsCount` | complexity.py:151-166 | the sum over the histogram array equals the sum of the cell counts it holds |
| `Complexity.RoundHalfEven` | complexity.py:197-202 | Python `round(n / d)`: the result is within 1/2 of n/d, and on a tie it is even |
| `Complexity.ColourIndex` | complexity.py:197-203 | the colour index of a non-empty cell is at most 255, so the lookup in a 256-entry table is in bounds; it is 255 from 66 on, and below that it is the nearest integer to 255 h / 66, the even one on a tie |
| `Complexity.CellColour` | complexity.py:196-205 | an empty cell is white; a non-empty cell takes an entry of the colour table, and from 66 vertices on the last entry |
| `Complexity.ColourIndexMonotone` | complexity.py:197-203 | a larger count never gets a smaller colour index |
| `Complexity.BlockOf` | complexity.py:184-191 | a pixel row or column p lies in block i0 exactly when i0 = p / 100, so the blocks tile the image and each pixel belongs to one block |
| `Complexity.FillBlock` | complexity.py:194-205 | every pixel of block (iLat0, iLon0) gets the colour of cell (iLat0, iLon0), and every other pixel is unchanged |
| `Complexity.Upscale` | complexity.py:179-205 | the image is 1800 x 3600; every pixel depends only on the count of its block's source cell; a zero count gives white, and a non-zero count gives table entry ColourIndex(count) |
| `Complexity.PixelX` | complexity.py:223 | the drawing x-coordinate lies in [0, 3600]; inside [-180, 180] it is 10 (lon + 180), west of -180 it is 0 and east of 180 it is 3600 |
| `Complexity.PixelY` | complexity.py:224 | the drawing y-coordinate lies in [0, 1800]; inside [-90, 90] it is 10 (90 - lat), north of 90 it is 0 and south of -90 it is 1800 |
| `Complexity.DrawnInOwnBlock` | complexity.py:221-225 | the drawn position of a vertex lies on the closed block of the cell that the vertex was counted in |
| `Complexity.ProjectRing` | complexity.py:218-225 | the coordinate list has one clamped point per ring vertex, in ring order |
| `Ripples.ShortHands` | ripples_flight.py:168-170 | freqPlot equals freqSimp; both are the number of whole steps in one hour (928000 m), and freqLand the number in eight hours |
| `Ripples.LandIsEightPlots` | ripples_flight.py:168-170 | when the step divides an hour exactly, freqLand is 8 times freqPlot |
| `Ripples.CombsShortHands` | ripples_flight.py:135-139 | for the three swept precisions an hour is a whole number of steps and freqLand is 8 times freqPlot: (64, 8, 8), (128, 16, 16) and (256, 32, 32) |
| `Ripples.StepNumber` | ripples_flight.py:257-259 | a step number found for dist satisfies (istep + 1) prec = 1000 dist, and it is at least 1 for dist of at least 1 |
| `Ripples.StepNumberComplete` | ripples_flight.py:257-259 | every n with n prec = 1000 dist is the step number found, so a combination is skipped only when prec does not divide 1000 dist |
| `Arith.FloorQuot` | ripples_flight.py:168-170 | Python's `a // b` is the q with q b <= a < (q + 1) b |
| `Arith.DivModUnique` | ripples_flight.py:257-259 | Python's `//` and `%` for a positive divisor are the unique quotient and remainder |
| `Ripples.ParseStep` | ripples_flight.py:218 | a name without `=` does not parse (Python raises `IndexError`) |
| `Ripples.StepNameRoundTrip` | ripples_flight.py:218 | parsing the name `istep=%06d.wkb.gz` written for n gives back n, for every n of 0 or more |
| `Ripples.StepPathRoundTrip` | ripples_flight.py:217-218 | taking the base name of a step file's path and parsing it gives back the step number |
| `Ripples.StepNameMatches` | ripples_flight.py:217 | a step file's name matches the pattern `istep=??????.wkb.gz` exactly when its number is below 10^6 |
| `Ripples.StepNameOrder` | ripples_flight.py:217 | for numbers below 10^6, step names compare as strings exactly as their numbers compare |
| `Ripples.Latest` | ripples_flight.py:217 | `sorted(glob)[-1]`: None exactly when nothing matches the pattern; otherwise a matching name from the listing that no other matching name exceeds |
| `Ripples.LatestStepNumber` | ripples_flight.py:217-218 | no number when nothing in the listing matches the pattern (Python's `IndexError`); otherwise the result is the parse of the matching name that no other match exceeds in string order, so only that last match has to parse |
| `Ripples.LatestIsLargestStep` | ripples_flight.py:217-218 | for any listing with at least one match, whose matching names are all step files numbered below 10^6 (other files, such as the `.geojson` written beside each step, may be present), the latest step parsed is a listed step and the largest step number listed |
| `Ripples.FrameNameInjective` | ripples_flight.py:243 | different distances below 10^5 give different frame names |
| `Ripples.FrameIsNotStepFile` | ripples_flight.py:416 | a frame's name is never the path of a step file, so saving frames leaves the step files untouched |
| `Ripples.StepFilesComplete` | ripples_flight.py:254-279 | at most one file per combination is collected; all are collected exactly when every combination has its step file; the collected files are then in combination order, one per combination |
| `Ripples.CollectStepFiles` | ripples_flight.py:251-276 | the inner loop over combinations, with its two skips, collects exactly `StepFiles`: the existing step file of each combination whose precision divides 1000 dist, in combination order |
| `Ripples.Decide` | ripples_flight.py:243-280 | an existing frame is reused; a missing frame is skipped exactly when some combination lacks its step file; a build takes one input per combination |
| `Ripples.BuildExactly` | ripples_flight.py:243-280 | a frame is rendered exactly when its file does not exist and every combination has its step file; input k is then combination k's file, whose number times prec is 1000 dist |
| `Ripples.SelectFrames` | ripples_flight.py:238-280 | the loop over distances 1 to 30000 produces exactly `Frames` (reused and rendered frames, in distance order) and `Renders` (the frames rendered, each with its input files) |
| `Ripples.FramesOfChosen` | ripples_flight.py:243-246 | the frame list is the frame names of the chosen distances, in order |
| `Ripples.ChosenOrdered` | ripples_flight.py:241-246 | the chosen distances lie in 1..n and strictly increase |
| `Ripples.ChosenExactly` | ripples_flight.py:241-280 | a distance is chosen exactly when it lies in 1..n and its frame is reused or rendered |
| `Ripples.FramesDistinct` | ripples_flight.py:428 | no frame appears twice in the list |
| `Ripples.RendersSound` | ripples_flight.py:278-284 | every render is of a frame that did not exist, at a distance in 1..n where `Decide` says to build it from exactly those inputs |
| `Ripples.RendersComplete` | ripples_flight.py:278-284 | every distance in 1..n where `Decide` says to build is rendered |
| `Ripples.ReusedFrame` | ripples_flight.py:243-246 | an existing frame is put in the list and never rendered again |
| `Ripples.CombsStepAt` | ripples_flight.py:257 | with precisions 116000, 58000 and 29000, every combination has a step at dist exactly when 116 divides dist |
| `Ripples.CombsRenderOnMultiplesOf116` | ripples_flight.py:279 | with the swept combinations, a new frame is only rendered at a multiple of 116 km |
| `Text.ZeroPad` | ripples_flight.py:271 | `%0wd` gives only digits and at least w of them, exactly w for numbers below 10^w, and no leading zero when it needs more than w |
| `Text.ZeroPadValue` | ripples_flight.py:218 | reading a zero-padded number back gives the number |
| `Text.ParseInt` | ripples_flight.py:218 | `int()` succeeds exactly on a non-empty string of digits |
| `Text.Split` | ripples_flight.py:218 | `str.split` returns at least one part, and no part contains the separator |
| `Text.SplitJoin` | ripples_flight.py:218 | joining the parts of a split with the separator gives back the string |
| `Text.SplitAround` | ripples_flight.py:218 | splitting at one occurrence of the separator splits the two sides independently |
| `Text.Basename` | ripples_flight.py:218 | the base name contains no `/` |
| `Text.BasenameOfJoin` | ripples_flight.py:218 | the base name of `dir + "/" + name` is `name` when `name` has no `/` |
| `Text.FixedLexOrder` | ripples_flight.py:217 | fixed-width digit strings compare as strings exactly as their numbers compare |
| `Text.LexTotal` | ripples_flight.py:217 | Python's string order is total: two distinct strings are ordered one way |
| `Text.LexTransitive` | ripples_flight.py:217 | Python's string order is transitive |

## Left out

- Running GFT as a subprocess and building its command line (ripples_flight.py:172-201, complexity.py:96-123). This is process plumbing.
- Loading the gzip/WKB geometry and the JSON colour table (complexity.py:83-84, 153-155). The polygons and the table are inputs.
- The loop over combinations in complexity.py (lines 137-146), with its `os.path.exists` skip. The model covers one combination's polygons.
- The per-combination survey loop's `maxDist`/`maxDur` float arithmetic and printing (ripples_flight.py:221-224). The model keeps the latest-step pick that feeds it.
- All matplotlib, cartopy, PIL and media work: figures, buffers, great circles, line drawing, `fromarray`, PNG optimisation, MP4 assembly (ripples_flight.py:284-415, 417-427 and 429-462, complexity.py:208-216 and 226-241). A frame's rendering is recorded only as a `Render`.
- The progress print of the histogram's maximum (complexity.py:168). It is output only and computes nothing the model uses.
- Directory creation and the float-formatted directory names (`{prec:.2e}`, `{lon:+011.6f}`). The names are inputs.
- gft/saveAllLands.py: Natural Earth reading and buffering, union and simplification through external libraries, and file writing. It holds no logic of its own.
- Complexity.BuildHistogram: the histogram counters are unbounded, not numpy `uint64`. Wrap-around would need 2^64 vertices.
- Complexity.ColourIndex: exact rational arithmetic replaces float64. As noted above, the results agree for every integer count.
- Text.ParseInt: only plain ASCII digit strings are accepted. Python's `int()` also accepts a sign, surrounding whitespace, underscores and non-ASCII digits. Such names never come from the `%06d` format.
- Ripples.Matches: the directory listing holds base names, so glob's rule that `?` does not match `/` does not come up. The listing's order does not matter, because only the maximum is taken.
