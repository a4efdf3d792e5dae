# Holographic portrait reveal, modelled in Dafny

This project models the logic of a portfolio page's "hologram" hero. The
page samples a portrait on a fixed 50 × 30 grid. It turns every sufficiently
opaque sample into a point and joins neighbouring points into a wireframe of
lines. It then schedules a paused animation timeline that reveals the lines
row by row, flashes them, fades the photo in and the mesh out. A playback
guard and a one-shot visibility observer start that timeline. The model also
covers the typed-name effect of the hero heading and the build's vendor-chunk
classifier.

Modules, one per part of the program:

- `Wrappers`: the `Option` type. It stands for JavaScript's `undefined`
  results and for the optional timeline.
- `Mesh`: the pure specification of the mesh builder. It defines the sample
  grid, the points, the point map keyed by (row, column), and the neighbour
  lines in creation order. It proves the topology of the result: which lines
  exist, that none repeats, their rows and their number. `SampleGrid` is
  the builder's nested sampling loop, proved against that specification.
- `Reveal`: the timeline `createSequence` builds, as a list of scheduled
  tweens. Each tween records its target, start offset, duration and values.
  The module proves that jitter never breaks row order, the phase ordering,
  each line's and the photo's final value, the opacity range and the total duration.
- `Hologram`: the mutable state of the stage.
  - `Line` objects carry a fixed shape and a mutable opacity.
  - `MeshGroup` holds the scene's children.
  - `Stage` holds `wireframes`, the loading indicator, the master timeline
    and the photo's opacity. It has the rebuild, sequence, replay and
    load/resize operations.
  - `VisibilityObserver` is the one-shot trigger.
- `Hero`: the `typeName` callback chain as a class holding the name element's
  text, the counter and the cursor class.
- `Chunks`: `manualChunks`, a priority chain of substring tests. `includes`
  is proved equal to "occurs at some position".

The sample grid is an input: a 50 × 30 matrix of RGBA bytes. The original
keys its point map by the strings `` `${r}-${c}` ``. The model keys it by the
pair `Cell(r, c)`, which identifies the same cells. For integer rows and
columns two keys are equal exactly when the pairs are. Floating-point
quantities are modelled as reals. The random jitter is an input stream whose
values lie in [0, 0.05). Element heights and the image's load state are
parameters.

Two behaviours of the code are kept as written:

- **Total duration.** The timeline does not end at a fixed 4.4 s. Its
  duration is max(4.5, 4.4 + (n − 1) · 0.002) for n lines: the photo's
  fade-in ends at 4.5 s, and the staggered fade-out ends later only for
  large meshes. `Reveal.TimelineDuration` proves this.
- **An empty rebuild keeps the old timeline.** A resize can produce no lines
  at all. In that case the previous timeline stays in place, still bound to
  the previous lines (`Stage.CreateSequence` keeps `timelineLines`).

## Model

| member | source | states |
|---|---|---|
| Mesh.ValidCell | src/main.js:77-80 | the test that makes a cell a point: inside the grid and alpha above 30 |
| Mesh.Brightness | src/main.js:78 | the brightness, the mean of the three channels, lies in [0, 255] |
| Mesh.Depth | src/main.js:83 | z lies in [-15, 15], and brightness is recovered from z as (z + 15) · 255 / 30 |
| Mesh.DepthMonotone | src/main.js:83 | depth is non-decreasing in brightness; black maps to -15 and white to 15 |
| Mesh.CellAt | src/main.js:71-72 | the n-th cell of the row-major scan lies in the grid and has index n |
| Mesh.CellAtIndex | src/main.js:71-72 | row-major numbering of the grid's cells is a bijection onto [0, 1500) |
| Mesh.MakePoint | src/main.js:81-85 | the point built for a cell carries that cell's (r, c), and its z lies in [-15, 15] |
| Mesh.Points | src/main.js:71-88 | `validPoints`: the point of every valid cell, scanning rows top to bottom and columns left to right |
| Mesh.KeyMap | src/main.js:87 | the map built by setting each point under its own (r, c), in list order; every point of the list is a key, and every stored point sits under its own cell |
| Mesh.PointMap | src/main.js:68-87 | `pointsMap`: the key map of `validPoints`, with every stored point under its own cell |
| Mesh.MaybeEdge | src/main.js:94 | one neighbour test: the line from the point to the neighbour under the given cell, or nothing when no point is stored there |
| Mesh.NeighbourEdges | src/main.js:93-97 | the lines one point creates: its right, below, below-right and below-left tests in that order; at most four, each starting at the point and tagged with its row |
| Mesh.EdgesOf | src/main.js:92-98 | the lines of a list of points, point by point in list order; at most four per point |
| Mesh.Wireframe | src/main.js:92-98 | `wireframes` as the builder leaves it: the lines of `validPoints` against `pointsMap`; at most four per point |
| Mesh.PointsMember | src/main.js:71-88 | a point is in `validPoints` iff its cell is in the grid, the cell's alpha exceeds 30, and the point is the one built from that cell |
| Mesh.PointsRowMajor | src/main.js:71-72 | `validPoints` is strictly increasing in row-major order, so no cell appears twice |
| Mesh.PointMapAt | src/main.js:80-88 | a cell is a key of `pointsMap` iff it is valid; the value stored is that cell's point |
| Mesh.NeighbourEdgesMember | src/main.js:93-97 | a point's lines go exactly from it, tagged with its row, to the present right, below, below-right or below-left neighbours |
| Mesh.NeighbourEdgesDistinct | src/main.js:94-97 | one point's four tests never create two lines to the same endpoint |
| Mesh.WireframeEdge | src/main.js:92-98 | a line is in `wireframes` iff both ends are valid cells, adjacent in one of the four directions, and it carries its first point's row; so no line goes outside the grid or to an invalid cell |
| Mesh.WireframeNoDuplicates | src/main.js:92-98 | no ordered pair of points is joined twice |
| Mesh.WireframeRows | src/main.js:92-107 | each line's row is its first point's row, lies in [0, 50), and never decreases along `wireframes` |
| Mesh.WireframeCount | src/main.js:92-98 | the number of lines is the sum over points of their present neighbours, and at most four per point |
| Mesh.NeighbourEdgesCount | src/main.js:94-97 | a point creates as many lines as it has present neighbours among its four |
| Mesh.SampleGrid | src/main.js:68-90 | the nested loops yield exactly the specified `validPoints` list and `pointsMap` |
| Mesh.SampleRow | src/main.js:72-89 | one pass of the column loop extends `validPoints` by exactly that row's valid points, and `pointsMap` stays the key map of the list |
| Reveal.RevealTime | src/main.js:145 | `row / gridRows * 2.5`; for a row inside the grid it lies in [0, 2.5) |
| Reveal.RevealStart | src/main.js:145-147 | a line's reveal starts in [row/50·2.5, row/50·2.5 + 0.05) |
| Reveal.JitterKeepsRowOrder | src/main.js:145-147 | with any jitter in [0, 0.05), a line of an earlier row starts revealing strictly before a line of a later row |
| Reveal.EdgeReveals | src/main.js:144-148 | one `fromTo` tween per line, in `wireframes` order: opacity 0 → 0.8 over 0.2 s from the line's reveal start |
| Reveal.Staggered | src/main.js:150-152 | a staggered tween over all n lines: line i starts at the phase offset plus i steps |
| Reveal.BuildTimeline | src/main.js:140-152 | the timeline has the scanner sweep, one reveal, one flash and one fade per line, and the photo's fade-in |
| Reveal.BuildTimelineAt | src/main.js:142-152 | position and content of every tween: scanner at 0; reveals 0 → 0.8 over 0.2; flash to 1 at 2.8 + i·0.001; photo to 1 at 3 over 1.5; fade to 0 at 3.2 + i·0.002 over 1.2 |
| Reveal.RevealFollowsRows | src/main.js:144-148 | in a built timeline, the reveal of a line of an earlier row starts before that of a later row |
| Reveal.RevealsBeforeFlash | src/main.js:145-150 | for rows in the grid every reveal starts in [0, 2.5) and has ended before the flash phase at 2.8 |
| Reveal.LineEndsInvisible | src/main.js:147-152 | each line has exactly three tweens (reveal, flash, fade); the fade to 0 ends last |
| Reveal.PhotoEndsVisible | src/main.js:151 | the photo's only tween is the fade to opacity 1 |
| Reveal.EndTime | src/main.js:140-152 | a timeline's duration is never negative |
| Reveal.EndTimeIsLatest | src/main.js:140-152 | no tween ends after the timeline's duration |
| Reveal.TimelineDuration | src/main.js:142-152 | the duration of a timeline over n ≥ 1 lines is max(4.5, 4.4 + (n − 1)·0.002) |
| Reveal.OpacitiesInRange | src/main.js:147-152 | every opacity the timeline starts from or moves to lies in [0, 1] |
| Hologram.Line.constructor | src/main.js:100-107 | a new line has the given endpoints and row, and opacity 0 |
| Hologram.Shapes | src/main.js:100-110 | one shape per line in `wireframes` |
| Hologram.Rows | src/main.js:145 | the `userData.row` of each line, in `wireframes` order |
| Hologram.LineRows | src/main.js:100-110 | lines built from the photo carry rows inside the grid, non-decreasing along `wireframes` |
| Hologram.IndexOf | src/main.js:62 | the first position of a line in the group's children, or -1 when absent |
| Hologram.MeshGroup.constructor | src/main.js:31 | a new group has no children and no rotation |
| Hologram.MeshGroup.Add | src/main.js:109 | the line is appended to the group's children |
| Hologram.MeshGroup.Remove | src/main.js:62 | the first occurrence of the line is removed, and nothing else changes |
| Hologram.Draws | src/main.js:146 | one jitter per line, each in [0, 0.05) |
| Hologram.Stage.State | src/main.js:136-163 | the playback state: no timeline before the first build, a built timeline that is idle, or one that is running |
| Hologram.Stage.Ready | src/main.js:55 | the early-return test: the mesh is built only with a 2D context and a loaded photo of non-zero height |
| Hologram.Stage.constructor | src/main.js:17-18 | the stage starts with no lines, the loading indicator shown and no timeline |
| Hologram.Stage.CreateLine | src/main.js:100-111 | a fresh line with opacity 0 and the given shape is appended to both the group and `wireframes` |
| Hologram.Stage.ClearWireframes | src/main.js:62-63 | every previous line leaves the group, and `wireframes` becomes empty |
| Hologram.Stage.ConnectTo | src/main.js:94 | one neighbour test: a line to the neighbour is appended iff the neighbour's cell is in `pointsMap`; the existing lines stay in place, in order |
| Hologram.Stage.ConnectPoint | src/main.js:92-98 | the lines appended for one point are exactly its neighbour lines, in test order, all fresh with opacity 0; the existing lines stay in place, in order |
| Hologram.NeighbourSteps | src/main.js:94-97 | the four tests run one after the other append exactly `NeighbourEdges` |
| Hologram.Stage.ConnectAll | src/main.js:92-98 | starting from an empty scene, the loop over `validPoints` leaves exactly the lines of all points, in order, each fresh and transparent |
| Hologram.Stage.CreateBodyMesh | src/main.js:54-114 | without a context or a loaded photo nothing changes; otherwise `wireframes` is exactly the specified mesh, every line fresh and transparent, the group holds the same lines and the loading indicator is hidden |
| Hologram.Stage.CreateSequence | src/main.js:137-153 | with no lines the previous timeline is kept; otherwise the master timeline becomes the built timeline over the lines' rows and one jitter draw per line, paused |
| Hologram.Stage.PlaySequence | src/main.js:155-163 | with no timeline, or one that is running, nothing changes; otherwise photo opacity 0, rotation (0, 0, 0), every line's opacity 0, and the timeline running |
| Hologram.Stage.Complete | src/main.js:147-152 | a finished timeline leaves every animated line at opacity 0 and the photo at 1, and is no longer running |
| Hologram.Stage.OnImageReady | src/main.js:165-179 | without a context or a loaded photo the lines and loading indicator are unchanged; otherwise `wireframes` is exactly the specified mesh of fresh transparent lines and the indicator is hidden; with lines, the timeline is rebuilt over their rows, bound to exactly those lines and idle; with none, the old timeline is kept with its lines and its running state; the new observer is connected |
| Hologram.Stage.OnResize | src/main.js:193-197 | the same rebuild and sequence outcomes as on load: when the photo is ready the old lines are all replaced by fresh transparent ones and the indicator is hidden; with lines, the timeline is rebuilt, bound to them and idle; with none, the old timeline is kept with its lines and its running state |
| Hologram.VisibilityObserver.constructor | src/main.js:170-178 | a new observer is connected |
| Hologram.VisibilityObserver.Notify | src/main.js:170-177 | a connected observer schedules one replay per intersecting entry and disconnects iff some entry intersects; a disconnected one does nothing |
| Hero.TaglineStarts | src/main.js:262-265 | with 1 s tweens placed at "-=0.7", the k-th tween starts at k·0.3 |
| Hero.TaglineTimeline | src/main.js:262-265 | tagline, subheading and button start at 0, 0.3 and 0.6, and the last ends at 1.6 |
| Hero.NameTyper.constructor | src/main.js:248-250 | the name element starts empty, with the counter at 0 and the cursor shown |
| Hero.NameTyper.TypeName | src/main.js:255-267 | while characters remain, one more is appended, so the text stays the name's prefix of length i, and another call is scheduled; otherwise the cursor is removed, the tagline starts, and nothing is scheduled |
| Hero.NameTyper.RunTyping | src/main.js:254-268 | the chain ends after exactly one more call than there are characters left, with the full name typed and the tagline started once |
| Chunks.Includes | vite.config.js:9-18 | `String.prototype.includes`: a left-to-right search for the pattern |
| Chunks.IncludesContains | vite.config.js:9-18 | the left-to-right `includes` search succeeds iff the pattern occurs at some position |
| Chunks.ManualChunks | vite.config.js:8-21 | the chunk is one of the four names, or none |
| Chunks.ScrollTriggerIsGsap | vite.config.js:9-14 | every id containing `gsap/ScrollTrigger` also contains `gsap` |
| Chunks.ScrollTriggerChunk | vite.config.js:9-11 | the chunk is `gsap-scroll-trigger` iff the id contains `gsap/ScrollTrigger` |
| Chunks.GsapChunk | vite.config.js:12-14 | the chunk is `gsap` iff the id contains `gsap` but not `gsap/ScrollTrigger`, whatever else it contains |
| Chunks.ThreeChunk | vite.config.js:15-17 | the chunk is `three` iff the id contains `three` and not `gsap` |
| Chunks.LottieChunk | vite.config.js:18-20 | the chunk is `lottie` iff the id contains `lottie-web` and neither `gsap` nor `three` |
| Chunks.NoChunk | vite.config.js:8-21 | no chunk is assigned iff the id contains none of `gsap`, `three` and `lottie-web` |

## Left out

- Three.js scene, camera, renderer, line geometry buffers, `fitCanvas` and rendering: a foreign rendering library. A line is only its endpoints, its row and its opacity.
- Drawing the photo on the hidden canvas and `getImageData` at `Math.floor` sample coordinates: the sampled RGBA grid is an input.
- x and y are computed as the source does, but nothing is proved about them. They are floating-point layout, modelled as reals.
- Floating-point rounding: every real-valued quantity is exact.
- GSAP tween semantics: easing, interpolation, `restart` internals and the time a timeline spends running. Only the scheduled tweens are modelled. At their end, `Stage.Complete` sets each line and the photo to its last tween's value; the scanner is not part of the stage's state.
- `Math.random()`: replaced by a jitter stream parameter with values in [0, 0.05).
- Pointer-driven rotation, the per-frame spin and the elastic return: floating-point animation driven by `requestAnimationFrame`.
- The modal, the scroll-triggered fade-ups, TagCanvas and the cube background: DOM widgets and timers outside the hologram.
- `setTimeout` delays (150 ms, 500 ms): a scheduled call is a returned flag or count, and the chain of calls is a loop.
- IntersectionObserver geometry and threshold: each entry is just whether it intersects.
- The image's `onload`/`onerror` wiring and the failure message: event plumbing. The load state is the `Image` parameter.
- The replay button's click handler: it calls `PlaySequence` directly.
- The tagline tweens' `y` offsets and easing: only their start offsets are modelled.
- Hologram.Stage.CreateSequence: a replaced timeline that is still running is not modelled. In the original it is never stopped, so it keeps animating the scanner, the photo and the removed lines until it ends. The model only forgets it.
- Hologram.Stage.PlaySequence: `restart` is only the timeline becoming active. Rewinding tween progress is not modelled.
- Hologram.Stage.Complete: the photo's and lines' final values are stated directly, not derived step by step from the timeline. `Reveal.LineEndsInvisible` and `Reveal.PhotoEndsVisible` prove that those are the values of each line's and the photo's last tween.
