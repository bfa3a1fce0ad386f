# Ant-trail simulations of `script.js`, modelled in Dafny

`script.js` drives two small grid simulations in which ants coordinate
through a shared pheromone field. This project models the state changes of
both as imperative Dafny and proves what they promise.

- **Map-aware ant walk** (`AntWalk`, `ant_walk.dfy`).
  - State: 220 ants on the integer cells of a `COLS x ROWS` grid, a mutable
    pheromone field and a read-only brightness ("bias") taken from the
    background map, a function from cells to reals.
  - On each step an ant scores its in-bounds axis-aligned neighbours by
    `bias + 15 * pheromone` and keeps the first one with the strictly
    greatest score.
  - With probability 0.25, or when no neighbour is on the grid, the ant
    replaces that choice by a random direction instead.
  - It then moves (clamped to the grid) and deposits 4.0 on its new cell.
  - A tick steps every ant in order, then multiplies every cell by 0.995.
  - Classes: `Grid` (the pheromone as an `array2<real>` and the bias),
    `Ant` (mutable `x`, `y`) and `MapSimulation`.
  - Where each ant goes is stated by `Grid.Walked`. Ant m lands on
    `Grid.TargetIn` of the field at the start of the pass, plus DEPOSIT for
    every landing of ants 0..m-1 on that cell. So each ant sees the
    deposits of the ants that stepped before it.
- **File-scan simulation** (`FileScan`, `file_scan.dfy`).
  - State: 50 ants with real positions and velocities drift over an
    80 x 40 grid among 80 files.
  - When an ant comes within 1.5 cells of a file, the file becomes scanned
    and `filesScanned` increases.
  - When that file is a threat, `threatsFound` increases, the ant's cell
    gains 5 units of pheromone, and a threat path with age 20 is appended.
  - Each frame then evaporates every cell above 0.5 by 2% and ages the
    threat paths by one frame, dropping the dead ones.
  - The class `Scanner` holds the files, ants and paths as `seq` fields, the
    pheromone as an `array2<real>`, and the two counters.
  - Each method is proved against specification functions on values:
    - `MoveAsWritten` / `MoveAll` for movement, with the wall test as the
      source writes it (see Findings);
    - `ScanStep` / `ScanAll` for the detections;
    - `Evaporated` for evaporation;
    - `Aged` / `Aging` for path aging.

  The proved facts about those functions are listed below.

`Math.random` becomes explicit draws in `[0, 1)` passed as parameters. The
brightness of the map becomes a read-only function of the cell.

## Model

| member | source | states |
|---|---|---|
| Draws.FloorOfScaledDraw | script.js:94-95 | For a draw `r` in `[0, 1)` and n ≥ 1, `floor(r * n)` lies in `[0, n-1]`. Both simulations use this to place ants and files with `Math.floor(Math.random() * n)`. |
| AntWalk.Clamp | script.js:130-131 | `Math.max(0, Math.min(n-1, v))` lies in `[0, n-1]`. It is `v` inside the line, 0 below it and `n-1` above it. |
| AntWalk.RandomDir | script.js:127 | The random index lies in 0..3 and is the floor of `draw * 4`. |
| AntWalk.DepositsIsProduct | script.js:133 | n ants landing on a cell add exactly `4.0 * n`. |
| AntWalk.Decayed | script.js:148 | One decay keeps a non-negative level non-negative and never raises it. It strictly lowers a positive level. |
| AntWalk.IsFirstBest | script.js:106-124 | In the specification of the greedy choice, the chosen candidate is present, and it is the first among the present candidates with the top score. |
| AntWalk.FirstBest | script.js:106-124 | The candidate that the scan with `best`/`bestScore` holds is a present (in-bounds) one. |
| AntWalk.FirstBestIsFirstBest | script.js:106-124 | The scan yields None exactly when no neighbour is in bounds. Otherwise no present candidate scores higher than its pick and every earlier one scores strictly lower. |
| AntWalk.FirstBestUnique | script.js:120-123 | That characterisation admits exactly one choice, so the selection rule is deterministic. |
| AntWalk.TieGoesToFirst | script.js:120-123 | When all present candidates tie, the first one in the order `(+1,0),(-1,0),(0,+1),(0,-1)` wins. |
| AntWalk.CountAt | script.js:133 | A cell is landed on at most as many times as there are landings. |
| AntWalk.CountAtSnoc | script.js:133 | One more landing adds one to the count of its own cell and nothing to any other. |
| AntWalk.DepositsSnoc | script.js:133 | One more ant landing on p adds exactly DEPOSIT on p and nothing on any other cell. |
| AntWalk.CountAtPositive | script.js:155 | A cell is counted exactly when some ant landed on it. |
| AntWalk.Grid.constructor | script.js:84-86 | A `COLS x ROWS` pheromone field, all zero. |
| AntWalk.Grid.ScoreAt | script.js:111-118 | A neighbour gets a score exactly when it is on the grid. |
| AntWalk.Grid.Candidates | script.js:109-118 | There are four scores in the order of `dirs`. Each is present exactly when that neighbour is on the grid. |
| AntWalk.Grid.ScoreIn | script.js:111-118 | The same presence rule when the scores read a given pheromone field. |
| AntWalk.Grid.CandidatesIn | script.js:109-118 | The four scores over a given pheromone field. Each is present exactly when that neighbour is on the grid. |
| AntWalk.Grid.ChooseGreedy | script.js:106-124 | The loop with `best`/`bestScore` returns FirstBest of the candidates. It returns None exactly when no neighbour is on the grid, and otherwise an in-bounds direction. |
| AntWalk.Grid.Target | script.js:126-131 | The cell an ant steps to is on the grid and at most one cell away on each axis. |
| AntWalk.Grid.Destination | script.js:126-131 | The override and the clamp always give a cell on the grid. From a cell on the grid, that cell is at most one step away on each axis. |
| AntWalk.Grid.TargetInField | script.js:117-118 | The target depends on the pheromone only through its values on the grid. So Target of the array equals TargetIn of any field that agrees with it there. |
| AntWalk.Grid.GreedyTarget | script.js:120-131 | Take an exploration draw of at least 0.25 and some neighbour on the grid. The ant then moves, unclamped, to the first strictly best neighbour. |
| AntWalk.Grid.ExploreTarget | script.js:126-131 | When the greedy choice is overridden, the ant takes the random direction if it stays on the grid. If it would leave the grid, the clamp keeps the ant where it is. |
| AntWalk.Grid.WalkedStaysNear | script.js:126-131 | On a walk, every ant lands on the grid. An ant that started on the grid lands at most one cell away on each axis. |
| AntWalk.Grid.WalkedSnoc | script.js:155 | A walk extended by the target of the next ant is still a walk. That target is taken in the field holding the deposits of all the ants before it. |
| AntWalk.Grid.WalkedNext | script.js:133-155 | Suppose the pheromone array holds the start field plus the deposits of the ants so far. Then extending the walk by the next ant's Target of that array is still a walk. |
| AntWalk.Grid.Evaporate | script.js:139-150 | Every cell becomes its decay, once. A non-negative field stays non-negative. |
| AntWalk.Ant.constructor | script.js:93-96 | A new ant sits on cell `(floor(rx*COLS), floor(ry*ROWS))`, which is on the grid. |
| AntWalk.Ant.Step | script.js:98-134 | The ant moves to Grid.Target of the field it sees. Its new cell gains exactly DEPOSIT and no other cell changes. |
| AntWalk.PositionsOf | script.js:155 | There is one cell per ant. |
| AntWalk.PositionsOfAt | script.js:155 | Entry m of the positions is ant m's cell. |
| AntWalk.MakeAnts | script.js:137 | There is one fresh ant per pair of draws, each on its floored cell. |
| AntWalk.MapSimulation.constructor | script.js:80-137 | Builds the grid from the canvas size in cells, with an all-zero field and ANT_COUNT ants on their drawn cells, so the invariant holds. |
| AntWalk.MapSimulation.StepAnt | script.js:155 | Ant k moves to Grid.Target of the field as it stands when its turn comes. Its new cell gains DEPOSIT and no other ant moves. |
| AntWalk.MapSimulation.StepAll | script.js:155 | The ants step in order as Grid.Walked says: ant m lands on the target in the starting field plus the deposits of ants 0..m-1. Afterwards each cell holds its old value plus DEPOSIT per ant on it, no ant has moved more than one cell per axis, and the invariant holds. |
| AntWalk.MapSimulation.StepEach | script.js:155 | The loop over the ants yields a walk from the starting field, and the field becomes that field plus the walk's deposits. |
| AntWalk.MapSimulation.StepOnWalk | script.js:155 | One turn of that loop extends the walk by the ant that steps and adds its deposit to the field. |
| AntWalk.MapSimulation.Tick | script.js:153-158 | The ants step in order as Grid.Walked says, then the field decays once. A cell ends as the decay of its old value plus its deposits. A cell no ant reached only decays. |
| AntWalk.FlatFieldStepsRight | script.js:106-134 | On a flat 10 x 10 field, an ant on (5, 5) that does not explore steps to (6, 5), the first of four tied neighbours. |
| FileScan.ClampReal | script.js:245-246 | `Math.max(0, Math.min(hi, v))` lies in `[0, hi]` and is `v` inside it. |
| FileScan.AxisAsWritten | script.js:238-246 | The bounce exactly as written: the result is clamped into `[0, bound-1]`. The velocity is reversed exactly when the stepped coordinate is `< 0` or `>= bound`. |
| FileScan.FarWallPinsAsWritten | script.js:242-246 | As written, an ant on the far wall drifting outwards by less than a cell is neither moved nor turned. |
| FileScan.MoveAsWritten | script.js:238-246 | One ant's step as written keeps the ant on the grid. Each axis follows AxisAsWritten. |
| FileScan.PinnedAntAsWritten | script.js:242-246 | Counterexample: the ant `(79, 10)` with velocity `(0.2, 0)` is a fixed point of the as-written step. |
| FileScan.PinnedAntInPass | script.js:237-246 | In a pass over all ants, that ant keeps its place and velocity. |
| FileScan.Axis | script.js:238-246 | The corrected bounce clamps the same way. It keeps the velocity exactly when the ant moved by its full velocity. |
| FileScan.AxisAgreesAwayFromFarEdge | script.js:242-243 | Both bounce tests agree unless the stepped coordinate lies in `(bound-1, bound)`. |
| FileScan.FarWallTurnsBack | script.js:242-246 | With the corrected test, an ant on the far wall drifting outwards is turned back. |
| FileScan.PinnedAntTurnsBack | script.js:242-246 | With the corrected test, the counterexample ant gets velocity `(-0.2, 0)`. |
| FileScan.Move | script.js:238-246 | The corrected step keeps the ant on the grid. Each axis follows Axis. |
| FileScan.MoveAll | script.js:237-246 | Moving all ants gives one moved ant per ant. |
| FileScan.MoveAllAt | script.js:237-246 | Ant k of MoveAll is the as-written move of ant k. |
| FileScan.MoveAllSnoc | script.js:237-246 | Moving one more ant appends its as-written move. |
| FileScan.MoveAllOnField | script.js:245-246 | After the moves every ant is in `[0, COLS-1] x [0, ROWS-1]`. |
| FileScan.Near | script.js:250-254 | An ant on a file's own point detects it. A detected file lies less than 1.5 cells from the ant along each axis. |
| FileScan.RadiusOnSquares | script.js:252-254 | For a distance d ≥ 0, `d < 1.5` exactly when `d*d < 2.25`, so testing squares is exact. |
| FileScan.Cell | script.js:259-261 | The cell `(floor(x), floor(y))` of an ant on the grid is on the grid, so the bounds test of the deposit always passes. |
| FileScan.NearCount | script.js:254-266 | One ant's detections are at most the number of files. |
| FileScan.ThreatCount | script.js:256-257 | One ant's threat detections are at most its detections. |
| FileScan.CountsIgnoreScanned | script.js:250-254 | Detection reads positions and threat flags only, never the scanned flag. |
| FileScan.CountsSnoc | script.js:249-257 | One more file adds its own detection to both counts. |
| FileScan.TotalNear | script.js:266 | The scans counted in a pass are at most one per (ant, file) pair. |
| FileScan.TotalThreats | script.js:257 | Threats found in a pass are at most the detections in it. |
| FileScan.NewPaths | script.js:264 | One path is started per threat detection. |
| FileScan.DepositsAt | script.js:259-263 | The deposits on a cell are at most the threat detections. |
| FileScan.NearAnyExists | script.js:249-255 | The checked-ant-by-ant "some ant came near" is exactly "there is an ant within 1.5". |
| FileScan.Mark | script.js:255 | One ant's pass keeps the number of files and never clears a scanned flag. |
| FileScan.MarkAt | script.js:254-255 | One ant's pass keeps every file's position and threat flag. A file becomes scanned when it was already scanned or the ant is near it. |
| FileScan.MarkAll | script.js:255 | All the passes keep the number of files and never clear a scanned flag. |
| FileScan.MarkAllAt | script.js:237-268 | After all passes, a file is scanned exactly when it was before or some ant came near it. Files no ant reached are unchanged. |
| FileScan.NewPathsFresh | script.js:264 | Every path the ants start has age 20. |
| FileScan.DepositsSnoc | script.js:259-263 | One more ant's threat detections land on its own cell only. |
| FileScan.ScanStep | script.js:249-268 | One ant's pass keeps the number of files and the earlier paths. Threats found grow by no more than scans counted, and one path is appended per threat found. |
| FileScan.ScanAll | script.js:237-268 | The same guarantees hold for the passes of all the ants. |
| FileScan.Detected | script.js:254-266 | Visiting file k marks that file only, and only when the ant is near it. The scan counter rises by exactly that, threats and new paths rise together, and by no more than the scans. |
| FileScan.DetectedExtends | script.js:249-268 | Visiting file k extends the visited prefix of the inner loop by one file. |
| FileScan.ScanAllSnoc | script.js:237-268 | The passes of one more ant are its pass after the earlier ones. |
| FileScan.ScanAllFiles | script.js:249-255 | The files after the passes are MarkAll of the files before them. |
| FileScan.ScanAllTotals | script.js:236-270 | A pass sums over all ants. `filesScanned` grows by every (ant, file) pair in range, `threatsFound` by every such pair with a threat file, and one fresh path per threat is appended in ant order. |
| FileScan.RescanCounts | script.js:254-266 | A file that is already scanned still bumps `filesScanned` when an ant comes near it again. |
| FileScan.Consistent | script.js:259-261 | In a consistent state, every ant's floored cell is on the grid, so the deposit's bounds test never fails. |
| FileScan.StepKeepsConsistent | script.js:236-270 | The move-and-scan pass keeps the consistency invariant:<br>- sizes are fixed;<br>- ants are on the grid;<br>- files are in `[0, COLS-2] x [0, ROWS-2]`;<br>- path ages are in 1..20;<br>- `threatsFound <= filesScanned`;<br>- there are no more paths than threats found. |
| FileScan.Alive | script.js:295 | The filter keeps only paths with age > 0 and never lengthens the list. |
| FileScan.Aged | script.js:290-295 | One aging pass never lengthens the list and leaves only live paths. |
| FileScan.Aging | script.js:290-295 | n passes never lengthen the list. After at least one pass only live paths remain. |
| FileScan.AliveWithin | script.js:295 | Age bounds survive the filter. |
| FileScan.AliveConcat | script.js:295 | The filter distributes over concatenation, so order is kept. |
| FileScan.AliveOfAlive | script.js:295 | A list of live paths passes the filter unchanged. |
| FileScan.AliveOfDead | script.js:295 | A list of dead paths is emptied. |
| FileScan.OlderConcat | script.js:290-294 | Aging distributes over concatenation. |
| FileScan.OlderTwice | script.js:290-294 | Aging by m then by n is aging by m + n. |
| FileScan.AgedDropsDead | script.js:290-295 | Dropping dead paths early does not change which paths survive the next frame. |
| FileScan.AgingStep | script.js:290-295 | One more pass over the paths alive after n frames gives the paths alive after n + 1 frames. |
| FileScan.AgingSubtracts | script.js:290-295 | After n ≥ 1 passes, exactly the paths with age above n remain, each n frames older, in order. |
| FileScan.PathsExpire | script.js:290-295 | Paths no older than n frames are all gone after n passes. |
| FileScan.FreshPathLifetime | script.js:264 | A path started with age 20 is alive with age 1 after 19 passes and gone after 20. |
| FileScan.AgedKeepsConsistent | script.js:290-295 | An aging pass keeps the consistency invariant. |
| FileScan.Evaporated | script.js:280-285 | A cell at or below 0.5 is unchanged. A non-negative cell stays non-negative and never grows, and a cell above 0.5 strictly shrinks. |
| FileScan.MakeFiles | script.js:205-213 | The files are FilesPlaced for the draws: there is one file per draw at `(floor(rx*(COLS-1)), floor(ry*(ROWS-1)))`, inside `[0, COLS-2] x [0, ROWS-2]`. It is a threat exactly when its draw is < 0.3, and it is unscanned. |
| FileScan.MakeAnts | script.js:223-231 | The ants are AntsPlaced for the draws: there is one ant per draw on its floored cell in `[0, COLS-2] x [0, ROWS-2]`, with velocity `(r - 0.5) * 0.5` in `[-0.25, 0.25)`. |
| FileScan.Scanner.constructor | script.js:369-372 | Initial `initFiles`, `initAnts`, `draw`: the invariant holds and the state is a reset state. The files and ants are the ones placed for the draws (FilesPlaced, AntsPlaced): drawn cells in `[0, COLS-2] x [0, ROWS-2]`, threat flags and velocities. |
| FileScan.Scanner.InitFiles | script.js:204-219 | 80 files placed for the draws as FilesPlaced says, a fresh all-zero grid, no paths and both counters 0. The ants are untouched. |
| FileScan.Scanner.InitAnts | script.js:222-233 | 50 new ants placed for the draws as AntsPlaced says. Nothing else changes. |
| FileScan.Scanner.ResetScan | script.js:358-366 | The reset button leaves the invariant and a reset state: nothing scanned, zero pheromone, no paths, zero counters. The files and ants are the ones placed for the new draws (FilesPlaced, AntsPlaced). |
| FileScan.Scanner.Detect | script.js:250-267 | Visiting file k changes the state as Detected says. When the file is a near threat, 5 units are added on the ant's cell. |
| FileScan.Scanner.ScanFiles | script.js:249-268 | One ant's inner loop turns the state into ScanStep of the old one. The ant's cell gains 5 per threat it detects. |
| FileScan.Scanner.StepAnt | script.js:237-268 | One turn of the outer loop: ant k takes the as-written step, the state becomes the passes of the moved ants so far, and its deposits are added. |
| FileScan.Scanner.StepAnts | script.js:236-270 | The ants become MoveAll (as-written steps) of the old ants. The files, counters and paths become ScanAll over the moved ants. Every cell gains 5 per threat detected from it. |
| FileScan.Scanner.Evaporate | script.js:278-287 | Every cell becomes Evaporated of its old value. A non-negative grid stays non-negative. |
| FileScan.Scanner.AgePaths | script.js:290-295 | The paths become Aged of the old ones. |
| FileScan.Scanner.Draw | script.js:273-295 | The invariant is kept, the grid evaporates and the paths age. |
| FileScan.Scanner.Frame | script.js:325-331 | One animation frame:<br>- the invariant is kept;<br>- ants become MoveAll (as-written steps) of the old ants;<br>- the state becomes ScanAll with its paths aged;<br>- each cell becomes Evaporated of its old value plus its deposits. |

## Findings

| source | as written | input that shows it | evidently intended | confidence | as-written member | corrected member |
|---|---|---|---|---|---|---|
| script.js:242-246 | The bounce test is `ant.x >= COLS`, but the clamp is to `COLS - 1`. A stepped coordinate in `(COLS-1, COLS)` is clamped back without reversing the velocity, so an ant on the far wall moving outwards stays pinned there on every later frame. The same holds for `y` and `ROWS`. | `ScanAnt(79.0, 10.0, 0.2, 0.0)`: the step gives `x = 79.2`, which is not `>= 80`; the clamp gives `79.0` and `vx` stays `0.2`. | Reverse the velocity whenever the clamp moves the ant, i.e. when the stepped coordinate is `> COLS - 1`. | not executed | FileScan.PinnedAntAsWritten | FileScan.PinnedAntTurnsBack |

The file-scan simulation (`MoveAll`, `Scanner.StepAnt`, `Scanner.StepAnts`,
`Scanner.Frame`) runs the step as written (`FileScan.MoveAsWritten` /
`FileScan.AxisAsWritten`). So an ant that reaches the right or bottom wall
while moving outwards stays there (`FileScan.PinnedAntInPass`). The
corrected step is `FileScan.Move` / `FileScan.Axis`, with its property
proved in `FileScan.PinnedAntTurnsBack` and `FileScan.FarWallTurnsBack`.
`FileScan.AxisAgreesAwayFromFarEdge` shows that the two differ only in that
one-cell band.

## Left out

- Canvas drawing (`fillRect`, `arc`, colours) and the DOM statistics
  (script.js:319-321): rendering only. This includes the "scan-progress"
  percentage, which can exceed 100% because `filesScanned` counts
  detections, not distinct files (see `FileScan.RescanCounts`).
- The navigation menu, the particle background and the route "optimizer":
  decoration, event wiring and drawing with no state worth verifying.
- `requestAnimationFrame`, `cancelAnimationFrame`, `isScanning`,
  `animationId` and the start/stop button handlers: event-loop driving. One
  frame is the method `Frame` (file scan) or `Tick` (map walk).
- Loading the map image and sampling its brightness
  (`drawImage`/`getImageData`): a browser API. The brightness of each cell
  is given as a read-only function of the cell.
- `Math.random`: replaced by draws in `[0, 1)` passed as parameters.
- `console.log` calls.
- Floating-point arithmetic: positions, velocities and pheromone are exact
  reals, so rounding of the JavaScript doubles (e.g. in `0.995`,
  `ant.x += ant.vx`) is not modelled.
- `Math.sqrt` in the proximity test: the model compares squared distances
  with 2.25, which `FileScan.RadiusOnSquares` shows to be exact.
- `bestScore = -Infinity`: represented by `best == None`.
- `AntWalk.MapSimulation.constructor` requires a canvas of at least one cell
  (3 pixels) each way. The smaller canvases are not modelled. In the source
  they behave as follows:
  - a width or height of 0 makes `getImageData` throw (script.js:73);
  - a width under 3 pixels gives COLS = 0 and an empty `pheromone`, so the
    first deposit throws on `pheromone[0]` (script.js:133);
  - a height under 3 pixels with COLS ≥ 1 gives empty columns. Every ant is
    clamped to row 0, and the deposit stores NaN in `pheromone[x][0]`
    without failing.
- `FileScan.MoveAll`: its own contract gives only the length. The pointwise
  statement is `FileScan.MoveAllAt`.
- Deviations from the general description of these simulations, where the
  code is followed:
  - the file-scan evaporation touches only cells above 0.5, not every cell;
  - a threat deposit goes on the ant's cell, not the file's;
  - the scan counter counts every (ant, file) detection.
