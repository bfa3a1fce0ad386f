/**
 * The file-scan simulation. Fifty ants with real positions and velocities
 * drift over an 80 x 40 grid, bouncing off its walls. Every ant that comes
 * within 1.5 cells of one of eighty files marks the file scanned and bumps
 * the scan counter; when the file is a threat it also bumps the threat
 * counter, drops 5 units of pheromone on the ant's cell and starts a threat
 * path that lives for 20 frames. Each frame, visible pheromone (above 0.5)
 * evaporates by 2% and every threat path ages by one.
 *
 * `Math.random` is replaced by draws in [0, 1) passed as parameters; the
 * canvas calls and DOM updates of `draw` are not modelled, only the state it
 * changes.
 */
module FileScan {
  import opened Draws

  /** Side, in pixels, of one grid cell. */
  const GRID_SIZE: nat := 10
  /** `Math.floor(800 / GRID_SIZE)`. */
  const COLS: nat := 80
  /** `Math.floor(400 / GRID_SIZE)`. */
  const ROWS: nat := 40
  const ANT_COUNT: nat := 50
  const FILE_COUNT: nat := 80
  /** A file is a threat when its draw is below this. */
  const THREAT_RATE: real := 0.3
  /** The square of the detection radius 1.5. */
  const RADIUS_SQ: real := 2.25
  /** Frames a threat path stays alive. */
  const PATH_LIFE: int := 20
  /** Only pheromone above this is drawn, and only drawn pheromone evaporates. */
  const VISIBLE: real := 0.5

  datatype ScanAnt = ScanAnt(x: real, y: real, vx: real, vy: real)
  datatype FileEntry = FileEntry(x: int, y: int, isThreat: bool, scanned: bool)
  datatype ThreatPath = ThreatPath(x: real, y: real, age: int)

  /** The random draws behind one file: its column, its row and its threat flag. */
  datatype FileDraw = FileDraw(rx: real, ry: real, rThreat: real)
  /** The random draws behind one ant: its column, its row and its two velocity components. */
  datatype AntDraw = AntDraw(rx: real, ry: real, rvx: real, rvy: real)

  /** The ant lies on the grid: `[0, COLS-1] x [0, ROWS-1]`. */
  predicate OnField(a: ScanAnt)
  {
    0.0 <= a.x <= (COLS - 1) as real && 0.0 <= a.y <= (ROWS - 1) as real
  }

  /** `Math.max(0, Math.min(hi, v))`. */
  function ClampReal(v: real, hi: real): (r: real)
    requires hi >= 0.0
    ensures 0.0 <= r <= hi
    ensures 0.0 <= v <= hi ==> r == v
  {
    if v < 0.0 then 0.0 else if hi < v then hi else v
  }

  // ---------------------------------------------------------------------
  // Movement
  // ---------------------------------------------------------------------

  /**
   * One axis of the move as the source writes it: step by v, reverse v when
   * the stepped coordinate is below 0 or at least `bound`, then clamp to
   * `[0, bound-1]`. The velocity is reversed exactly when the stepped
   * coordinate left `[0, bound)`.
   */
  function AxisAsWritten(p: real, v: real, bound: nat): (r: (real, real))
    requires bound >= 1
    ensures 0.0 <= r.0 <= (bound - 1) as real
    ensures r.1 == v || r.1 == -v
    ensures v != 0.0 ==> (r.1 == -v <==> (p + v < 0.0 || p + v >= bound as real))
  {
    var q := p + v;
    var w := if q < 0.0 || q >= bound as real then -v else v;
    (ClampReal(q, (bound - 1) as real), w)
  }

  /**
   * An ant resting on the far wall and drifting outwards by less than a
   * cell is neither moved nor turned: the bounce test of the source lets it
   * through and the clamp holds it, on every later frame too.
   */
  lemma FarWallPinsAsWritten(bound: nat, v: real)
    requires bound >= 1 && 0.0 < v < 1.0
    ensures AxisAsWritten((bound - 1) as real, v, bound) == ((bound - 1) as real, v)
  {
  }

  /**
   * One axis of the move with the bounce test matched to the clamp: the
   * velocity is reversed when the stepped coordinate leaves `[0, bound-1]`.
   * It is kept exactly when the ant moved by its full velocity, so an ant
   * that a wall stops is always turned around.
   */
  function Axis(p: real, v: real, bound: nat): (r: (real, real))
    requires bound >= 1
    ensures r.0 == ClampReal(p + v, (bound - 1) as real)
    ensures r.1 == v || r.1 == -v
    ensures v != 0.0 ==> (r.1 == v <==> r.0 == p + v)
  {
    var q := p + v;
    var w := if q < 0.0 || q > (bound - 1) as real then -v else v;
    (ClampReal(q, (bound - 1) as real), w)
  }

  /** The two tests agree except when the stepped coordinate lies in `(bound-1, bound)`. */
  lemma AxisAgreesAwayFromFarEdge(p: real, v: real, bound: nat)
    requires bound >= 1
    requires !((bound - 1) as real < p + v < bound as real)
    ensures Axis(p, v, bound) == AxisAsWritten(p, v, bound)
  {
  }

  /** An ant on the far wall drifting outwards is turned back (compare FarWallPinsAsWritten). */
  lemma FarWallTurnsBack(bound: nat, v: real)
    requires bound >= 1 && 0.0 < v < 1.0
    ensures Axis((bound - 1) as real, v, bound) == ((bound - 1) as real, -v)
  {
  }

  /**
   * One ant's step with the bounce test matched to the clamp: the evidently
   * intended step, which the simulation does not use (see MoveAsWritten).
   */
  function Move(a: ScanAnt): (b: ScanAnt)
    ensures OnField(b)
    ensures (b.x, b.vx) == Axis(a.x, a.vx, COLS) && (b.y, b.vy) == Axis(a.y, a.vy, ROWS)
  {
    var (x, vx) := Axis(a.x, a.vx, COLS);
    var (y, vy) := Axis(a.y, a.vy, ROWS);
    ScanAnt(x, y, vx, vy)
  }

  /** The first part of `stepAnts` for one ant: step, bounce off the walls as the source tests it, clamp. */
  function MoveAsWritten(a: ScanAnt): (b: ScanAnt)
    ensures OnField(b)
    ensures (b.x, b.vx) == AxisAsWritten(a.x, a.vx, COLS) && (b.y, b.vy) == AxisAsWritten(a.y, a.vy, ROWS)
  {
    var (x, vx) := AxisAsWritten(a.x, a.vx, COLS);
    var (y, vy) := AxisAsWritten(a.y, a.vy, ROWS);
    ScanAnt(x, y, vx, vy)
  }

  /** The moves of all ants in order, each with the bounce test as the source writes it. */
  function MoveAll(ants: seq<ScanAnt>): (r: seq<ScanAnt>)
    ensures |r| == |ants|
  {
    if ants == [] then [] else MoveAll(ants[..|ants| - 1]) + [MoveAsWritten(ants[|ants| - 1])]
  }

  /** Each ant of MoveAll(ants) is the move of the ant at the same index. */
  lemma {:induction false} MoveAllAt(ants: seq<ScanAnt>, k: nat)
    requires k < |ants|
    ensures MoveAll(ants)[k] == MoveAsWritten(ants[k])
  {
    if k < |ants| - 1 {
      MoveAllAt(ants[..|ants| - 1], k);
    }
  }

  /** Every moved ant is on the grid. */
  lemma MoveAllOnField(ants: seq<ScanAnt>)
    ensures forall k :: 0 <= k < |ants| ==> OnField(MoveAll(ants)[k])
  {
    forall k | 0 <= k < |ants|
      ensures OnField(MoveAll(ants)[k])
    {
      MoveAllAt(ants, k);
    }
  }

  lemma MoveAllSnoc(ants: seq<ScanAnt>, k: nat)
    requires k < |ants|
    ensures MoveAll(ants[..k + 1]) == MoveAll(ants[..k]) + [MoveAsWritten(ants[k])]
  {
    assert ants[..k + 1][..k] == ants[..k];
  }

  lemma UpdateAt(done: seq<ScanAnt>, rest: seq<ScanAnt>, k: nat, a: ScanAnt)
    requires |done| == k < |rest|
    ensures (done + rest[k..])[k := a] == (done + [a]) + rest[k + 1..]
  {
  }

  /** An ant in the last column moving right at 0.2 cells a frame never leaves it as written. */
  lemma PinnedAntAsWritten()
    ensures MoveAsWritten(ScanAnt(79.0, 10.0, 0.2, 0.0)) == ScanAnt(79.0, 10.0, 0.2, 0.0)
  {
    FarWallPinsAsWritten(COLS, 0.2);
  }

  /** Within a pass over all the ants, the ant of PinnedAntAsWritten keeps its place and velocity. */
  lemma PinnedAntInPass(ants: seq<ScanAnt>, k: nat)
    requires k < |ants| && ants[k] == ScanAnt(79.0, 10.0, 0.2, 0.0)
    ensures MoveAll(ants)[k] == ants[k]
  {
    MoveAllAt(ants, k);
    PinnedAntAsWritten();
  }

  /** The same ant with the matched bounce test is turned back towards the grid. */
  lemma PinnedAntTurnsBack()
    ensures Move(ScanAnt(79.0, 10.0, 0.2, 0.0)) == ScanAnt(79.0, 10.0, -0.2, 0.0)
  {
    FarWallTurnsBack(COLS, 0.2);
  }

  // ---------------------------------------------------------------------
  // Proximity
  // ---------------------------------------------------------------------

  /**
   * `Math.sqrt(dx * dx + dy * dy) < 1.5`, compared on squares: an ant on the
   * file's own point detects it, and a detected file lies less than 1.5
   * cells from the ant along each axis.
   */
  predicate Near(a: ScanAnt, f: FileEntry)
    ensures a.x == f.x as real && a.y == f.y as real ==> Near(a, f)
    ensures Near(a, f) ==> -1.5 < a.x - f.x as real < 1.5 && -1.5 < a.y - f.y as real < 1.5
  {
    var dx := a.x - f.x as real;
    var dy := a.y - f.y as real;
    AxisWithinRadius(dx, dy);
    AxisWithinRadius(dy, dx);
    dx * dx + dy * dy < RADIUS_SQ
  }

  lemma AxisWithinRadius(d: real, e: real)
    ensures d * d + e * e < RADIUS_SQ ==> -1.5 < d < 1.5
  {
    if d >= 1.5 {
      assert d * d >= 1.5 * d >= 1.5 * 1.5;
    } else if d <= -1.5 {
      assert d * d >= -1.5 * d >= 1.5 * 1.5;
    }
  }

  /** For a non-negative distance d, `d < 1.5` and `d * d < 2.25` agree, so comparing squares is exact. */
  lemma RadiusOnSquares(d: real)
    requires d >= 0.0
    ensures d < 1.5 <==> d * d < RADIUS_SQ
  {
    if d >= 1.5 {
      assert d * d >= 1.5 * d >= 1.5 * 1.5;
    } else {
      assert d * d <= 1.5 * d;
    }
  }

  /** The grid cell `(Math.floor(x), Math.floor(y))` of an ant. */
  function Cell(a: ScanAnt): (c: (int, int))
    ensures OnField(a) ==> 0 <= c.0 < COLS && 0 <= c.1 < ROWS
  {
    (a.x.Floor, a.y.Floor)
  }

  /** The pheromone n threat detections leave on a cell: 5 units each. */
  function Deposit(n: nat): (r: real)
    ensures r >= 0.0
  {
    5.0 * n as real
  }

  /** The threat path an ant starts where it detects a threat. */
  function PathAt(a: ScanAnt): ThreatPath
  {
    ThreatPath(a.x, a.y, PATH_LIFE)
  }

  /** Number of files in fs that the ant is near. */
  function NearCount(a: ScanAnt, fs: seq<FileEntry>): (n: nat)
    ensures n <= |fs|
  {
    if fs == [] then 0
    else NearCount(a, fs[..|fs| - 1]) + (if Near(a, fs[|fs| - 1]) then 1 else 0)
  }

  /** Number of threat files in fs that the ant is near. */
  function ThreatCount(a: ScanAnt, fs: seq<FileEntry>): (n: nat)
    ensures n <= NearCount(a, fs)
  {
    if fs == [] then 0
    else ThreatCount(a, fs[..|fs| - 1]) + (if Near(a, fs[|fs| - 1]) && fs[|fs| - 1].isThreat then 1 else 0)
  }

  /** Nearness depends on the file's position only. */
  lemma NearSameSite(a: ScanAnt, f: FileEntry, g: FileEntry)
    requires f.x == g.x && f.y == g.y
    ensures Near(a, f) == Near(a, g)
  {
  }

  /** Two file lists with the same positions and threat flags, whatever their scanned flags. */
  predicate SameSites(fs: seq<FileEntry>, gs: seq<FileEntry>)
  {
    |fs| == |gs| &&
    forall k :: 0 <= k < |fs| ==> fs[k].x == gs[k].x && fs[k].y == gs[k].y && fs[k].isThreat == gs[k].isThreat
  }

  /** Detection does not look at the scanned flags. */
  lemma {:induction false} CountsIgnoreScanned(a: ScanAnt, fs: seq<FileEntry>, gs: seq<FileEntry>)
    requires SameSites(fs, gs)
    ensures NearCount(a, fs) == NearCount(a, gs)
    ensures ThreatCount(a, fs) == ThreatCount(a, gs)
  {
    if fs != [] {
      var l := |fs| - 1;
      assert SameSites(fs[..l], gs[..l]);
      CountsIgnoreScanned(a, fs[..l], gs[..l]);
      NearSameSite(a, fs[l], gs[l]);
    }
  }

  lemma AppendAssoc(ps: seq<ThreatPath>, qs: seq<ThreatPath>, rs: seq<ThreatPath>)
    ensures (ps + qs) + rs == ps + (qs + rs)
  {
  }

  /** Extending the list of files by one adds that file's detection to the counts. */
  lemma CountsSnoc(a: ScanAnt, fs: seq<FileEntry>, k: nat)
    requires k < |fs|
    ensures NearCount(a, fs[..k + 1]) == NearCount(a, fs[..k]) + (if Near(a, fs[k]) then 1 else 0)
    ensures ThreatCount(a, fs[..k + 1]) == ThreatCount(a, fs[..k]) + (if Near(a, fs[k]) && fs[k].isThreat then 1 else 0)
  {
    assert fs[..k + 1][..k] == fs[..k];
  }

  /** n copies of p. */
  function Repeat(p: ThreatPath, n: nat): (r: seq<ThreatPath>)
    ensures |r| == n
  {
    if n == 0 then [] else Repeat(p, n - 1) + [p]
  }

  /** Scans detected by the ants of `ants`, summed over the ants: each ant detects each file at most once. */
  function TotalNear(ants: seq<ScanAnt>, fs: seq<FileEntry>): (n: nat)
    ensures n <= |ants| * |fs|
  {
    if ants == [] then 0
    else TotalNear(ants[..|ants| - 1], fs) + NearCount(ants[|ants| - 1], fs)
  }

  /** Threats detected by the ants of `ants`, summed over the ants; never more than the scans. */
  function TotalThreats(ants: seq<ScanAnt>, fs: seq<FileEntry>): (n: nat)
    ensures n <= TotalNear(ants, fs)
  {
    if ants == [] then 0
    else TotalThreats(ants[..|ants| - 1], fs) + ThreatCount(ants[|ants| - 1], fs)
  }

  /** The threat paths the ants of `ants` start, in order: one per detected threat. */
  function NewPaths(ants: seq<ScanAnt>, fs: seq<FileEntry>): (ps: seq<ThreatPath>)
    ensures |ps| == TotalThreats(ants, fs)
  {
    if ants == [] then []
    else
      var a := ants[|ants| - 1];
      NewPaths(ants[..|ants| - 1], fs) + Repeat(PathAt(a), ThreatCount(a, fs))
  }

  /** Threat detections made by the ants of `ants` whose cell is (i, j). */
  function DepositsAt(ants: seq<ScanAnt>, fs: seq<FileEntry>, i: int, j: int): (n: nat)
    ensures n <= TotalThreats(ants, fs)
  {
    if ants == [] then 0
    else
      var a := ants[|ants| - 1];
      DepositsAt(ants[..|ants| - 1], fs, i, j) + (if Cell(a) == (i, j) then ThreatCount(a, fs) else 0)
  }

  /** Some ant of `ants` is near f, checked ant by ant. */
  predicate NearAny(ants: seq<ScanAnt>, f: FileEntry)
  {
    if ants == [] then false else NearAny(ants[..|ants| - 1], f) || Near(ants[|ants| - 1], f)
  }

  /** NearAny holds exactly when some ant of `ants` is near f. */
  lemma {:induction false} NearAnyExists(ants: seq<ScanAnt>, f: FileEntry)
    ensures NearAny(ants, f) <==> exists k :: 0 <= k < |ants| && Near(ants[k], f)
  {
    if ants != [] {
      var init := ants[..|ants| - 1];
      NearAnyExists(init, f);
      if NearAny(init, f) {
        var k :| 0 <= k < |init| && Near(init[k], f);
        assert ants[k] == init[k];
      }
      if exists k :: 0 <= k < |ants| && Near(ants[k], f) {
        var k :| 0 <= k < |ants| && Near(ants[k], f);
        if k < |init| {
          assert init[k] == ants[k];
        }
      }
    }
  }

  /** One ant's pass over the files: each file near it becomes scanned. */
  function Mark(fs: seq<FileEntry>, a: ScanAnt): (r: seq<FileEntry>)
    ensures |r| == |fs|
    ensures forall m :: 0 <= m < |fs| && fs[m].scanned ==> r[m].scanned
  {
    seq(|fs|, m requires 0 <= m < |fs| => fs[m].(scanned := fs[m].scanned || Near(a, fs[m])))
  }

  /** A pass keeps every file's position and threat flag and sets its flag when the ant is near it. */
  lemma MarkAt(fs: seq<FileEntry>, a: ScanAnt)
    ensures SameSites(Mark(fs, a), fs)
    ensures forall m :: 0 <= m < |fs| ==> Mark(fs, a)[m].scanned == (fs[m].scanned || Near(a, fs[m]))
  {
  }

  /** The passes of the ants of `ants`, in order; a scanned file stays scanned. */
  function MarkAll(fs: seq<FileEntry>, ants: seq<ScanAnt>): (r: seq<FileEntry>)
    ensures |r| == |fs|
    ensures forall m :: 0 <= m < |fs| && fs[m].scanned ==> r[m].scanned
  {
    if ants == [] then fs else Mark(MarkAll(fs, ants[..|ants| - 1]), ants[|ants| - 1])
  }

  /**
   * After all the passes a file keeps its position and threat flag and is
   * scanned exactly when it was already scanned or some ant came near it.
   */
  lemma {:induction false} MarkAllAt(fs: seq<FileEntry>, ants: seq<ScanAnt>)
    ensures SameSites(MarkAll(fs, ants), fs)
    ensures forall m :: 0 <= m < |fs| ==> MarkAll(fs, ants)[m].scanned == (fs[m].scanned || NearAny(ants, fs[m]))
  {
    if ants != [] {
      var init := ants[..|ants| - 1];
      MarkAllAt(fs, init);
      var before := MarkAll(fs, init);
      var last := ants[|ants| - 1];
      MarkAt(before, last);
      forall m | 0 <= m < |fs|
        ensures Near(last, before[m]) == Near(last, fs[m])
      {
        NearSameSite(last, before[m], fs[m]);
      }
    }
  }

  lemma {:induction false} RepeatAll(p: ThreatPath, n: nat)
    ensures forall k :: 0 <= k < n ==> Repeat(p, n)[k] == p
  {
    if n > 0 {
      RepeatAll(p, n - 1);
    }
  }

  /** Every path the ants start is fresh: its age is PATH_LIFE. */
  lemma {:induction false} NewPathsFresh(ants: seq<ScanAnt>, fs: seq<FileEntry>)
    ensures AgesWithin(NewPaths(ants, fs), PATH_LIFE, PATH_LIFE)
  {
    if ants != [] {
      var a := ants[|ants| - 1];
      NewPathsFresh(ants[..|ants| - 1], fs);
      RepeatAll(PathAt(a), ThreatCount(a, fs));
      AgesAppend(NewPaths(ants[..|ants| - 1], fs), Repeat(PathAt(a), ThreatCount(a, fs)), PATH_LIFE, PATH_LIFE);
    }
  }

  /** The threat detections of one more ant land on its own cell. */
  lemma DepositsSnoc(ants: seq<ScanAnt>, fs: seq<FileEntry>, a: ScanAnt)
    ensures forall i, j ::
      Deposit(DepositsAt(ants + [a], fs, i, j)) ==
        Deposit(DepositsAt(ants, fs, i, j)) +
          (if (i, j) == Cell(a) then Deposit(ThreatCount(a, fs)) else 0.0)
  {
    assert (ants + [a])[..|ants|] == ants;
  }

  /**
   * What the detections change besides the pheromone grid: the files, the
   * two counters and the threat paths.
   */
  datatype ScanState = ScanState(files: seq<FileEntry>, filesScanned: nat, threatsFound: nat, threatPaths: seq<ThreatPath>)

  /**
   * One ant's pass over all the files, as the inner `files.forEach` of
   * `stepAnts` makes it. The number of files is kept, the earlier paths are
   * kept, a threat is only found when a scan is counted, and one path is
   * appended per threat found.
   */
  function ScanStep(s: ScanState, a: ScanAnt): (r: ScanState)
    ensures |r.files| == |s.files|
    ensures |r.threatPaths| >= |s.threatPaths| && r.threatPaths[..|s.threatPaths|] == s.threatPaths
    ensures s.threatsFound <= r.threatsFound && r.threatsFound - s.threatsFound <= r.filesScanned - s.filesScanned
    ensures |r.threatPaths| - |s.threatPaths| == r.threatsFound - s.threatsFound
  {
    var t := ThreatCount(a, s.files);
    ScanState(Mark(s.files, a), s.filesScanned + NearCount(a, s.files), s.threatsFound + t,
              s.threatPaths + Repeat(PathAt(a), t))
  }

  /** The passes of the ants of `ants`, in order, with the same guarantees as one pass. */
  function ScanAll(s: ScanState, ants: seq<ScanAnt>): (r: ScanState)
    ensures |r.files| == |s.files|
    ensures |r.threatPaths| >= |s.threatPaths| && r.threatPaths[..|s.threatPaths|] == s.threatPaths
    ensures s.threatsFound <= r.threatsFound && r.threatsFound - s.threatsFound <= r.filesScanned - s.filesScanned
    ensures |r.threatPaths| - |s.threatPaths| == r.threatsFound - s.threatsFound
  {
    if ants == [] then s else ScanStep(ScanAll(s, ants[..|ants| - 1]), ants[|ants| - 1])
  }

  /** The inner `files.forEach` of `stepAnts` for one file k: the changes a near ant makes. */
  function Detected(s: ScanState, a: ScanAnt, k: nat): (r: ScanState)
    requires k < |s.files|
    ensures |r.files| == |s.files|
    ensures r.files[k] == s.files[k].(scanned := s.files[k].scanned || Near(a, s.files[k]))
    ensures forall m :: 0 <= m < |s.files| && m != k ==> r.files[m] == s.files[m]
    ensures r.filesScanned == s.filesScanned + (if Near(a, s.files[k]) then 1 else 0)
    ensures r.threatsFound - s.threatsFound == |r.threatPaths| - |s.threatPaths| <= r.filesScanned - s.filesScanned
  {
    var f := s.files[k];
    if Near(a, f) then
      var threat := if f.isThreat then 1 else 0;
      ScanState(s.files[k := f.(scanned := true)], s.filesScanned + 1, s.threatsFound + threat,
                s.threatPaths + Repeat(PathAt(a), threat))
    else s
  }

  /**
   * The state after the inner `files.forEach` has visited the first k of
   * the files fs with the ant at `a`, starting from s0: those k files are
   * marked, and the counters and paths hold their detections.
   */
  predicate ScannedPrefix(s: ScanState, a: ScanAnt, fs: seq<FileEntry>, s0: ScanState, k: nat)
    requires k <= |fs|
  {
    && |s.files| == |fs|
    && (forall m :: 0 <= m < |fs| ==>
          s.files[m] == if m < k then fs[m].(scanned := fs[m].scanned || Near(a, fs[m])) else fs[m])
    && s.filesScanned == s0.filesScanned + NearCount(a, fs[..k])
    && s.threatsFound == s0.threatsFound + ThreatCount(a, fs[..k])
    && s.threatPaths == s0.threatPaths + Repeat(PathAt(a), ThreatCount(a, fs[..k]))
  }

  /** Visiting file k extends the visited prefix by one file. */
  lemma DetectedExtends(s: ScanState, a: ScanAnt, fs: seq<FileEntry>, s0: ScanState, k: nat)
    requires k < |fs| && ScannedPrefix(s, a, fs, s0, k)
    ensures ScannedPrefix(Detected(s, a, k), a, fs, s0, k + 1)
  {
    CountsSnoc(a, fs, k);
    var t := ThreatCount(a, fs[..k]);
    assert s.files[k] == fs[k];
    if Near(a, fs[k]) && fs[k].isThreat {
      assert Repeat(PathAt(a), t + 1) == Repeat(PathAt(a), t) + Repeat(PathAt(a), 1);
    }
  }

  lemma ScanAllSnoc(s: ScanState, ants: seq<ScanAnt>, a: ScanAnt)
    ensures ScanAll(s, ants + [a]) == ScanStep(ScanAll(s, ants), a)
  {
    assert (ants + [a])[..|ants|] == ants;
  }

  /** The files after the passes depend on the files before them and on the ants only. */
  lemma {:induction false} ScanAllFiles(s: ScanState, ants: seq<ScanAnt>)
    ensures ScanAll(s, ants).files == MarkAll(s.files, ants)
  {
    if ants != [] {
      ScanAllFiles(s, ants[..|ants| - 1]);
    }
  }

  /**
   * The totals of a sequence of passes: the files are marked by MarkAll, the
   * scan counter grows by every (ant, file) pair within range, the threat
   * counter by every such pair whose file is a threat, and one fresh path
   * per threat detection is appended, in ant order.
   */
  lemma {:induction false} ScanAllTotals(s: ScanState, ants: seq<ScanAnt>)
    ensures ScanAll(s, ants) ==
      ScanState(MarkAll(s.files, ants), s.filesScanned + TotalNear(ants, s.files),
                s.threatsFound + TotalThreats(ants, s.files), s.threatPaths + NewPaths(ants, s.files))
  {
    if ants != [] {
      var init := ants[..|ants| - 1];
      var a := ants[|ants| - 1];
      ScanAllTotals(s, init);
      MarkAllAt(s.files, init);
      CountsIgnoreScanned(a, MarkAll(s.files, init), s.files);
      AppendAssoc(s.threatPaths, NewPaths(init, s.files), Repeat(PathAt(a), ThreatCount(a, s.files)));
    }
  }

  /** An ant near file k counts it. */
  lemma {:induction false} NearCountPositive(a: ScanAnt, fs: seq<FileEntry>, k: nat)
    requires k < |fs| && Near(a, fs[k])
    ensures NearCount(a, fs) > 0
  {
    if k < |fs| - 1 {
      NearCountPositive(a, fs[..|fs| - 1], k);
    }
  }

  /**
   * A file that is already scanned is counted again whenever an ant is near
   * it: the scan counter counts detections, not distinct files.
   */
  lemma RescanCounts(s: ScanState, a: ScanAnt, k: nat)
    requires k < |s.files| && s.files[k].scanned && Near(a, s.files[k])
    ensures ScanStep(s, a).filesScanned > s.filesScanned
  {
    NearCountPositive(a, s.files, k);
  }

  /**
   * What holds between frames apart from the pheromone grid: the sizes are
   * fixed, every ant is on the grid, every file inside
   * `[0, COLS-2] x [0, ROWS-2]`, live threat paths have an age in
   * 1..PATH_LIFE, every threat counted was also counted as a scan, and no
   * more paths are alive than threats were found.
   */
  predicate Consistent(s: ScanState, ants: seq<ScanAnt>)
    ensures Consistent(s, ants) ==>
      forall k :: 0 <= k < |ants| ==> 0 <= Cell(ants[k]).0 < COLS && 0 <= Cell(ants[k]).1 < ROWS
  {
    && |s.files| == FILE_COUNT && |ants| == ANT_COUNT
    && (forall k :: 0 <= k < |ants| ==> OnField(ants[k]))
    && (forall k :: 0 <= k < |s.files| ==> 0 <= s.files[k].x <= COLS - 2 && 0 <= s.files[k].y <= ROWS - 2)
    && AgesWithin(s.threatPaths, 1, PATH_LIFE)
    && s.threatsFound <= s.filesScanned
    && |s.threatPaths| <= s.threatsFound
  }

  lemma AgesAppend(ps: seq<ThreatPath>, qs: seq<ThreatPath>, lo: int, hi: int)
    requires AgesWithin(ps, lo, hi) && AgesWithin(qs, lo, hi)
    ensures AgesWithin(ps + qs, lo, hi)
  {
    assert forall k :: 0 <= k < |qs| ==> (ps + qs)[|ps| + k] == qs[k];
  }

  /** Moving every ant and letting each scan keeps the state consistent. */
  lemma StepKeepsConsistent(s: ScanState, ants: seq<ScanAnt>)
    requires Consistent(s, ants)
    ensures Consistent(ScanAll(s, MoveAll(ants)), MoveAll(ants))
  {
    var moved := MoveAll(ants);
    ScanAllTotals(s, moved);
    MarkAllAt(s.files, moved);
    MoveAllOnField(ants);
    NewPathsFresh(moved, s.files);
    AgesAppend(s.threatPaths, NewPaths(moved, s.files), 1, PATH_LIFE);
  }

  // ---------------------------------------------------------------------
  // Threat-path aging
  // ---------------------------------------------------------------------

  /** Every path in ps has an age in `lo..hi`. */
  predicate AgesWithin(ps: seq<ThreatPath>, lo: int, hi: int)
  {
    forall k :: 0 <= k < |ps| ==> lo <= ps[k].age <= hi
  }

  /** Every path n frames older. */
  function Older(ps: seq<ThreatPath>, n: int): (r: seq<ThreatPath>)
    ensures |r| == |ps|
    ensures forall k :: 0 <= k < |ps| ==> r[k] == ps[k].(age := ps[k].age - n)
  {
    seq(|ps|, k requires 0 <= k < |ps| => ps[k].(age := ps[k].age - n))
  }

  /** `filter(p => p.age > 0)`: the live paths, in order. */
  function Alive(ps: seq<ThreatPath>): (r: seq<ThreatPath>)
    ensures |r| <= |ps|
    ensures forall k :: 0 <= k < |r| ==> r[k].age > 0
  {
    if ps == [] then []
    else Alive(ps[..|ps| - 1]) + (if ps[|ps| - 1].age > 0 then [ps[|ps| - 1]] else [])
  }

  /** One aging pass of `draw`: decrement every age, keep the paths still alive. */
  function Aged(ps: seq<ThreatPath>): (r: seq<ThreatPath>)
    ensures |r| <= |ps|
    ensures forall k :: 0 <= k < |r| ==> r[k].age > 0
  {
    Alive(Older(ps, 1))
  }

  /** n aging passes: never more paths than before, and after one pass or more only live ones. */
  function Aging(ps: seq<ThreatPath>, n: nat): (r: seq<ThreatPath>)
    ensures |r| <= |ps|
    ensures n >= 1 ==> forall k :: 0 <= k < |r| ==> r[k].age > 0
  {
    if n == 0 then ps else Aged(Aging(ps, n - 1))
  }

  /** The filter keeps a subsequence, so bounds on the ages carry over. */
  lemma {:induction false} AliveWithin(ps: seq<ThreatPath>, lo: int, hi: int)
    requires AgesWithin(ps, lo, hi)
    ensures AgesWithin(Alive(ps), lo, hi)
  {
    if ps != [] {
      AliveWithin(ps[..|ps| - 1], lo, hi);
    }
  }

  lemma {:induction false} AliveConcat(ps: seq<ThreatPath>, qs: seq<ThreatPath>)
    ensures Alive(ps + qs) == Alive(ps) + Alive(qs)
  {
    if qs == [] {
      assert ps + qs == ps;
    } else {
      var init := qs[..|qs| - 1];
      AliveConcat(ps, init);
      assert (ps + qs)[..|ps + qs| - 1] == ps + init;
    }
  }

  /** The filter keeps a list of live paths as it is. */
  lemma {:induction false} AliveOfAlive(ps: seq<ThreatPath>)
    requires forall k :: 0 <= k < |ps| ==> ps[k].age > 0
    ensures Alive(ps) == ps
  {
    if ps != [] {
      var init := ps[..|ps| - 1];
      AliveOfAlive(init);
      assert ps == init + [ps[|ps| - 1]];
    }
  }

  /** The filter empties a list of dead paths. */
  lemma {:induction false} AliveOfDead(ps: seq<ThreatPath>)
    requires forall k :: 0 <= k < |ps| ==> ps[k].age <= 0
    ensures Alive(ps) == []
  {
    if ps != [] {
      AliveOfDead(ps[..|ps| - 1]);
    }
  }

  lemma OlderConcat(ps: seq<ThreatPath>, qs: seq<ThreatPath>, n: int)
    ensures Older(ps + qs, n) == Older(ps, n) + Older(qs, n)
  {
    assert forall k :: 0 <= k < |ps + qs| ==> Older(ps + qs, n)[k] == (Older(ps, n) + Older(qs, n))[k];
  }

  lemma OlderTwice(ps: seq<ThreatPath>, m: int, n: int)
    ensures Older(Older(ps, m), n) == Older(ps, m + n)
  {
    assert forall k :: 0 <= k < |ps| ==> Older(Older(ps, m), n)[k] == Older(ps, m + n)[k];
  }

  /** Dropping the dead paths first changes nothing about the paths alive after another frame. */
  lemma {:induction false} AgedDropsDead(ps: seq<ThreatPath>)
    ensures Alive(Older(Alive(ps), 1)) == Alive(Older(ps, 1))
  {
    if ps != [] {
      var init := ps[..|ps| - 1];
      var last := ps[|ps| - 1];
      var keep := if last.age > 0 then [last] else [];
      assert ps == init + [last];
      AgedDropsDead(init);
      OlderConcat(Alive(init), keep, 1);
      AliveConcat(Older(Alive(init), 1), Older(keep, 1));
      assert Alive(Older(keep, 1)) == Alive(Older([last], 1));
      OlderConcat(init, [last], 1);
      AliveConcat(Older(init, 1), Older([last], 1));
    }
  }

  /** n >= 1 passes keep exactly the paths with age above n, each n frames older, in order. */
  lemma {:induction false} AgingSubtracts(ps: seq<ThreatPath>, n: nat)
    requires n >= 1
    ensures Aging(ps, n) == Alive(Older(ps, n))
  {
    if n > 1 {
      AgingSubtracts(ps, n - 1);
      AgingStep(ps, n - 1);
    }
  }

  /** One more pass over the paths alive after n frames: those alive after n + 1 frames. */
  lemma AgingStep(ps: seq<ThreatPath>, n: nat)
    ensures Aged(Alive(Older(ps, n))) == Alive(Older(ps, n + 1))
  {
    AgedDropsDead(Older(ps, n));
    OlderTwice(ps, n, 1);
  }

  /** Paths no older than n frames are all gone after n passes. */
  lemma PathsExpire(ps: seq<ThreatPath>, n: nat)
    requires AgesWithin(ps, 1, n)
    ensures Aging(ps, n) == []
  {
    if ps != [] {
      assert 1 <= ps[0].age <= n;
      AgingSubtracts(ps, n);
      AliveOfDead(Older(ps, n));
    }
  }

  /** A path started with age PATH_LIFE is alive with age 1 after PATH_LIFE - 1 passes and gone after PATH_LIFE. */
  lemma FreshPathLifetime(p: ThreatPath)
    requires p.age == PATH_LIFE
    ensures Aging([p], (PATH_LIFE - 1) as nat) == [p.(age := 1)]
    ensures Aging([p], PATH_LIFE as nat) == []
  {
    AgingSubtracts([p], (PATH_LIFE - 1) as nat);
    assert Older([p], PATH_LIFE - 1) == [p.(age := 1)];
    AliveOfAlive([p.(age := 1)]);
    PathsExpire([p], PATH_LIFE as nat);
  }

  /** One aging pass keeps the state consistent. */
  lemma AgedKeepsConsistent(s: ScanState, ants: seq<ScanAnt>)
    requires Consistent(s, ants)
    ensures Consistent(s.(threatPaths := Aged(s.threatPaths)), ants)
  {
    AliveWithin(Older(s.threatPaths, 1), 0, PATH_LIFE - 1);
  }

  /** The pheromone of one cell after the evaporation pass of `draw`: a visible cell loses 2%. */
  function Evaporated(v: real): (r: real)
    ensures v <= VISIBLE ==> r == v
    ensures v >= 0.0 ==> 0.0 <= r <= v
    ensures v > VISIBLE ==> r < v
  {
    if v > VISIBLE then v * 0.98 else v
  }

  // ---------------------------------------------------------------------
  // Initialisation
  // ---------------------------------------------------------------------

  /**
   * The file `initFiles` places for the draw d: on the cell
   * `(floor(rx * (COLS-1)), floor(ry * (ROWS-1)))`, which lies in
   * `[0, COLS-2] x [0, ROWS-2]`, and a threat exactly when `rThreat < 0.3`.
   */
  predicate FilePlaced(f: FileEntry, d: FileDraw)
  {
    && f.x == (d.rx * (COLS - 1) as real).Floor
    && f.y == (d.ry * (ROWS - 1) as real).Floor
    && 0 <= f.x <= COLS - 2 && 0 <= f.y <= ROWS - 2
    && f.isThreat == (d.rThreat < THREAT_RATE)
  }

  /** The files fs are the ones `initFiles` places for `draws`, one per draw. */
  predicate FilesPlaced(fs: seq<FileEntry>, draws: seq<FileDraw>)
  {
    |fs| == |draws| && forall i :: 0 <= i < |fs| ==> FilePlaced(fs[i], draws[i])
  }

  /**
   * The ant `initAnts` places for the draw d: on the whole cell
   * `(floor(rx * (COLS-1)), floor(ry * (ROWS-1)))` of `[0, COLS-2] x [0, ROWS-2]`,
   * with velocity `((rvx - 0.5) * 0.5, (rvy - 0.5) * 0.5)`, each component in `[-0.25, 0.25)`.
   */
  predicate AntPlaced(a: ScanAnt, d: AntDraw)
  {
    && a.x == (d.rx * (COLS - 1) as real).Floor as real
    && a.y == (d.ry * (ROWS - 1) as real).Floor as real
    && 0.0 <= a.x <= (COLS - 2) as real && 0.0 <= a.y <= (ROWS - 2) as real
    && a.vx == (d.rvx - 0.5) * 0.5 && a.vy == (d.rvy - 0.5) * 0.5
    && -0.25 <= a.vx < 0.25 && -0.25 <= a.vy < 0.25
  }

  /** The ants are the ones `initAnts` places for `draws`, one per draw. */
  predicate AntsPlaced(ants: seq<ScanAnt>, draws: seq<AntDraw>)
  {
    |ants| == |draws| && forall i :: 0 <= i < |ants| ==> AntPlaced(ants[i], draws[i])
  }

  /** The loop of `initFiles`: one unscanned file per draw, placed as FilePlaced says. */
  method MakeFiles(draws: seq<FileDraw>) returns (fs: seq<FileEntry>)
    requires forall i :: 0 <= i < |draws| ==> IsDraw(draws[i].rx) && IsDraw(draws[i].ry) && IsDraw(draws[i].rThreat)
    ensures FilesPlaced(fs, draws)
    ensures forall i :: 0 <= i < |fs| ==> !fs[i].scanned
  {
    fs := [];
    var i := 0;
    while i < |draws|
      invariant 0 <= i <= |draws| && |fs| == i
      invariant forall k :: 0 <= k < i ==> FilePlaced(fs[k], draws[k]) && !fs[k].scanned
    {
      var d := draws[i];
      FloorOfScaledDraw(d.rx, COLS - 1);
      FloorOfScaledDraw(d.ry, ROWS - 1);
      fs := fs + [FileEntry((d.rx * (COLS - 1) as real).Floor, (d.ry * (ROWS - 1) as real).Floor,
                            d.rThreat < THREAT_RATE, false)];
      i := i + 1;
    }
  }

  /** The loop of `initAnts`: one ant per draw, placed as AntPlaced says. */
  method MakeAnts(draws: seq<AntDraw>) returns (ants: seq<ScanAnt>)
    requires forall i :: 0 <= i < |draws| ==>
      IsDraw(draws[i].rx) && IsDraw(draws[i].ry) && IsDraw(draws[i].rvx) && IsDraw(draws[i].rvy)
    ensures AntsPlaced(ants, draws)
  {
    ants := [];
    var i := 0;
    while i < |draws|
      invariant 0 <= i <= |draws| && |ants| == i
      invariant forall k :: 0 <= k < i ==> AntPlaced(ants[k], draws[k])
    {
      var d := draws[i];
      FloorOfScaledDraw(d.rx, COLS - 1);
      FloorOfScaledDraw(d.ry, ROWS - 1);
      ants := ants + [ScanAnt((d.rx * (COLS - 1) as real).Floor as real, (d.ry * (ROWS - 1) as real).Floor as real,
                              (d.rvx - 0.5) * 0.5, (d.rvy - 0.5) * 0.5)];
      i := i + 1;
    }
  }

  // ---------------------------------------------------------------------
  // The simulation state
  // ---------------------------------------------------------------------

  class Scanner {
    var files: seq<FileEntry>
    var ants: seq<ScanAnt>
    var pheromone: array2<real>
    var threatPaths: seq<ThreatPath>
    var filesScanned: nat
    var threatsFound: nat

    /** The files, counters and threat paths as one value. */
    function State(): ScanState
      reads this
    {
      ScanState(files, filesScanned, threatsFound, threatPaths)
    }

    /** The pheromone grid is COLS x ROWS, indexed [x, y]. */
    ghost predicate GridShaped()
      reads this
    {
      pheromone.Length0 == COLS && pheromone.Length1 == ROWS
    }

    ghost predicate NonNegative()
      reads this, pheromone
      requires GridShaped()
    {
      forall i, j :: 0 <= i < COLS && 0 <= j < ROWS ==> pheromone[i, j] >= 0.0
    }

    /** The invariant between frames: Consistent, and a non-negative COLS x ROWS pheromone grid. */
    ghost predicate Valid()
      reads this, pheromone
    {
      GridShaped() && NonNegative() && Consistent(State(), ants)
    }

    /** The state right after a reset: nothing scanned, nothing found, no paths, no pheromone. */
    ghost predicate Reset()
      reads this, pheromone
      requires GridShaped()
    {
      && (forall k :: 0 <= k < |files| ==> !files[k].scanned)
      && (forall i, j :: 0 <= i < COLS && 0 <= j < ROWS ==> pheromone[i, j] == 0.0)
      && threatPaths == [] && filesScanned == 0 && threatsFound == 0
    }

    /** The start of the simulation: fresh state, then `initFiles`, `initAnts` and one `draw`. */
    constructor (fileDraws: seq<FileDraw>, antDraws: seq<AntDraw>)
      requires |fileDraws| == FILE_COUNT && |antDraws| == ANT_COUNT
      requires forall i :: 0 <= i < |fileDraws| ==>
        IsDraw(fileDraws[i].rx) && IsDraw(fileDraws[i].ry) && IsDraw(fileDraws[i].rThreat)
      requires forall i :: 0 <= i < |antDraws| ==>
        IsDraw(antDraws[i].rx) && IsDraw(antDraws[i].ry) && IsDraw(antDraws[i].rvx) && IsDraw(antDraws[i].rvy)
      ensures Valid() && fresh(pheromone) && Reset()
      ensures FilesPlaced(files, fileDraws) && AntsPlaced(ants, antDraws)
    {
      files, ants, threatPaths := [], [], [];
      pheromone := new real[COLS, ROWS]((i, j) => 0.0);
      filesScanned, threatsFound := 0, 0;
      new;
      InitFiles(fileDraws);
      InitAnts(antDraws);
      Draw();
    }

    /** `initFiles`: FILE_COUNT new unscanned files, a zero pheromone grid, no paths, zero counters. */
    method InitFiles(draws: seq<FileDraw>)
      requires |draws| == FILE_COUNT
      requires forall i :: 0 <= i < |draws| ==> IsDraw(draws[i].rx) && IsDraw(draws[i].ry) && IsDraw(draws[i].rThreat)
      modifies this
      ensures GridShaped() && fresh(pheromone) && Reset()
      ensures FilesPlaced(files, draws)
      ensures ants == old(ants)
    {
      files := MakeFiles(draws);
      pheromone := new real[COLS, ROWS]((i, j) => 0.0);
      threatPaths := [];
      filesScanned, threatsFound := 0, 0;
    }

    /** `initAnts`: ANT_COUNT new ants; nothing else changes. */
    method InitAnts(draws: seq<AntDraw>)
      requires |draws| == ANT_COUNT
      requires forall i :: 0 <= i < |draws| ==>
        IsDraw(draws[i].rx) && IsDraw(draws[i].ry) && IsDraw(draws[i].rvx) && IsDraw(draws[i].rvy)
      modifies this`ants
      ensures AntsPlaced(ants, draws)
    {
      ants := MakeAnts(draws);
    }

    /**
     * The reset button: `initFiles`, `initAnts`, then one `draw`, which
     * leaves the fresh state as it is.
     */
    method ResetScan(fileDraws: seq<FileDraw>, antDraws: seq<AntDraw>)
      requires |fileDraws| == FILE_COUNT && |antDraws| == ANT_COUNT
      requires forall i :: 0 <= i < |fileDraws| ==>
        IsDraw(fileDraws[i].rx) && IsDraw(fileDraws[i].ry) && IsDraw(fileDraws[i].rThreat)
      requires forall i :: 0 <= i < |antDraws| ==>
        IsDraw(antDraws[i].rx) && IsDraw(antDraws[i].ry) && IsDraw(antDraws[i].rvx) && IsDraw(antDraws[i].rvy)
      modifies this
      ensures Valid() && fresh(pheromone) && Reset()
      ensures FilesPlaced(files, fileDraws) && AntsPlaced(ants, antDraws)
    {
      InitFiles(fileDraws);
      InitAnts(antDraws);
      Draw();
    }

    /**
     * The inner `files.forEach` of `stepAnts` for an ant already moved to
     * `a`: the files, counters and paths become ScanStep of the old ones,
     * and each threat detection adds 5 units of pheromone on the ant's cell.
     */
    method ScanFiles(a: ScanAnt)
      requires GridShaped() && OnField(a)
      modifies this`files, this`filesScanned, this`threatsFound, this`threatPaths, pheromone
      ensures State() == ScanStep(old(State()), a)
      ensures forall i, j :: 0 <= i < COLS && 0 <= j < ROWS ==>
        pheromone[i, j] == old(pheromone[i, j]) +
          (if (i, j) == Cell(a) then Deposit(ThreatCount(a, old(files))) else 0.0)
    {
      ghost var fs := files;
      ghost var s0 := State();
      var k := 0;
      while k < |files|
        invariant 0 <= k <= |fs|
        invariant ScannedPrefix(State(), a, fs, s0, k)
        invariant forall i, j :: 0 <= i < COLS && 0 <= j < ROWS ==>
          pheromone[i, j] == old(pheromone[i, j]) +
            (if (i, j) == Cell(a) then Deposit(ThreatCount(a, fs[..k])) else 0.0)
      {
        DetectedExtends(State(), a, fs, s0, k);
        Detect(a, k);
        k := k + 1;
      }
      assert fs[..k] == fs;
      assert files == Mark(fs, a) by {
        MarkAt(fs, a);
      }
    }

    /**
     * The body of the inner `files.forEach` for file k: when the ant is
     * near it, mark it scanned and count a scan; when it is also a threat,
     * count a threat, deposit 5 units on the ant's cell and start a path.
     */
    method Detect(a: ScanAnt, k: nat)
      requires GridShaped() && OnField(a) && k < |files|
      modifies this`files, this`filesScanned, this`threatsFound, this`threatPaths, pheromone
      ensures State() == Detected(old(State()), a, k)
      ensures forall i, j :: 0 <= i < COLS && 0 <= j < ROWS ==>
        pheromone[i, j] == old(pheromone[i, j]) +
          (if (i, j) == Cell(a) && Near(a, old(files)[k]) && old(files)[k].isThreat then Deposit(1) else 0.0)
    {
      var file := files[k];
      var dx := a.x - file.x as real;
      var dy := a.y - file.y as real;
      if dx * dx + dy * dy < RADIUS_SQ {
        files := files[k := file.(scanned := true)];
        if file.isThreat {
          threatsFound := threatsFound + 1;
          var gx, gy := a.x.Floor, a.y.Floor;
          if 0 <= gx < COLS && 0 <= gy < ROWS {
            pheromone[gx, gy] := pheromone[gx, gy] + 5.0;
          }
          threatPaths := threatPaths + [PathAt(a)];
        }
        filesScanned := filesScanned + 1;
      }
    }

    /**
     * `stepAnts`: each ant in turn is moved (stepped, bounced, clamped) and
     * then checked against every file, so the ants become MoveAll of the old
     * ones, the files, counters and paths ScanAll of the old ones over the
     * moved ants, and every cell gains 5 units per threat detected by
     * an ant standing on it.
     */
    method StepAnts()
      requires GridShaped()
      modifies this, pheromone
      ensures GridShaped() && pheromone == old(pheromone)
      ensures ants == MoveAll(old(ants))
      ensures State() == ScanAll(old(State()), ants)
      ensures forall i, j :: 0 <= i < COLS && 0 <= j < ROWS ==>
        pheromone[i, j] == old(pheromone[i, j]) + Deposit(DepositsAt(ants, old(files), i, j))
      ensures old(Valid()) ==> Valid()
    {
      ghost var s0 := State();
      ghost var start := ants;
      ghost var done: seq<ScanAnt> := [];
      var k := 0;
      while k < |ants|
        invariant 0 <= k <= |ants| && |ants| == |start| && |done| == k
        invariant GridShaped() && pheromone == old(pheromone)
        invariant done == MoveAll(start[..k]) && ants == done + start[k..]
        invariant State() == ScanAll(s0, done)
        invariant forall i, j :: 0 <= i < COLS && 0 <= j < ROWS ==>
          pheromone[i, j] == old(pheromone[i, j]) + Deposit(DepositsAt(done, s0.files, i, j))
      {
        StepAnt(k, s0, start, done);
        done := done + [MoveAsWritten(start[k])];
        k := k + 1;
      }
      assert start[..k] == start;
      if old(Valid()) {
        StepKeepsConsistent(s0, start);
      }
    }

    /**
     * One turn of the outer `ants.forEach` of `stepAnts`: ant k moves, then
     * scans. When the ants before k are the moves `done` of the first k
     * ants of `start` and the files, counters and paths are their passes
     * over s0, one more ant is moved and has made its pass, and its
     * detections are added on its cell.
     */
    method StepAnt(k: nat, ghost s0: ScanState, ghost start: seq<ScanAnt>, ghost done: seq<ScanAnt>)
      requires GridShaped() && |done| == k < |start|
      requires done == MoveAll(start[..k]) && ants == done + start[k..]
      requires State() == ScanAll(s0, done)
      modifies this`ants, this`files, this`filesScanned, this`threatsFound, this`threatPaths, pheromone
      ensures done + [MoveAsWritten(start[k])] == MoveAll(start[..k + 1])
      ensures ants == (done + [MoveAsWritten(start[k])]) + start[k + 1..]
      ensures State() == ScanAll(s0, done + [MoveAsWritten(start[k])])
      ensures forall i, j :: 0 <= i < COLS && 0 <= j < ROWS ==>
        pheromone[i, j] == old(pheromone[i, j]) +
          (Deposit(DepositsAt(done + [MoveAsWritten(start[k])], s0.files, i, j)) - Deposit(DepositsAt(done, s0.files, i, j)))
    {
      var a := MoveAsWritten(ants[k]);
      MoveAllSnoc(start, k);
      UpdateAt(done, start, k, a);
      DepositsSnoc(done, s0.files, a);
      ants := ants[k := a];
      ScanAllFiles(s0, done);
      MarkAllAt(s0.files, done);
      CountsIgnoreScanned(a, files, s0.files);
      ScanAllSnoc(s0, done, a);
      ScanFiles(a);
    }

    /**
     * The evaporation inside `draw`: a cell above VISIBLE is multiplied by
     * 0.98; every other cell keeps its value.
     */
    method Evaporate()
      requires GridShaped()
      modifies pheromone
      ensures forall i, j :: 0 <= i < COLS && 0 <= j < ROWS ==> pheromone[i, j] == Evaporated(old(pheromone[i, j]))
      ensures old(NonNegative()) ==> NonNegative()
    {
      var x := 0;
      while x < COLS
        invariant 0 <= x <= COLS
        invariant forall i, j :: 0 <= i < COLS && 0 <= j < ROWS ==>
          pheromone[i, j] == if i < x then Evaporated(old(pheromone[i, j])) else old(pheromone[i, j])
      {
        var y := 0;
        while y < ROWS
          invariant 0 <= y <= ROWS
          invariant forall i, j :: 0 <= i < COLS && 0 <= j < ROWS ==>
            pheromone[i, j] == if i < x || (i == x && j < y) then Evaporated(old(pheromone[i, j])) else old(pheromone[i, j])
        {
          if pheromone[x, y] > VISIBLE {
            pheromone[x, y] := pheromone[x, y] * 0.98;
          }
          y := y + 1;
        }
        x := x + 1;
      }
    }

    /** The threat-path part of `draw`: every `path.age--`, then only the paths with age > 0 are kept. */
    method AgePaths()
      modifies this`threatPaths
      ensures threatPaths == Aged(old(threatPaths))
    {
      var decremented: seq<ThreatPath> := [];
      var i := 0;
      while i < |threatPaths|
        invariant 0 <= i <= |threatPaths| && |decremented| == i
        invariant forall k :: 0 <= k < i ==> decremented[k] == threatPaths[k].(age := threatPaths[k].age - 1)
      {
        decremented := decremented + [threatPaths[i].(age := threatPaths[i].age - 1)];
        i := i + 1;
      }
      assert decremented == Older(threatPaths, 1);
      var kept: seq<ThreatPath> := [];
      i := 0;
      while i < |decremented|
        invariant 0 <= i <= |decremented|
        invariant kept == Alive(decremented[..i])
      {
        assert decremented[..i + 1][..i] == decremented[..i];
        if decremented[i].age > 0 {
          kept := kept + [decremented[i]];
        }
        i := i + 1;
      }
      assert decremented[..i] == decremented;
      threatPaths := kept;
    }

    /** The state changes of `draw`: evaporate the visible pheromone, then age the threat paths. */
    method Draw()
      requires Valid()
      modifies this`threatPaths, pheromone
      ensures Valid()
      ensures forall i, j :: 0 <= i < COLS && 0 <= j < ROWS ==> pheromone[i, j] == Evaporated(old(pheromone[i, j]))
      ensures threatPaths == Aged(old(threatPaths))
    {
      AgedKeepsConsistent(State(), ants);
      Evaporate();
      AgePaths();
    }

    /**
     * One frame of `animate` while scanning: `stepAnts` then `draw`. The
     * invariant is kept; the ants move, the detections of the moved ants
     * are applied, every cell gains its deposits and then evaporates, and
     * the threat paths, new ones included, age by one frame.
     */
    method Frame()
      requires Valid()
      modifies this, pheromone
      ensures Valid() && pheromone == old(pheromone)
      ensures ants == MoveAll(old(ants))
      ensures State() == var s := ScanAll(old(State()), ants); s.(threatPaths := Aged(s.threatPaths))
      ensures forall i, j :: 0 <= i < COLS && 0 <= j < ROWS ==>
        pheromone[i, j] == Evaporated(old(pheromone[i, j]) + Deposit(DepositsAt(ants, old(files), i, j)))
    {
      StepAnts();
      label Stepped:
      Draw();
      forall i, j | 0 <= i < COLS && 0 <= j < ROWS
        ensures pheromone[i, j] == Evaporated(old(pheromone[i, j]) + Deposit(DepositsAt(ants, old(files), i, j)))
      {
        assert old@Stepped(pheromone[i, j]) == old(pheromone[i, j]) + Deposit(DepositsAt(ants, old(files), i, j));
      }
    }
  }
}
