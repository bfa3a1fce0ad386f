/**
 * The map-aware ant walk. Ants sit on the cells of a COLS x ROWS grid. On each
 * step an ant scores its in-bounds axis-aligned neighbours by the brightness
 * of the background map plus fifteen times their pheromone, keeps the first
 * strictly best one, sometimes replaces it by a random direction, moves there
 * (clamped to the grid) and deposits pheromone on the cell it lands on. After
 * every ant has stepped, the whole pheromone field evaporates once.
 *
 * `Math.random` is replaced by explicit draws in [0, 1) passed as parameters;
 * the brightness of the map is a read-only function of the cell.
 */
module AntWalk {
  import opened Wrappers
  import opened Draws

  /** Side, in pixels, of one grid cell. */
  const GRID: nat := 3
  /** Pheromone an ant leaves on the cell it steps onto. */
  const DEPOSIT: real := 4.0
  const ANT_COUNT: nat := 220
  /** An exploration draw below this discards the greedy choice. */
  const EXPLORE_RATE: real := 0.25

  /** The score of a neighbour: its brightness plus its pheromone weighted fifteen times. */
  function Score(brightness: real, trail: real): (r: real)
    ensures trail >= 0.0 ==> r >= brightness
  {
    brightness + trail * 15.0
  }

  /** A pheromone level after one evaporation: 0.995 of the old one. */
  function Decayed(v: real): (r: real)
    ensures v >= 0.0 ==> 0.0 <= r <= v
    ensures v > 0.0 ==> r < v
  {
    v * 0.995
  }

  /** The pheromone n ants leave on a cell they land on: DEPOSIT each. */
  function Deposits(n: nat): (r: real)
    ensures r >= 0.0
    ensures n > 0 ==> r >= DEPOSIT
  {
    if n == 0 then 0.0 else Deposits(n - 1) + DEPOSIT
  }

  /** n landings on a cell add exactly n times DEPOSIT. */
  lemma {:induction false} DepositsIsProduct(n: nat)
    ensures Deposits(n) == DEPOSIT * n as real
  {
    if n > 0 {
      DepositsIsProduct(n - 1);
    }
  }

  datatype Dir = Dir(dx: int, dy: int)

  /** The four moves, in the order in which they are scored. */
  const Dirs: seq<Dir> := [Dir(1, 0), Dir(-1, 0), Dir(0, 1), Dir(0, -1)]

  /** `Math.max(0, Math.min(n - 1, v))`: the nearest coordinate on a line of n cells. */
  function Clamp(v: int, n: int): (r: int)
    requires n >= 1
    ensures 0 <= r < n
    ensures 0 <= v < n ==> r == v
    ensures v < 0 ==> r == 0
    ensures n <= v ==> r == n - 1
  {
    if v < 0 then 0 else if n - 1 < v then n - 1 else v
  }

  /** `Math.floor(draw * dirs.length)`: the direction a random draw picks. */
  function RandomDir(draw: real): (k: nat)
    requires 0.0 <= draw < 1.0
    ensures k < |Dirs|
    ensures k as real <= draw * 4.0 < k as real + 1.0
  {
    (draw * 4.0).Floor
  }

  /**
   * `best` is what a left-to-right scan of the first n candidate scores keeps
   * when a later score replaces the current one only if it is strictly
   * greater: None exactly when no candidate is present, otherwise a present
   * candidate that no other beats and that every earlier one loses to. So
   * among the present candidates with the top score it is the first.
   */
  ghost predicate IsFirstBest(c: seq<Option<real>>, n: nat, best: Option<nat>)
    requires n <= |c|
    ensures IsFirstBest(c, n, best) && best.Some? ==>
      && best.value < n && c[best.value].Some?
      && forall j :: 0 <= j < n && c[j].Some? && c[j].value == c[best.value].value ==> best.value <= j
  {
    && (best.None? <==> forall j :: 0 <= j < n ==> c[j].None?)
    && (best.Some? ==>
          && best.value < n && c[best.value].Some?
          && (forall j :: 0 <= j < n && c[j].Some? ==> c[j].value <= c[best.value].value)
          && (forall j :: 0 <= j < best.value && c[j].Some? ==> c[j].value < c[best.value].value))
  }

  /** The index the source's `forEach` over the candidates holds in `best` after n of them. */
  function FirstBest(c: seq<Option<real>>, n: nat): (best: Option<nat>)
    requires n <= |c|
    ensures best.Some? ==> best.value < n && c[best.value].Some?
  {
    if n == 0 then None
    else
      var prev := FirstBest(c, n - 1);
      if c[n - 1].Some? && (prev.None? || c[n - 1].value > c[prev.value].value) then Some(n - 1)
      else prev
  }

  /** The scan keeps exactly the first strictly best present candidate. */
  lemma {:induction false} FirstBestIsFirstBest(c: seq<Option<real>>, n: nat)
    requires n <= |c|
    ensures IsFirstBest(c, n, FirstBest(c, n))
  {
    if n > 0 {
      FirstBestIsFirstBest(c, n - 1);
    }
  }

  /** The characterisation of the greedy choice leaves no freedom: at most one index meets it. */
  lemma FirstBestUnique(c: seq<Option<real>>, n: nat, a: Option<nat>, b: Option<nat>)
    requires n <= |c|
    requires IsFirstBest(c, n, a) && IsFirstBest(c, n, b)
    ensures a == b
  {
  }

  /** When every present candidate scores the same, the first present one wins the tie. */
  lemma TieGoesToFirst(c: seq<Option<real>>, n: nat, first: nat)
    requires first < n <= |c| && c[first].Some?
    requires forall j :: 0 <= j < first ==> c[j].None?
    requires forall j :: 0 <= j < n && c[j].Some? ==> c[j].value == c[first].value
    ensures FirstBest(c, n) == Some(first)
  {
    FirstBestIsFirstBest(c, n);
  }

  /** Number of occurrences of cell (i, j) in ps. */
  function CountAt(ps: seq<(int, int)>, i: int, j: int): (n: nat)
    ensures n <= |ps|
  {
    if ps == [] then 0
    else CountAt(ps[..|ps| - 1], i, j) + (if ps[|ps| - 1] == (i, j) then 1 else 0)
  }

  lemma CountAtSnoc(ps: seq<(int, int)>, p: (int, int), i: int, j: int)
    ensures CountAt(ps + [p], i, j) == CountAt(ps, i, j) + (if p == (i, j) then 1 else 0)
  {
    assert (ps + [p])[..|ps|] == ps;
  }

  /** One more ant landing on p adds DEPOSIT on p and nothing elsewhere. */
  lemma DepositsSnoc(ps: seq<(int, int)>, p: (int, int))
    ensures forall i, j ::
      Deposits(CountAt(ps + [p], i, j)) == Deposits(CountAt(ps, i, j)) + (if p == (i, j) then DEPOSIT else 0.0)
  {
    forall i, j
      ensures Deposits(CountAt(ps + [p], i, j)) == Deposits(CountAt(ps, i, j)) + (if p == (i, j) then DEPOSIT else 0.0)
    {
      CountAtSnoc(ps, p, i, j);
    }
  }

  /** A cell is counted exactly when it occurs. */
  lemma {:induction false} CountAtPositive(ps: seq<(int, int)>, i: int, j: int)
    ensures CountAt(ps, i, j) > 0 <==> (i, j) in ps
  {
    if ps != [] {
      var init := ps[..|ps| - 1];
      CountAtPositive(init, i, j);
      assert ps == init + [ps[|ps| - 1]];
    }
  }

  /** The COLS x ROWS pheromone field, indexed [x, y], and the read-only brightness of the map. */
  class Grid {
    const cols: nat
    const rows: nat
    /** `brightness(x * GRID, y * GRID)`: the brightness of the map at the top-left pixel of cell (x, y). */
    const bias: (int, int) -> real
    const pheromone: array2<real>

    ghost predicate Valid()
      reads this
    {
      && cols >= 1 && rows >= 1
      && pheromone.Length0 == cols && pheromone.Length1 == rows
    }

    predicate Inside(x: int, y: int)
      reads this
    {
      0 <= x < cols && 0 <= y < rows
    }

    /** The function f agrees with the pheromone field on every cell of the grid. */
    ghost predicate Holds(f: (int, int) -> real)
      reads this, pheromone
      requires Valid()
    {
      forall i, j :: Inside(i, j) ==> f(i, j) == pheromone[i, j]
    }

    ghost predicate NonNegative()
      reads this, pheromone
      requires Valid()
    {
      forall i, j :: 0 <= i < cols && 0 <= j < rows ==> pheromone[i, j] >= 0.0
    }

    /** A grid whose pheromone is zero everywhere. */
    constructor (cols: nat, rows: nat, bias: (int, int) -> real)
      requires cols >= 1 && rows >= 1
      ensures Valid() && NonNegative()
      ensures this.cols == cols && this.rows == rows && this.bias == bias
      ensures fresh(pheromone)
      ensures forall i, j :: 0 <= i < cols && 0 <= j < rows ==> pheromone[i, j] == 0.0
    {
      this.cols, this.rows, this.bias := cols, rows, bias;
      pheromone := new real[cols, rows]((i, j) => 0.0);
    }

    /** Score of the neighbour (nx, ny), or None when it lies off the grid. */
    function ScoreAt(nx: int, ny: int): (s: Option<real>)
      reads this, pheromone
      requires Valid()
      ensures s.Some? <==> Inside(nx, ny)
    {
      if Inside(nx, ny) then Some(Score(bias(nx, ny), pheromone[nx, ny])) else None
    }

    /** The scores of the four neighbours of (x, y), in the order of Dirs. */
    function Candidates(x: int, y: int): (c: seq<Option<real>>)
      reads this, pheromone
      requires Valid()
      ensures |c| == |Dirs|
      ensures forall k :: 0 <= k < |Dirs| ==> (c[k].Some? <==> Inside(x + Dirs[k].dx, y + Dirs[k].dy))
    {
      [ ScoreAt(x + Dirs[0].dx, y + Dirs[0].dy), ScoreAt(x + Dirs[1].dx, y + Dirs[1].dy),
        ScoreAt(x + Dirs[2].dx, y + Dirs[2].dy), ScoreAt(x + Dirs[3].dx, y + Dirs[3].dy) ]
    }

    /** Score of the neighbour (nx, ny) when the pheromone field is `field`, or None off the grid. */
    function ScoreIn(field: (int, int) -> real, nx: int, ny: int): (s: Option<real>)
      reads this
      requires Valid()
      ensures s.Some? <==> Inside(nx, ny)
    {
      if Inside(nx, ny) then Some(Score(bias(nx, ny), field(nx, ny))) else None
    }

    /** The scores of the four neighbours of (x, y) when the pheromone field is `field`. */
    function CandidatesIn(field: (int, int) -> real, x: int, y: int): (c: seq<Option<real>>)
      reads this
      requires Valid()
      ensures |c| == |Dirs|
      ensures forall k :: 0 <= k < |Dirs| ==> (c[k].Some? <==> Inside(x + Dirs[k].dx, y + Dirs[k].dy))
    {
      [ ScoreIn(field, x + Dirs[0].dx, y + Dirs[0].dy), ScoreIn(field, x + Dirs[1].dx, y + Dirs[1].dy),
        ScoreIn(field, x + Dirs[2].dx, y + Dirs[2].dy), ScoreIn(field, x + Dirs[3].dx, y + Dirs[3].dy) ]
    }

    /**
     * The scoring pass of a step: skip the neighbours off the grid and keep
     * the first one with the strictly greatest score.
     */
    method ChooseGreedy(x: int, y: int) returns (best: Option<nat>)
      requires Valid()
      ensures best == FirstBest(Candidates(x, y), |Dirs|)
      ensures best.None? <==> forall k :: 0 <= k < |Dirs| ==> !Inside(x + Dirs[k].dx, y + Dirs[k].dy)
      ensures best.Some? ==> best.value < |Dirs| && Inside(x + Dirs[best.value].dx, y + Dirs[best.value].dy)
    {
      ghost var c := Candidates(x, y);
      best := None;
      var bestScore := 0.0;  // stands for -Infinity while best is None
      var k := 0;
      while k < |Dirs|
        invariant 0 <= k <= |Dirs|
        invariant best == FirstBest(c, k)
        invariant best.Some? ==> bestScore == c[best.value].value
      {
        var d := Dirs[k];
        var nx, ny := x + d.dx, y + d.dy;
        if Inside(nx, ny) {
          var score := Score(bias(nx, ny), pheromone[nx, ny]);
          if best.None? || score > bestScore {
            bestScore := score;
            best := Some(k);
          }
        }
        k := k + 1;
      }
      FirstBestIsFirstBest(c, |Dirs|);
    }

    /**
     * Where an ant on (x, y) goes: the greedy choice among the in-bounds
     * neighbours, replaced by the random direction `pick` selects when there
     * is no greedy choice or the exploration draw is below EXPLORE_RATE (the
     * exploration draw is not consulted when there is no greedy choice),
     * clamped to the grid.
     */
    function Target(x: int, y: int, explore: real, pick: real): (t: (int, int))
      reads this, pheromone
      requires Valid() && Inside(x, y)
      requires 0.0 <= pick < 1.0
      ensures Inside(t.0, t.1)
      ensures -1 <= t.0 - x <= 1 && -1 <= t.1 - y <= 1
    {
      Destination(Candidates(x, y), x, y, explore, pick)
    }

    /** Where an ant on (x, y) goes when the pheromone field is `field`. */
    function TargetIn(field: (int, int) -> real, x: int, y: int, explore: real, pick: real): (t: (int, int))
      reads this
      requires Valid()
      requires 0.0 <= pick < 1.0
    {
      Destination(CandidatesIn(field, x, y), x, y, explore, pick)
    }

    /** The override and the clamp of a step, given the neighbours' scores c. */
    function Destination(c: seq<Option<real>>, x: int, y: int, explore: real, pick: real): (t: (int, int))
      reads this
      requires Valid() && |c| == |Dirs|
      requires 0.0 <= pick < 1.0
      ensures Inside(t.0, t.1)
      ensures Inside(x, y) ==> -1 <= t.0 - x <= 1 && -1 <= t.1 - y <= 1
    {
      var greedy := FirstBest(c, |Dirs|);
      var k := if greedy.None? || explore < EXPLORE_RATE then RandomDir(pick) else greedy.value;
      (Clamp(x + Dirs[k].dx, cols), Clamp(y + Dirs[k].dy, rows))
    }

    /** The target depends on the pheromone only through its values on the grid. */
    lemma TargetInField(field: (int, int) -> real, x: int, y: int, explore: real, pick: real)
      requires Valid() && Inside(x, y) && 0.0 <= pick < 1.0
      requires forall i, j :: Inside(i, j) ==> field(i, j) == pheromone[i, j]
      ensures Target(x, y, explore, pick) == TargetIn(field, x, y, explore, pick)
    {
      assert Candidates(x, y) == CandidatesIn(field, x, y);
    }

    /**
     * With an exploration draw of at least EXPLORE_RATE and a neighbour on
     * the grid, the ant goes, without clamping, to the first strictly best
     * neighbour.
     */
    lemma GreedyTarget(x: int, y: int, explore: real, pick: real)
      requires Valid() && Inside(x, y)
      requires 0.0 <= pick < 1.0 && explore >= EXPLORE_RATE
      requires exists k :: 0 <= k < |Dirs| && Inside(x + Dirs[k].dx, y + Dirs[k].dy)
      ensures var best := FirstBest(Candidates(x, y), |Dirs|);
        && best.Some? && IsFirstBest(Candidates(x, y), |Dirs|, best)
        && Target(x, y, explore, pick) == (x + Dirs[best.value].dx, y + Dirs[best.value].dy)
    {
      var c := Candidates(x, y);
      FirstBestIsFirstBest(c, |Dirs|);
      var k :| 0 <= k < |Dirs| && Inside(x + Dirs[k].dx, y + Dirs[k].dy);
      assert c[k].Some?;
    }

    /**
     * When the greedy choice is overridden (exploration draw below
     * EXPLORE_RATE, or no neighbour on the grid), the ant takes the
     * direction `pick` selects if it stays on the grid and otherwise stays
     * where it is.
     */
    lemma ExploreTarget(x: int, y: int, explore: real, pick: real)
      requires Valid() && Inside(x, y)
      requires 0.0 <= pick < 1.0
      requires explore < EXPLORE_RATE || forall k :: 0 <= k < |Dirs| ==> !Inside(x + Dirs[k].dx, y + Dirs[k].dy)
      ensures var d := Dirs[RandomDir(pick)];
        Target(x, y, explore, pick) == if Inside(x + d.dx, y + d.dy) then (x + d.dx, y + d.dy) else (x, y)
    {
      var c := Candidates(x, y);
      FirstBestIsFirstBest(c, |Dirs|);
    }

    /**
     * Ant m of the walk `ps` from the cells `start` goes to its target on
     * the pheromone field `field` plus DEPOSIT on a cell for every ant
     * before it that landed there.
     */
    ghost predicate WalkedAt(field: (int, int) -> real, start: seq<(int, int)>, explores: seq<real>, picks: seq<real>,
                             ps: seq<(int, int)>, m: nat)
      reads this
      requires Valid() && m < |ps| <= |start| == |explores| == |picks|
      requires 0.0 <= picks[m] < 1.0
    {
      ps[m] == TargetIn(WithDeposits(field, ps[..m]), start[m].0, start[m].1, explores[m], picks[m])
    }

    /** `ps` are the cells that ants starting on the cells `start` reach when they step in order on `field`. */
    ghost predicate Walked(field: (int, int) -> real, start: seq<(int, int)>, explores: seq<real>, picks: seq<real>,
                           ps: seq<(int, int)>)
      reads this
      requires Valid() && |ps| <= |start| == |explores| == |picks|
      requires forall m :: 0 <= m < |picks| ==> 0.0 <= picks[m] < 1.0
    {
      forall m :: 0 <= m < |ps| ==> WalkedAt(field, start, explores, picks, ps, m)
    }

    /**
     * Every ant of a walk ends on the grid, and an ant that started on the
     * grid moved at most one cell along either axis.
     */
    lemma WalkedStaysNear(field: (int, int) -> real, start: seq<(int, int)>, explores: seq<real>, picks: seq<real>,
                          ps: seq<(int, int)>)
      requires Valid() && |ps| <= |start| == |explores| == |picks|
      requires forall m :: 0 <= m < |picks| ==> 0.0 <= picks[m] < 1.0
      requires Walked(field, start, explores, picks, ps)
      ensures forall m :: 0 <= m < |ps| ==> Inside(ps[m].0, ps[m].1)
      ensures forall m :: 0 <= m < |ps| && Inside(start[m].0, start[m].1) ==>
        -1 <= ps[m].0 - start[m].0 <= 1 && -1 <= ps[m].1 - start[m].1 <= 1
    {
      forall m | 0 <= m < |ps|
        ensures Inside(ps[m].0, ps[m].1)
        ensures Inside(start[m].0, start[m].1) ==> -1 <= ps[m].0 - start[m].0 <= 1 && -1 <= ps[m].1 - start[m].1 <= 1
      {
        assert WalkedAt(field, start, explores, picks, ps, m);
      }
    }

    /** A walk extended by the target of the next ant on the field it sees is still a walk. */
    lemma WalkedSnoc(field: (int, int) -> real, start: seq<(int, int)>, explores: seq<real>, picks: seq<real>,
                     moved: seq<(int, int)>, t: (int, int))
      requires Valid() && |moved| < |start| == |explores| == |picks|
      requires forall m :: 0 <= m < |picks| ==> 0.0 <= picks[m] < 1.0
      requires Walked(field, start, explores, picks, moved)
      requires t == TargetIn(WithDeposits(field, moved), start[|moved|].0, start[|moved|].1, explores[|moved|], picks[|moved|])
      ensures Walked(field, start, explores, picks, moved + [t])
    {
      var ps := moved + [t];
      forall m | 0 <= m < |ps|
        ensures WalkedAt(field, start, explores, picks, ps, m)
      {
        if m < |moved| {
          assert ps[..m] == moved[..m];
          assert WalkedAt(field, start, explores, picks, moved, m);
        } else {
          assert ps[..m] == moved;
        }
      }
    }

    /**
     * When the first ants have walked to `moved` and the pheromone field is
     * `field` plus their deposits, the next ant's target on the grid
     * extends the walk by one.
     */
    lemma WalkedNext(field: (int, int) -> real, start: seq<(int, int)>, explores: seq<real>, picks: seq<real>,
                     moved: seq<(int, int)>)
      requires Valid() && |moved| < |start| == |explores| == |picks|
      requires forall m :: 0 <= m < |picks| ==> 0.0 <= picks[m] < 1.0
      requires Inside(start[|moved|].0, start[|moved|].1)
      requires Walked(field, start, explores, picks, moved)
      requires forall i, j :: Inside(i, j) ==> pheromone[i, j] == field(i, j) + Deposits(CountAt(moved, i, j))
      ensures Walked(field, start, explores, picks,
                     moved + [Target(start[|moved|].0, start[|moved|].1, explores[|moved|], picks[|moved|])])
    {
      var k := |moved|;
      var seen := WithDeposits(field, moved);
      forall i, j | Inside(i, j)
        ensures seen(i, j) == pheromone[i, j]
      {
      }
      TargetInField(seen, start[k].0, start[k].1, explores[k], picks[k]);
      WalkedSnoc(field, start, explores, picks, moved, Target(start[k].0, start[k].1, explores[k], picks[k]));
    }

    /** The decay inside `drawPheromones`: every cell is multiplied by 0.995. */
    method Evaporate()
      requires Valid()
      modifies pheromone
      ensures forall i, j :: Inside(i, j) ==> pheromone[i, j] == Decayed(old(pheromone[i, j]))
      ensures old(NonNegative()) ==> NonNegative()
    {
      var x := 0;
      while x < cols
        invariant 0 <= x <= cols
        invariant forall i, j :: Inside(i, j) ==>
          pheromone[i, j] == if i < x then Decayed(old(pheromone[i, j])) else old(pheromone[i, j])
      {
        var y := 0;
        while y < rows
          invariant 0 <= y <= rows
          invariant forall i, j :: Inside(i, j) ==>
            pheromone[i, j] == if i < x || (i == x && j < y) then Decayed(old(pheromone[i, j])) else old(pheromone[i, j])
        {
          pheromone[x, y] := Decayed(pheromone[x, y]);
          y := y + 1;
        }
        x := x + 1;
      }
      assert forall i, j :: Inside(i, j) && old(pheromone[i, j]) >= 0.0 ==> pheromone[i, j] >= 0.0;
    }
  }

  class Ant {
    var x: int
    var y: int
    /** The ant's place in the colony; it keeps distinct ants apart in proofs. */
    ghost const id: nat

    /** An ant on the cell `(floor(rx * COLS), floor(ry * ROWS))`. */
    constructor (g: Grid, rx: real, ry: real, ghost id: nat)
      requires g.Valid()
      requires 0.0 <= rx < 1.0 && 0.0 <= ry < 1.0
      ensures g.Inside(x, y)
      ensures x as real <= rx * g.cols as real < x as real + 1.0
      ensures y as real <= ry * g.rows as real < y as real + 1.0
      ensures this.id == id
    {
      this.id := id;
      FloorOfScaledDraw(rx, g.cols);
      FloorOfScaledDraw(ry, g.rows);
      x := (rx * g.cols as real).Floor;
      y := (ry * g.rows as real).Floor;
    }

    /** One step: the move Grid.Target describes, then a deposit of DEPOSIT on the new cell. */
    method Step(g: Grid, explore: real, pick: real)
      requires g.Valid() && g.Inside(x, y)
      requires 0.0 <= explore < 1.0 && 0.0 <= pick < 1.0
      modifies this, g.pheromone
      ensures (x, y) == old(g.Target(x, y, explore, pick))
      ensures forall i, j :: g.Inside(i, j) ==>
        g.pheromone[i, j] == old(g.pheromone[i, j]) + (if (i, j) == (x, y) then DEPOSIT else 0.0)
    {
      ghost var target := g.Target(x, y, explore, pick);
      var best := g.ChooseGreedy(x, y);
      var k: nat;
      if best.None? || explore < EXPLORE_RATE {
        k := RandomDir(pick);
      } else {
        k := best.value;
      }
      x := Clamp(x + Dirs[k].dx, g.cols);
      y := Clamp(y + Dirs[k].dy, g.rows);
      assert (x, y) == target;
      g.pheromone[x, y] := g.pheromone[x, y] + DEPOSIT;
    }
  }

  /** The cells the ants of s occupy, in order. */
  function PositionsOf(s: seq<Ant>): (ps: seq<(int, int)>)
    reads s
    ensures |ps| == |s|
  {
    if s == [] then []
    else PositionsOf(s[..|s| - 1]) + [(s[|s| - 1].x, s[|s| - 1].y)]
  }

  /** Entry m of PositionsOf(s) is the cell of ant m. */
  lemma {:induction false} PositionsOfAt(s: seq<Ant>)
    ensures forall m :: 0 <= m < |s| ==> PositionsOf(s)[m] == (s[m].x, s[m].y)
  {
    if s != [] {
      PositionsOfAt(s[..|s| - 1]);
    }
  }

  /** The field f with DEPOSIT added on every cell for each entry of ps that is that cell. */
  function WithDeposits(f: (int, int) -> real, ps: seq<(int, int)>): (int, int) -> real
  {
    (i, j) => f(i, j) + Deposits(CountAt(ps, i, j))
  }

  /** `Array.from({ length: ANT_COUNT }, () => new Ant())`: one fresh ant per pair of draws. */
  method MakeAnts(g: Grid, draws: seq<(real, real)>) returns (made: seq<Ant>)
    requires g.Valid()
    requires forall i :: 0 <= i < |draws| ==> 0.0 <= draws[i].0 < 1.0 && 0.0 <= draws[i].1 < 1.0
    ensures |made| == |draws|
    ensures forall i :: 0 <= i < |made| ==> fresh(made[i]) && made[i].id == i
    ensures forall i :: 0 <= i < |made| ==>
      g.Inside(made[i].x, made[i].y) &&
      made[i].x == (draws[i].0 * g.cols as real).Floor && made[i].y == (draws[i].1 * g.rows as real).Floor
  {
    made := [];
    while |made| < |draws|
      invariant |made| <= |draws|
      invariant forall i :: 0 <= i < |made| ==> fresh(made[i]) && made[i].id == i
      invariant forall i :: 0 <= i < |made| ==>
        g.Inside(made[i].x, made[i].y) &&
        made[i].x == (draws[i].0 * g.cols as real).Floor && made[i].y == (draws[i].1 * g.rows as real).Floor
    {
      var a := new Ant(g, draws[|made|].0, draws[|made|].1, |made|);
      made := made + [a];
    }
  }

  /** The map simulation: its grid and its ANT_COUNT ants. */
  class MapSimulation {
    const grid: Grid
    const ants: seq<Ant>

    ghost predicate Valid()
      reads this, grid, grid.pheromone, ants
    {
      && grid.Valid() && grid.NonNegative()
      && |ants| == ANT_COUNT
      && (forall i :: 0 <= i < |ants| ==> ants[i].id == i)
      && forall i :: 0 <= i < |ants| ==> grid.Inside(ants[i].x, ants[i].y)
    }

    /**
     * `initSimulation`: COLS and ROWS from the canvas size, an all-zero
     * pheromone field and one ant per pair of position draws.
     */
    constructor (width: nat, height: nat, bias: (int, int) -> real, draws: seq<(real, real)>)
      requires width / GRID >= 1 && height / GRID >= 1
      requires |draws| == ANT_COUNT
      requires forall i :: 0 <= i < |draws| ==> 0.0 <= draws[i].0 < 1.0 && 0.0 <= draws[i].1 < 1.0
      ensures Valid() && fresh(grid.pheromone)
      ensures grid.cols == width / GRID && grid.rows == height / GRID && grid.bias == bias
      ensures forall i, j :: grid.Inside(i, j) ==> grid.pheromone[i, j] == 0.0
      ensures forall i :: 0 <= i < |ants| ==>
        ants[i].x == (draws[i].0 * grid.cols as real).Floor && ants[i].y == (draws[i].1 * grid.rows as real).Floor
    {
      var g := new Grid(width / GRID, height / GRID, bias);
      var made := MakeAnts(g, draws);
      grid, ants := g, made;
    }

    /**
     * The pass of the ants over the grid after the first k ants, which
     * started on the cells `start`, have stepped to the cells `moved`: each
     * of them is on the grid, at most one cell away along either axis from
     * where it started, and the other ants have not moved.
     */
    ghost predicate SteppedUpTo(k: nat, start: seq<(int, int)>, moved: seq<(int, int)>)
      reads this, grid, ants
      requires k == |moved| <= |start| == |ants|
    {
      && (forall m :: 0 <= m < k ==>
            && moved[m] == (ants[m].x, ants[m].y) && grid.Inside(moved[m].0, moved[m].1)
            && -1 <= moved[m].0 - start[m].0 <= 1 && -1 <= moved[m].1 - start[m].1 <= 1)
      && forall m :: k <= m < |ants| ==> (ants[m].x, ants[m].y) == start[m]
    }

    /**
     * One turn of the `forEach` over the ants: ant k steps to the target of
     * the field as it stands when its turn comes, and deposits DEPOSIT on
     * the cell it lands on; no other ant moves.
     */
    method StepAnt(k: nat, explores: seq<real>, picks: seq<real>, ghost start: seq<(int, int)>, ghost moved: seq<(int, int)>)
      requires grid.Valid() && k == |moved| < |start| == |ants|
      requires |explores| == |ants| && |picks| == |ants|
      requires forall m :: 0 <= m < |ants| ==> 0.0 <= explores[m] < 1.0 && 0.0 <= picks[m] < 1.0
      requires forall m :: 0 <= m < |ants| ==> ants[m].id == m
      requires forall m :: 0 <= m < |start| ==> grid.Inside(start[m].0, start[m].1)
      requires SteppedUpTo(k, start, moved)
      modifies ants[k], grid.pheromone
      ensures (ants[k].x, ants[k].y) == old(grid.Target(start[k].0, start[k].1, explores[k], picks[k]))
      ensures SteppedUpTo(k + 1, start, moved + [(ants[k].x, ants[k].y)])
      ensures forall i, j :: grid.Inside(i, j) ==>
        grid.pheromone[i, j] == old(grid.pheromone[i, j]) +
          (Deposits(CountAt(moved + [(ants[k].x, ants[k].y)], i, j)) - Deposits(CountAt(moved, i, j)))
    {
      ants[k].Step(grid, explores[k], picks[k]);
      assert forall m :: 0 <= m < |ants| && m != k ==> ants[m] != ants[k];
      DepositsSnoc(moved, (ants[k].x, ants[k].y));
    }

    /**
     * The `ants.forEach(a => a.step())` pass of a tick, for any `field0`
     * that is the pheromone field at its start: the ants step in order as
     * Grid.Walked describes, each seeing the deposits of the ants before it.
     * A cell gains DEPOSIT for every ant that ends on it.
     */
    method StepAll(explores: seq<real>, picks: seq<real>, ghost field0: (int, int) -> real)
      requires Valid()
      requires |explores| == |ants| && |picks| == |ants|
      requires forall i :: 0 <= i < |ants| ==> 0.0 <= explores[i] < 1.0 && 0.0 <= picks[i] < 1.0
      // grid.Valid() repeats part of Valid(); stated on its own it keeps the proof well within the resource limit
      requires grid.Valid() && grid.Holds(field0)
      modifies grid.pheromone, ants
      ensures Valid()
      ensures grid.Walked(field0, old(PositionsOf(ants)), explores, picks, PositionsOf(ants))
      ensures forall i, j :: grid.Inside(i, j) ==>
        grid.pheromone[i, j] == old(grid.pheromone[i, j]) + Deposits(CountAt(PositionsOf(ants), i, j))
      ensures forall i :: 0 <= i < |ants| ==>
        -1 <= ants[i].x - old(ants[i].x) <= 1 && -1 <= ants[i].y - old(ants[i].y) <= 1
    {
      ghost var start := PositionsOf(ants);
      PositionsOfAt(ants);
      ghost var moved := StepEach(explores, picks, start, field0);
      PositionsOfAt(ants);
      assert PositionsOf(ants) == moved;
    }

    /** The loop of StepAll, over ants that start on the cells `start`; `moved` are the cells they reach. */
    method StepEach(explores: seq<real>, picks: seq<real>, ghost start: seq<(int, int)>, ghost field0: (int, int) -> real)
      returns (ghost moved: seq<(int, int)>)
      requires grid.Valid() && |start| == |ants| && |explores| == |ants| && |picks| == |ants|
      requires forall i :: 0 <= i < |ants| ==> 0.0 <= explores[i] < 1.0 && 0.0 <= picks[i] < 1.0
      requires forall m :: 0 <= m < |ants| ==> ants[m].id == m
      requires forall m :: 0 <= m < |start| ==> grid.Inside(start[m].0, start[m].1)
      requires SteppedUpTo(0, start, [])
      requires grid.Holds(field0)
      modifies grid.pheromone, ants
      ensures |moved| == |ants| && SteppedUpTo(|ants|, start, moved)
      ensures grid.Walked(field0, start, explores, picks, moved)
      ensures forall i, j :: grid.Inside(i, j) ==> grid.pheromone[i, j] == field0(i, j) + Deposits(CountAt(moved, i, j))
    {
      var k := 0;
      moved := [];
      while k < |ants|
        invariant k == |moved| <= |ants|
        invariant SteppedUpTo(k, start, moved)
        invariant grid.Walked(field0, start, explores, picks, moved)
        invariant forall i, j :: grid.Inside(i, j) ==> grid.pheromone[i, j] == field0(i, j) + Deposits(CountAt(moved, i, j))
      {
        StepOnWalk(k, explores, picks, start, moved, field0);
        moved := moved + [(ants[k].x, ants[k].y)];
        k := k + 1;
      }
    }

    /** One turn of StepEach's loop: StepAnt, with the walk and the field of the ants so far carried along. */
    method StepOnWalk(k: nat, explores: seq<real>, picks: seq<real>, ghost start: seq<(int, int)>,
                      ghost moved: seq<(int, int)>, ghost field0: (int, int) -> real)
      requires grid.Valid() && k == |moved| < |start| == |ants|
      requires |explores| == |ants| && |picks| == |ants|
      requires forall m :: 0 <= m < |ants| ==> 0.0 <= explores[m] < 1.0 && 0.0 <= picks[m] < 1.0
      requires forall m :: 0 <= m < |ants| ==> ants[m].id == m
      requires forall m :: 0 <= m < |start| ==> grid.Inside(start[m].0, start[m].1)
      requires SteppedUpTo(k, start, moved)
      requires grid.Walked(field0, start, explores, picks, moved)
      requires forall i, j :: grid.Inside(i, j) ==> grid.pheromone[i, j] == field0(i, j) + Deposits(CountAt(moved, i, j))
      modifies ants[k], grid.pheromone
      ensures SteppedUpTo(k + 1, start, moved + [(ants[k].x, ants[k].y)])
      ensures grid.Walked(field0, start, explores, picks, moved + [(ants[k].x, ants[k].y)])
      ensures forall i, j :: grid.Inside(i, j) ==>
        grid.pheromone[i, j] == field0(i, j) + Deposits(CountAt(moved + [(ants[k].x, ants[k].y)], i, j))
    {
      grid.WalkedNext(field0, start, explores, picks, moved);
      StepAnt(k, explores, picks, start, moved);
    }

    /**
     * `animate` without the drawing, for any `field0` that is the pheromone
     * field at its start: all ants step in order as Grid.Walked describes,
     * then the field evaporates once. A cell ends as the decay of its old
     * value plus DEPOSIT for every ant that landed on it, so a cell no ant
     * landed on only decays.
     */
    method Tick(explores: seq<real>, picks: seq<real>, ghost field0: (int, int) -> real)
      requires Valid()
      requires |explores| == |ants| && |picks| == |ants|
      requires forall i :: 0 <= i < |ants| ==> 0.0 <= explores[i] < 1.0 && 0.0 <= picks[i] < 1.0
      // grid.Valid() repeats part of Valid(); stated on its own it keeps the proof well within the resource limit
      requires grid.Valid() && grid.Holds(field0)
      modifies grid.pheromone, ants
      ensures Valid()
      ensures grid.Walked(field0, old(PositionsOf(ants)), explores, picks, PositionsOf(ants))
      ensures forall i, j :: grid.Inside(i, j) ==>
        grid.pheromone[i, j] == Decayed(old(grid.pheromone[i, j]) + Deposits(CountAt(PositionsOf(ants), i, j)))
      ensures forall i, j :: grid.Inside(i, j) && (i, j) !in PositionsOf(ants) ==>
        grid.pheromone[i, j] == Decayed(old(grid.pheromone[i, j]))
      ensures forall i :: 0 <= i < |ants| ==>
        -1 <= ants[i].x - old(ants[i].x) <= 1 && -1 <= ants[i].y - old(ants[i].y) <= 1
    {
      StepAll(explores, picks, field0);
      ghost var ps := PositionsOf(ants);
      grid.Evaporate();
      assert PositionsOf(ants) == ps;
      forall i, j | grid.Inside(i, j)
        ensures grid.pheromone[i, j] == Decayed(old(grid.pheromone[i, j]) + Deposits(CountAt(ps, i, j)))
      {
      }
      forall i, j | grid.Inside(i, j) && (i, j) !in ps
        ensures grid.pheromone[i, j] == Decayed(old(grid.pheromone[i, j]))
      {
        CountAtPositive(ps, i, j);
      }
    }
  }

  /**
   * The flat-field case: on a 10 x 10 grid with no brightness and no
   * pheromone, an ant at (5, 5) that does not explore steps to (6, 5), the
   * first of the four equally scored neighbours.
   */
  method FlatFieldStepsRight() returns (x: int, y: int)
    ensures x == 6 && y == 5
  {
    var g := new Grid(10, 10, (i, j) => 0.0);
    var a := new Ant(g, 0.5, 0.5, 0);
    assert a.x == 5 && a.y == 5;
    ghost var c := g.Candidates(5, 5);
    assert forall k :: 0 <= k < 4 ==> c[k] == Some(0.0);
    TieGoesToFirst(c, 4, 0);
    a.Step(g, 0.5, 0.0);
    x, y := a.x, a.y;
  }
}
