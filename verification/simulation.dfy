/** The simulation driver: the run flag and clock, the per-step advance of
    grid, crews and evacuations, the burn statistics, the two uniform
    scenario fills and the rock-only firebreak. */
module Simulation {
  import opened Cells
  import opened Suppression
  import opened Bresenham
  import opened Lattice
  import opened Spread
  import opened Advance
  import HumanFactors

  datatype Stats = Stats(burning: int, burned: int, fuel: int)

  datatype Sim = Sim(grid: Grid, manager: HumanFactors.Manager, timeStep: real,
                     totalTime: real, running: bool, stats: Stats)

  const NoStats: Stats := Stats(0, 0, 0)

  /** A new simulation: a fresh grid and manager, stopped, at time 0, with
      all counters 0. */
  function NewSim(w: nat, h: nat, dt: real): (s: Sim)
    ensures Valid(s.grid) && s.grid.width == w && s.grid.height == h
    ensures s.manager == HumanFactors.NewManager(HumanFactors.DefaultBudget)
    ensures s.timeStep == dt && s.totalTime == 0.0 && !s.running && s.stats == NoStats
  {
    Sim(NewGrid(w, h), HumanFactors.NewManager(HumanFactors.DefaultBudget), dt, 0.0, false, NoStats)
  }

  // ---------------------------------------------------------------------
  // Statistics

  predicate IsBurning(c: Cell) {
    c.state == Burning
  }

  predicate IsBurned(c: Cell) {
    c.state == Burned
  }

  /** A cell that counts as fuel: one that can still burn, burns, or has
      burned. */
  predicate IsFuelCell(c: Cell) {
    CanBurn(c) || c.state == Burning || c.state == Burned
  }

  /** A cell the fire has reached. */
  predicate HasCaught(c: Cell) {
    c.state == Burning || c.state == Burned
  }

  /** How many cells of a row satisfy p. */
  function RowCount(row: seq<Cell>, p: Cell -> bool): (n: nat)
    ensures n <= |row|
    decreases |row|
  {
    if row == [] then 0
    else RowCount(row[..|row| - 1], p) + (if p(row[|row| - 1]) then 1 else 0)
  }

  /** How many cells of a row-major array satisfy p. */
  function GridCount(rows: seq<seq<Cell>>, p: Cell -> bool): nat
    decreases |rows|
  {
    if rows == [] then 0
    else GridCount(rows[..|rows| - 1], p) + RowCount(rows[|rows| - 1], p)
  }

  /** The statistics of a grid, counted cell by cell. */
  function Statistics(g: Grid): Stats {
    Stats(GridCount(g.cells, IsBurning), GridCount(g.cells, IsBurned), GridCount(g.cells, IsFuelCell))
  }

  predicate SameShape(a: seq<seq<Cell>>, b: seq<seq<Cell>>) {
    |a| == |b| && forall y :: 0 <= y < |a| ==> |a[y]| == |b[y]|
  }

  /** Counting is monotone: if every cell satisfying p sits at a position
      where the other row satisfies q, the row has no more p-cells than the
      other has q-cells. */
  lemma {:induction false} RowCountMonotone(a: seq<Cell>, b: seq<Cell>, p: Cell -> bool, q: Cell -> bool)
    requires |a| == |b|
    requires forall x :: 0 <= x < |a| && p(a[x]) ==> q(b[x])
    ensures RowCount(a, p) <= RowCount(b, q)
    decreases |a|
  {
    if a != [] {
      RowCountMonotone(a[..|a| - 1], b[..|b| - 1], p, q);
    }
  }

  lemma {:induction false} GridCountMonotone(a: seq<seq<Cell>>, b: seq<seq<Cell>>, p: Cell -> bool, q: Cell -> bool)
    requires SameShape(a, b)
    requires forall y, x :: 0 <= y < |a| && 0 <= x < |a[y]| && p(a[y][x]) ==> q(b[y][x])
    ensures GridCount(a, p) <= GridCount(b, q)
    decreases |a|
  {
    if a != [] {
      var n := |a| - 1;
      GridCountMonotone(a[..n], b[..n], p, q);
      RowCountMonotone(a[n], b[n], p, q);
    }
  }

  /** Counting splits over a disjoint union of properties. */
  lemma {:induction false} RowCountSplit(a: seq<Cell>, p1: Cell -> bool, p2: Cell -> bool, q: Cell -> bool)
    requires forall x :: 0 <= x < |a| ==> (q(a[x]) <==> p1(a[x]) || p2(a[x])) && !(p1(a[x]) && p2(a[x]))
    ensures RowCount(a, q) == RowCount(a, p1) + RowCount(a, p2)
    decreases |a|
  {
    if a != [] {
      RowCountSplit(a[..|a| - 1], p1, p2, q);
    }
  }

  lemma {:induction false} GridCountSplit(a: seq<seq<Cell>>, p1: Cell -> bool, p2: Cell -> bool, q: Cell -> bool)
    requires forall y, x :: 0 <= y < |a| && 0 <= x < |a[y]| ==>
               (q(a[y][x]) <==> p1(a[y][x]) || p2(a[y][x])) && !(p1(a[y][x]) && p2(a[y][x]))
    ensures GridCount(a, q) == GridCount(a, p1) + GridCount(a, p2)
    decreases |a|
  {
    if a != [] {
      var n := |a| - 1;
      GridCountSplit(a[..n], p1, p2, q);
      RowCountSplit(a[n], p1, p2, q);
    }
  }

  /** The burning and burned counts together are the cells the fire has
      reached, and they never exceed the fuel count. */
  lemma StatisticsConsistent(g: Grid)
    ensures Statistics(g).burning + Statistics(g).burned == GridCount(g.cells, HasCaught)
    ensures 0 <= Statistics(g).burning + Statistics(g).burned <= Statistics(g).fuel
  {
    GridCountSplit(g.cells, IsBurning, IsBurned, HasCaught);
    GridCountMonotone(g.cells, g.cells, HasCaught, IsFuelCell);
  }

  /** The statistics pass: one scan of the grid, row by row, counting fuel,
      burning and burned cells. */
  method UpdateStatistics(g: Grid) returns (st: Stats)
    requires Valid(g)
    ensures st == Statistics(g)
    ensures 0 <= st.burning && 0 <= st.burned && st.burning + st.burned <= st.fuel
  {
    var burning, burned, fuel := 0, 0, 0;
    var y := 0;
    while y < g.height
      invariant 0 <= y <= g.height
      invariant burning == GridCount(g.cells[..y], IsBurning)
      invariant burned == GridCount(g.cells[..y], IsBurned)
      invariant fuel == GridCount(g.cells[..y], IsFuelCell)
    {
      var row := g.cells[y];
      var x := 0;
      while x < g.width
        invariant 0 <= x <= g.width
        invariant burning == GridCount(g.cells[..y], IsBurning) + RowCount(row[..x], IsBurning)
        invariant burned == GridCount(g.cells[..y], IsBurned) + RowCount(row[..x], IsBurned)
        invariant fuel == GridCount(g.cells[..y], IsFuelCell) + RowCount(row[..x], IsFuelCell)
      {
        var c := row[x];
        assert row[..x + 1][..x] == row[..x];
        if CanBurn(c) || c.state == Burning || c.state == Burned {
          fuel := fuel + 1;
        }
        if c.state == Burning {
          burning := burning + 1;
        } else if c.state == Burned {
          burned := burned + 1;
        }
        x := x + 1;
      }
      assert row[..x] == row;
      assert g.cells[..y + 1][..y] == g.cells[..y];
      y := y + 1;
    }
    assert g.cells[..y] == g.cells;
    st := Stats(burning, burned, fuel);
    StatisticsConsistent(g);
  }

  /** The share of fuel cells the fire has reached, in percent; 0 on a grid
      without fuel. */
  function BurnPercentage(st: Stats): (p: real)
    ensures st.fuel == 0 ==> p == 0.0
    ensures 0 <= st.burning && 0 <= st.burned && st.burning + st.burned <= st.fuel ==> 0.0 <= p <= 100.0
    ensures 0 < st.fuel && st.burning + st.burned == st.fuel ==> p == 100.0
  {
    if st.fuel == 0 then 0.0
    else
      var share := (st.burned + st.burning) as real / st.fuel as real;
      ShareBounded((st.burned + st.burning) as real, st.fuel as real);
      share * 100.0
  }

  lemma ShareBounded(a: real, f: real)
    ensures 0.0 <= a <= f && 0.0 < f ==> 0.0 <= a / f <= 1.0
    ensures 0.0 < f ==> (a / f == 1.0 <==> a == f)
  {
    if 0.0 < f {
      assert a / f * f == a;
    }
  }

  // ---------------------------------------------------------------------
  // Run control

  /** Starting sets the run flag and refreshes the statistics. */
  function Start(s: Sim): (r: Sim)
    ensures r.running && r.stats == Statistics(s.grid)
    ensures r == s.(running := true, stats := r.stats)
  {
    s.(running := true, stats := Statistics(s.grid))
  }

  function Stop(s: Sim): (r: Sim)
    ensures !r.running && r == s.(running := false)
  {
    s.(running := false)
  }

  /** Resetting stops the run and zeroes the clock and the counters; the
      grid and the crews are left as they are. */
  function Reset(s: Sim): (r: Sim)
    ensures !r.running && r.totalTime == 0.0 && r.stats == NoStats
    ensures r.grid == s.grid && r.manager == s.manager && r.timeStep == s.timeStep
  {
    Stop(s).(totalTime := 0.0, stats := NoStats)
  }

  /** The random samples one step consumes: the wind cosine field, the
      spread stream and the extinguish stream. */
  datatype Samples = Samples(wind: WindField, draws: seq<real>, rolls: seq<real>)

  /** Whether the samples cover any tick of g. */
  predicate Enough(g: Grid, smp: Samples) {
    Covers(g, smp.draws, smp.rolls)
  }

  /** One step: when running, the grid ticks by the time step, crews age,
      evacuations progress, the clock advances by exactly one time step and
      the statistics are refreshed; when stopped nothing happens. */
  function Step(s: Sim, smp: Samples): (r: Sim)
    requires Valid(s.grid) && (s.running ==> Enough(s.grid, smp))
    ensures Valid(r.grid) && SameFrame(s.grid, r.grid)
    ensures !s.running ==> r == s
    ensures s.running ==> r.running && r.timeStep == s.timeStep
    ensures s.running ==> r.totalTime == s.totalTime + s.timeStep
    ensures s.running ==> r.grid == Tick(s.grid, smp.wind, smp.draws, smp.rolls, s.timeStep)
    ensures s.running ==> r.manager.crews == HumanFactors.UpdateCrews(s.manager.crews, s.timeStep)
    ensures s.running ==> r.manager.zones == HumanFactors.UpdateEvacuations(s.manager.zones)
    ensures s.running ==> r.stats == Statistics(r.grid)
  {
    if s.running then
      var g := Tick(s.grid, smp.wind, smp.draws, smp.rolls, s.timeStep);
      AdvanceShape(s.grid, smp.wind, smp.draws, smp.rolls, s.timeStep);
      var m := s.manager.(crews := HumanFactors.UpdateCrews(s.manager.crews, s.timeStep),
                          zones := HumanFactors.UpdateEvacuations(s.manager.zones));
      s.(grid := g, manager := m, totalTime := s.totalTime + s.timeStep, stats := Statistics(g))
    else s
  }

  lemma AdvanceShape(g: Grid, wind: WindField, draws: seq<real>, rolls: seq<real>, dt: real)
    requires Valid(g) && Covers(g, draws, rolls)
    ensures Valid(Tick(g, wind, draws, rolls, dt)) && SameFrame(g, Tick(g, wind, draws, rolls, dt))
  {
    RollsWithinBound(g, TickMarks(g, wind, draws, dt), dt);
  }

  /** Per cell, a tick neither creates nor destroys fuel, and the fire never
      retreats from a cell it has reached. */
  lemma TickCellCounts(g: Grid, wind: WindField, draws: seq<real>, rolls: seq<real>, dt: real, x: int, y: int)
    requires Valid(g) && Covers(g, draws, rolls)
    requires IsValidPosition(g, x, y)
    ensures var r := Tick(g, wind, draws, rolls, dt);
      && Valid(r) && IsValidPosition(r, x, y)
      && (IsFuelCell(At(r, x, y)) <==> IsFuelCell(At(g, x, y)))
      && (HasCaught(At(g, x, y)) ==> HasCaught(At(r, x, y)))
      && (IsBurned(At(g, x, y)) ==> IsBurned(At(r, x, y)))
  {
    TickAt(g, wind, draws, rolls, dt, x, y);
    StepCellStates(At(g, x, y), EffectAt(g, x, y), (x, y) in TickMarks(g, wind, draws, dt),
                   TickRoll(g, wind, draws, rolls, dt, x, y), dt);
  }

  /** Across a running step the fuel count is unchanged, and neither the
      burned count nor the burning-plus-burned count ever falls, so the burn
      percentage is monotone in the counters. */
  lemma StepCountsMonotone(s: Sim, smp: Samples)
    requires Valid(s.grid) && s.running && Enough(s.grid, smp)
    ensures Statistics(Step(s, smp).grid).fuel == Statistics(s.grid).fuel
    ensures Statistics(Step(s, smp).grid).burned >= Statistics(s.grid).burned
    ensures Statistics(Step(s, smp).grid).burning + Statistics(Step(s, smp).grid).burned
              >= Statistics(s.grid).burning + Statistics(s.grid).burned
  {
    var g := s.grid;
    var r := Step(s, smp).grid;
    assert r == Tick(g, smp.wind, smp.draws, smp.rolls, s.timeStep);
    assert SameShape(g.cells, r.cells);
    forall y, x | 0 <= y < |g.cells| && 0 <= x < |g.cells[y]|
      ensures (IsFuelCell(r.cells[y][x]) <==> IsFuelCell(g.cells[y][x]))
      ensures HasCaught(g.cells[y][x]) ==> HasCaught(r.cells[y][x])
      ensures IsBurned(g.cells[y][x]) ==> IsBurned(r.cells[y][x])
    {
      TickCellCounts(g, smp.wind, smp.draws, smp.rolls, s.timeStep, x, y);
    }
    GridCountMonotone(g.cells, r.cells, IsFuelCell, IsFuelCell);
    GridCountMonotone(r.cells, g.cells, IsFuelCell, IsFuelCell);
    GridCountMonotone(g.cells, r.cells, IsBurned, IsBurned);
    GridCountMonotone(g.cells, r.cells, HasCaught, HasCaught);
    StatisticsConsistent(g);
    StatisticsConsistent(r);
  }

  // ---------------------------------------------------------------------
  // Scenarios

  /** Every cell replaced by c; deposits untouched. */
  function Fill(g: Grid, c: Cell): (r: Grid)
    requires Valid(g)
    ensures Valid(r) && SameFrame(g, r) && r.effects == g.effects
    ensures forall y, x :: IsValidPosition(r, x, y) ==> At(r, x, y) == c
  {
    g.(cells := seq(g.height, _ => seq(g.width, _ => c)))
  }

  /** Grassland: every cell fresh grass of density 0.8 and moisture 0.2,
      ready to burn. */
  function SetupGrassland(g: Grid): (r: Grid)
    requires Valid(g)
    ensures Valid(r) && SameFrame(g, r) && r.effects == g.effects
    ensures forall y, x :: IsValidPosition(r, x, y) ==>
      At(r, x, y).fuelType == Grass && At(r, x, y).density == 0.8 && At(r, x, y).moisture == 0.2
      && At(r, x, y).state == Fuel && CanBurn(At(r, x, y))
  {
    NewCellCanBurn(Grass, 0.8, 0.2);
    Fill(g, NewCell(Grass, 0.8, 0.2))
  }

  /** Forest: every cell fresh tree of density 0.9 and moisture 0.3, ready
      to burn. */
  function SetupForest(g: Grid): (r: Grid)
    requires Valid(g)
    ensures Valid(r) && SameFrame(g, r) && r.effects == g.effects
    ensures forall y, x :: IsValidPosition(r, x, y) ==>
      At(r, x, y).fuelType == Tree && At(r, x, y).density == 0.9 && At(r, x, y).moisture == 0.3
      && At(r, x, y).state == Fuel && CanBurn(At(r, x, y))
  {
    NewCellCanBurn(Tree, 0.9, 0.3);
    Fill(g, NewCell(Tree, 0.9, 0.3))
  }

  /** A freshly set-up scenario has no fire: nothing burning, nothing burned,
      and a burn percentage of 0. */
  lemma SetupHasNoFire(g: Grid)
    requires Valid(g)
    ensures Statistics(SetupGrassland(g)).burning == 0 && Statistics(SetupGrassland(g)).burned == 0
    ensures Statistics(SetupForest(g)).burning == 0 && Statistics(SetupForest(g)).burned == 0
    ensures BurnPercentage(Statistics(SetupGrassland(g))) == 0.0
    ensures BurnPercentage(Statistics(SetupForest(g))) == 0.0
  {
    var none := (c: Cell) => false;
    var a := SetupGrassland(g).cells;
    var b := SetupForest(g).cells;
    GridCountMonotone(a, a, HasCaught, none);
    GridCountMonotone(b, b, HasCaught, none);
    GridCountZero(a, none);
    GridCountZero(b, none);
    StatisticsConsistent(SetupGrassland(g));
    StatisticsConsistent(SetupForest(g));
  }

  lemma {:induction false} GridCountZero(a: seq<seq<Cell>>, p: Cell -> bool)
    requires forall c :: !p(c)
    ensures GridCount(a, p) == 0
    decreases |a|
  {
    if a != [] {
      GridCountZero(a[..|a| - 1], p);
      RowCountZero(a[|a| - 1], p);
    }
  }

  lemma {:induction false} RowCountZero(a: seq<Cell>, p: Cell -> bool)
    requires forall c :: !p(c)
    ensures RowCount(a, p) == 0
    decreases |a|
  {
    if a != [] {
      RowCountZero(a[..|a| - 1], p);
    }
  }

  /** The simulation's firebreak walks the same line as the grid's but only
      lays rock: every in-bounds position on the line becomes an empty rock
      cell, and no deposit or firebreak flag changes anywhere. */
  method AddFirebreak(g: Grid, x1: int, y1: int, x2: int, y2: int) returns (r: Grid)
    requires Valid(g)
    ensures Valid(r) && SameFrame(g, r)
    ensures forall py, px :: IsValidPosition(g, px, py) ==>
      EffectAt(r, px, py) == EffectAt(g, px, py)
      && At(r, px, py) == (if (px, py) in Line(x1, y1, x2, y2) then RockCell() else At(g, px, py))
  {
    var steps;
    r, steps := PaintLine(g, x1, y1, x2, y2, false);
  }
}
