/** Phase 2 of the grid update and the whole tick. Every position is
    visited once in row-major order: a marked cell is ignited, the cell is
    advanced by dt, its deposit decays, and a cell still burning under a
    suppression modifier above 0.5 (taken after the decay) draws once from
    the second random stream and is put out when the draw falls below
    modifier * dt * 2. */
module Advance {
  import opened Cells
  import opened Suppression
  import opened Bresenham
  import opened Lattice
  import opened Spread

  /** Suppression above which a burning cell may be put out. */
  const ExtinguishThreshold: real := 0.5

  /** Whether a cell, after ignition, update and decay, draws for
      extinguishing. */
  predicate NeedsRoll(c: Cell, e: Effect) {
    c.state == Burning && Modifier(e) > ExtinguishThreshold
  }

  /** Putting a fire out by suppression: only the state becomes Burned;
      burn time, temperature and fuel density are left as they were. */
  function Extinguish(c: Cell, e: Effect, u: real, dt: real): (r: Cell)
    ensures r == c || r == c.(state := Burned)
    ensures r != c ==> u < Modifier(e) * dt * 2.0
    ensures u < Modifier(e) * dt * 2.0 ==> r == c.(state := Burned)
    ensures u >= Modifier(e) * dt * 2.0 ==> r == c
  {
    if u < Modifier(e) * dt * 2.0 then c.(state := Burned) else c
  }

  /** One position of phase 2, given whether phase 1 marked it and the draw
      it would use if it needs one. */
  function StepCell(c: Cell, e: Effect, marked: bool, u: real, dt: real): Cell {
    var c1 := Update(if marked then Ignite(c) else c, dt);
    var e1 := Decay(e, dt);
    if NeedsRoll(c1, e1) then Extinguish(c1, e1, u, dt) else c1
  }

  /** The rank of a combustion state along Fuel, Burning, Burned. */
  function Rank(s: CellState): nat {
    match s
    case Empty => 0
    case Fuel => 0
    case Burning => 1
    case Burned => 2
  }

  /** Phase 2 never moves a cell backwards: Empty and Burned cells are left
      as they are, a burning cell stays burning or burns out, and fuel only
      changes when it was marked and could burn. */
  lemma {:induction false} StepCellStates(c: Cell, e: Effect, marked: bool, u: real, dt: real)
    ensures c.state == Empty ==> StepCell(c, e, marked, u, dt) == c
    ensures c.state == Burned ==> StepCell(c, e, marked, u, dt) == c
    ensures c.state == Fuel && !(marked && CanBurn(c)) ==> StepCell(c, e, marked, u, dt) == c
    ensures c.state == Burning ==> StepCell(c, e, marked, u, dt).state in {Burning, Burned}
    ensures c.state == Fuel && marked && CanBurn(c) ==> StepCell(c, e, marked, u, dt).state in {Burning, Burned}
    ensures Rank(StepCell(c, e, marked, u, dt).state) >= Rank(c.state)
    ensures StepCell(c, e, marked, u, dt).fuelType == c.fuelType
  {
    var c0 := if marked then Ignite(c) else c;
    var c1 := Update(c0, dt);
    var e1 := Decay(e, dt);
    if c.state != Burning && !(marked && CanBurn(c)) {
      assert c0 == c && c1 == c;
      assert !NeedsRoll(c1, e1);
    }
  }

  /** A cell that the update alone leaves burning ends Burned only through
      the suppression draw: the decayed modifier exceeds 0.5 and the draw
      fell below modifier * dt * 2. */
  lemma ExtinguishNeedsSuppression(c: Cell, e: Effect, marked: bool, u: real, dt: real)
    requires Update(if marked then Ignite(c) else c, dt).state == Burning
    requires StepCell(c, e, marked, u, dt).state == Burned
    ensures Modifier(Decay(e, dt)) > ExtinguishThreshold
    ensures u < Modifier(Decay(e, dt)) * dt * 2.0
  {
  }

  /** Conversely, a cell the update leaves burning is put out when the
      decayed modifier exceeds 0.5 and its draw falls below modifier * dt * 2;
      only its state changes. */
  lemma SuppressionExtinguishes(c: Cell, e: Effect, marked: bool, u: real, dt: real)
    requires Update(if marked then Ignite(c) else c, dt).state == Burning
    requires Modifier(Decay(e, dt)) > ExtinguishThreshold
    requires u < Modifier(Decay(e, dt)) * dt * 2.0
    ensures StepCell(c, e, marked, u, dt) == Update(if marked then Ignite(c) else c, dt).(state := Burned)
  {
  }

  /** Without any deposit left after decay, a burning cell is never put
      out: it burns exactly as the update says. */
  lemma NoSuppressionNoExtinguish(c: Cell, e: Effect, marked: bool, u: real, dt: real)
    requires Decay(e, dt).water == 0.0 && Decay(e, dt).retardant == 0.0
    ensures StepCell(c, e, marked, u, dt) == Update(if marked then Ignite(c) else c, dt)
  {
  }

  /** The per-position flags of a scan. */
  type Flags = (int, int) -> bool

  /** How many of the first n positions of row y are flagged. */
  function RowCount(f: Flags, y: int, n: nat): nat
    decreases n
  {
    if n == 0 then 0 else RowCount(f, y, n - 1) + (if f(n - 1, y) then 1 else 0)
  }

  /** How many positions of the first m rows of the given width are flagged. */
  function ScanCount(f: Flags, width: nat, m: nat): nat
    decreases m
  {
    if m == 0 then 0 else ScanCount(f, width, m - 1) + RowCount(f, m - 1, width)
  }

  /** The draw the flagged position (x, y) consumes: the number of flagged
      positions before it in row-major order. */
  function RollIndex(f: Flags, width: nat, x: nat, y: nat): nat {
    ScanCount(f, width, y) + RowCount(f, y, x)
  }

  lemma {:induction false} RowCountGrows(f: Flags, y: int, n: nat, m: nat)
    requires n <= m
    ensures RowCount(f, y, n) <= RowCount(f, y, m)
    ensures n < m && f(n, y) ==> RowCount(f, y, n) < RowCount(f, y, m)
    decreases m - n
  {
    if n < m {
      RowCountGrows(f, y, n + 1, m);
    }
  }

  lemma {:induction false} ScanCountGrows(f: Flags, width: nat, n: nat, m: nat)
    requires n <= m
    ensures ScanCount(f, width, n) <= ScanCount(f, width, m)
    decreases m - n
  {
    if n < m {
      ScanCountGrows(f, width, n + 1, m);
    }
  }

  /** A flagged position's draw lies within the draws of the whole scan. */
  lemma RollIndexInRange(f: Flags, width: nat, height: nat, x: nat, y: nat)
    requires x < width && y < height && f(x, y)
    ensures RollIndex(f, width, x, y) < ScanCount(f, width, height)
  {
    RowCountGrows(f, y, x, width);
    ScanCountGrows(f, width, y + 1, height);
  }

  /** Draws are consumed in scan order: of two flagged positions, the one
      earlier in row-major order takes the earlier draw, so no two flagged
      positions share a draw. */
  lemma RollIndexOrdered(f: Flags, width: nat, x1: nat, y1: nat, x2: nat, y2: nat)
    requires x1 < width && x2 < width && f(x1, y1)
    requires y1 < y2 || (y1 == y2 && x1 < x2)
    ensures RollIndex(f, width, x1, y1) < RollIndex(f, width, x2, y2)
  {
    if y1 == y2 {
      RowCountGrows(f, y1, x1, x2);
    } else {
      RowCountGrows(f, y1, x1, width);
      ScanCountGrows(f, width, y1 + 1, y2);
      RowCountGrows(f, y2, 0, x2);
    }
  }

  /** The cell and deposit at (x, y) after ignition, update and decay. */
  function Settled(g: Grid, marks: set<Pos>, dt: real, x: int, y: int): (Cell, Effect)
    requires Valid(g) && IsValidPosition(g, x, y)
  {
    (Update(if (x, y) in marks then Ignite(At(g, x, y)) else At(g, x, y), dt), Decay(EffectAt(g, x, y), dt))
  }

  /** The positions that draw from the second stream. */
  function RollFlags(g: Grid, marks: set<Pos>, dt: real): Flags {
    (x, y) => Valid(g) && IsValidPosition(g, x, y) && NeedsRoll(Settled(g, marks, dt, x, y).0, Settled(g, marks, dt, x, y).1)
  }

  /** The number of second-stream draws phase 2 consumes. */
  function RollsNeeded(g: Grid, marks: set<Pos>, dt: real): nat {
    ScanCount(RollFlags(g, marks, dt), g.width, g.height)
  }

  /** The draw (x, y) would use; positions that do not draw get 0, which
      StepCell then ignores. */
  function RollAt(g: Grid, marks: set<Pos>, rolls: seq<real>, dt: real, x: int, y: int): real
    requires Valid(g) && IsValidPosition(g, x, y) && |rolls| >= RollsNeeded(g, marks, dt)
  {
    var f := RollFlags(g, marks, dt);
    if f(x, y) then
      RollIndexInRange(f, g.width, g.height, x, y);
      rolls[RollIndex(f, g.width, x, y)]
    else 0.0
  }

  /** Phase 2 on a whole grid. The contract is the per-position reading of
      the definition, which the tick lemmas build on; what phase 2 does to a
      cell is stated by StepCellStates, ExtinguishNeedsSuppression and
      NoSuppressionNoExtinguish. */
  function AdvanceGrid(g: Grid, marks: set<Pos>, rolls: seq<real>, dt: real): (r: Grid)
    requires Valid(g) && |rolls| >= RollsNeeded(g, marks, dt)
    ensures Valid(r) && SameFrame(g, r)
    ensures forall y, x :: IsValidPosition(g, x, y) ==>
      At(r, x, y) == StepCell(At(g, x, y), EffectAt(g, x, y), (x, y) in marks, RollAt(g, marks, rolls, dt, x, y), dt)
    ensures forall y, x :: IsValidPosition(g, x, y) ==> EffectAt(r, x, y) == Decay(EffectAt(g, x, y), dt)
  {
    g.(cells := seq(g.height, y requires 0 <= y < g.height =>
                   seq(g.width, x requires 0 <= x < g.width =>
                     StepCell(g.cells[y][x], g.effects[y][x], (x, y) in marks, RollAt(g, marks, rolls, dt, x, y), dt))),
       effects := seq(g.height, y requires 0 <= y < g.height =>
                   seq(g.width, x requires 0 <= x < g.width => Decay(g.effects[y][x], dt))))
  }

  lemma {:induction false} RowCountBound(f: Flags, y: int, n: nat)
    ensures RowCount(f, y, n) <= n
    decreases n
  {
    if n > 0 {
      RowCountBound(f, y, n - 1);
    }
  }

  lemma {:induction false} ScanCountBound(f: Flags, width: nat, m: nat)
    ensures ScanCount(f, width, m) <= m * width
    decreases m
  {
    if m > 0 {
      ScanCountBound(f, width, m - 1);
      RowCountBound(f, m - 1, width);
      assert (m - 1) * width + width == m * width;
    }
  }

  /** Phase 2 draws at most once per cell. */
  lemma RollsWithinBound(g: Grid, marks: set<Pos>, dt: real)
    ensures RollsNeeded(g, marks, dt) <= g.height * g.width
  {
    ScanCountBound(RollFlags(g, marks, dt), g.width, g.height);
  }

  /** Streams long enough for any tick of g, whatever burns: phase 1 draws
      at most once per neighbour offset of a cell, phase 2 at most once per
      cell. */
  predicate Covers(g: Grid, draws: seq<real>, rolls: seq<real>) {
    |draws| >= DrawBound(g) && |rolls| >= g.height * g.width
  }

  /** The ignition mask phase 1 computes from covering draws. */
  function TickMarks(g: Grid, wind: WindField, draws: seq<real>, dt: real): set<Pos>
    requires Valid(g) && |draws| >= DrawBound(g)
  {
    AllEdgesWithinBound(g);
    Ignitions(g, wind, draws, dt)
  }

  /** The extinguish draw a tick hands to (x, y). */
  function TickRoll(g: Grid, wind: WindField, draws: seq<real>, rolls: seq<real>, dt: real, x: int, y: int): real
    requires Valid(g) && Covers(g, draws, rolls) && IsValidPosition(g, x, y)
  {
    var m := TickMarks(g, wind, draws, dt);
    RollsWithinBound(g, m, dt);
    RollAt(g, m, rolls, dt, x, y)
  }

  /** One tick: phase 1 on the first stream, then phase 2 on the second.
      The frame is kept and every deposit decays by dt; what happens to the
      cells is stated by the tick lemmas that follow. */
  function Tick(g: Grid, wind: WindField, draws: seq<real>, rolls: seq<real>, dt: real): (r: Grid)
    requires Valid(g) && Covers(g, draws, rolls)
    ensures Valid(r) && SameFrame(g, r)
    ensures forall y, x :: IsValidPosition(g, x, y) ==> EffectAt(r, x, y) == Decay(EffectAt(g, x, y), dt)
  {
    var m := TickMarks(g, wind, draws, dt);
    RollsWithinBound(g, m, dt);
    AdvanceGrid(g, m, rolls, dt)
  }

  /** The cell a tick leaves at (x, y), as phase 2 computes it from the mask
      of phase 1. This unfolds the definition of a tick at one position; the
      properties of a tick are the lemmas that follow. */
  lemma TickAt(g: Grid, wind: WindField, draws: seq<real>, rolls: seq<real>, dt: real, x: int, y: int)
    requires Valid(g) && Covers(g, draws, rolls) && IsValidPosition(g, x, y)
    ensures var r := Tick(g, wind, draws, rolls, dt);
      && Valid(r) && SameFrame(g, r)
      && At(r, x, y) == StepCell(At(g, x, y), EffectAt(g, x, y), (x, y) in TickMarks(g, wind, draws, dt),
                                 TickRoll(g, wind, draws, rolls, dt, x, y), dt)
      && EffectAt(r, x, y) == Decay(EffectAt(g, x, y), dt)
  {
    var m := TickMarks(g, wind, draws, dt);
    RollsWithinBound(g, m, dt);
  }

  /** A tick never moves a cell backwards: Empty and Burned cells are
      untouched and no cell drops in rank. */
  lemma TickNeverRegresses(g: Grid, wind: WindField, draws: seq<real>, rolls: seq<real>, dt: real, x: int, y: int)
    requires Valid(g) && Covers(g, draws, rolls) && IsValidPosition(g, x, y)
    ensures var r := Tick(g, wind, draws, rolls, dt);
      && Valid(r) && IsValidPosition(r, x, y)
      && (At(g, x, y).state in {Empty, Burned} ==> At(r, x, y) == At(g, x, y))
      && Rank(At(r, x, y).state) >= Rank(At(g, x, y).state)
  {
    TickAt(g, wind, draws, rolls, dt, x, y);
    StepCellStates(At(g, x, y), EffectAt(g, x, y), (x, y) in TickMarks(g, wind, draws, dt),
                   TickRoll(g, wind, draws, rolls, dt, x, y), dt);
  }

  /** Ignition is local: a fuel cell that a tick changes could burn and had
      a burning neighbour before the tick. */
  lemma TickIgnitionIsLocal(g: Grid, wind: WindField, draws: seq<real>, rolls: seq<real>, dt: real, x: int, y: int)
    requires Valid(g) && Covers(g, draws, rolls) && IsValidPosition(g, x, y)
    ensures At(g, x, y).state == Fuel && At(Tick(g, wind, draws, rolls, dt), x, y) != At(g, x, y) ==>
      && CanBurn(At(g, x, y))
      && exists p: Pos :: IsValidPosition(g, p.0, p.1) && Adjacent(p, (x, y)) && At(g, p.0, p.1).state == Burning
  {
    var m := TickMarks(g, wind, draws, dt);
    TickAt(g, wind, draws, rolls, dt, x, y);
    if At(g, x, y).state == Fuel && At(Tick(g, wind, draws, rolls, dt), x, y) != At(g, x, y) {
      StepCellStates(At(g, x, y), EffectAt(g, x, y), (x, y) in m, TickRoll(g, wind, draws, rolls, dt, x, y), dt);
      assert (x, y) in m;
      AllEdgesWithinBound(g);
      IgnitionNeedsBurningNeighbor(g, wind, draws, dt, (x, y));
    }
  }

  /** A grid with nothing burning keeps every cell through a tick. */
  lemma TickWithoutFire(g: Grid, wind: WindField, draws: seq<real>, rolls: seq<real>, dt: real, x: int, y: int)
    requires Valid(g) && Covers(g, draws, rolls) && IsValidPosition(g, x, y)
    requires forall y, x :: IsValidPosition(g, x, y) ==> At(g, x, y).state != Burning
    ensures At(Tick(g, wind, draws, rolls, dt), x, y) == At(g, x, y)
  {
    var m := TickMarks(g, wind, draws, dt);
    NoFireNoEdges(g);
    assert m == {};
    TickAt(g, wind, draws, rolls, dt, x, y);
    StepCellStates(At(g, x, y), EffectAt(g, x, y), (x, y) in m, TickRoll(g, wind, draws, rolls, dt, x, y), dt);
  }

  /** With non-negative draws a firebreak stops the spread: a fuel cell under
      a firebreak is unchanged by a tick. */
  lemma TickFirebreakHolds(g: Grid, wind: WindField, draws: seq<real>, rolls: seq<real>, dt: real, x: int, y: int)
    requires Valid(g) && Covers(g, draws, rolls) && IsValidPosition(g, x, y)
    requires forall k :: 0 <= k < |draws| ==> draws[k] >= 0.0
    requires At(g, x, y).state == Fuel && EffectAt(g, x, y).firebreak
    ensures At(Tick(g, wind, draws, rolls, dt), x, y) == At(g, x, y)
  {
    var m := TickMarks(g, wind, draws, dt);
    AllEdgesWithinBound(g);
    FirebreakNeverMarked(g, wind, draws, dt, (x, y));
    TickAt(g, wind, draws, rolls, dt, x, y);
    StepCellStates(At(g, x, y), EffectAt(g, x, y), (x, y) in m, TickRoll(g, wind, draws, rolls, dt, x, y), dt);
  }

  /** With non-negative draws a tick of length zero ignites nothing. */
  lemma TickWithoutTime(g: Grid, wind: WindField, draws: seq<real>, rolls: seq<real>, x: int, y: int)
    requires Valid(g) && Covers(g, draws, rolls) && IsValidPosition(g, x, y)
    requires forall k :: 0 <= k < |draws| ==> draws[k] >= 0.0
    requires At(g, x, y).state == Fuel
    ensures At(Tick(g, wind, draws, rolls, 0.0), x, y) == At(g, x, y)
  {
    var m := TickMarks(g, wind, draws, 0.0);
    AllEdgesWithinBound(g);
    NoIgnitionsWithoutTime(g, wind, draws, (x, y));
    TickAt(g, wind, draws, rolls, 0.0, x, y);
    StepCellStates(At(g, x, y), EffectAt(g, x, y), (x, y) in m, TickRoll(g, wind, draws, rolls, 0.0, x, y), 0.0);
  }
}
