/** The grid: a width x height array of cells with a parallel array of
    suppression effects, plus the ambient wind and temperature. Positions
    are (x, y) pairs; rows are indexed by y, so the cell at (x, y) is
    cells[y][x]. Operations take a grid value and return the new one. */
module Lattice {
  import opened Cells
  import opened Suppression
  import opened Bresenham

  datatype Grid = Grid(
    width: nat,
    height: nat,
    cells: seq<seq<Cell>>,
    effects: seq<seq<Effect>>,
    windSpeed: real,
    windDirection: real,
    ambientTemp: real,
    humidity: real)

  /** Both arrays have the grid's dimensions. */
  predicate Valid(g: Grid) {
    && |g.cells| == g.height && |g.effects| == g.height
    && (forall y :: 0 <= y < g.height ==> |g.cells[y]| == g.width && |g.effects[y]| == g.width)
  }

  predicate IsValidPosition(g: Grid, x: int, y: int) {
    0 <= x < g.width && 0 <= y < g.height
  }

  function At(g: Grid, x: int, y: int): Cell
    requires Valid(g) && IsValidPosition(g, x, y)
  {
    g.cells[y][x]
  }

  function EffectAt(g: Grid, x: int, y: int): Effect
    requires Valid(g) && IsValidPosition(g, x, y)
  {
    g.effects[y][x]
  }

  /** Two grids with the same shape and ambient parameters. */
  predicate SameFrame(g: Grid, h: Grid) {
    && g.width == h.width && g.height == h.height
    && g.windSpeed == h.windSpeed && g.windDirection == h.windDirection
    && g.ambientTemp == h.ambientTemp && g.humidity == h.humidity
  }

  /** The grid constructor: every cell is a default grass cell, nothing is
      deposited, and the ambient parameters take their initial values. */
  function NewGrid(w: nat, h: nat): (g: Grid)
    ensures Valid(g) && g.width == w && g.height == h
    ensures forall y, x :: IsValidPosition(g, x, y) ==>
      At(g, x, y) == NewCell(Grass, 0.8, 0.3) && CanBurn(At(g, x, y)) && EffectAt(g, x, y) == NoEffect
    ensures g.windSpeed == 5.0 && g.windDirection == 90.0 && g.ambientTemp == 25.0 && g.humidity == 0.4
  {
    Grid(w, h, seq(h, _ => seq(w, _ => DefaultCell())), seq(h, _ => seq(w, _ => NoEffect)), 5.0, 90.0, 25.0, 0.4)
  }

  /** Replace the cell at a valid position. */
  function SetCell(g: Grid, x: int, y: int, c: Cell): (r: Grid)
    requires Valid(g) && IsValidPosition(g, x, y)
    ensures Valid(r) && SameFrame(g, r) && r.effects == g.effects
    ensures At(r, x, y) == c
    ensures forall py, px :: IsValidPosition(g, px, py) && (px, py) != (x, y) ==> At(r, px, py) == At(g, px, py)
  {
    g.(cells := g.cells[y := g.cells[y][x := c]])
  }

  /** Ignite the cell at (x, y); off the grid nothing happens. */
  function IgniteCell(g: Grid, x: int, y: int): (r: Grid)
    requires Valid(g)
    ensures Valid(r) && SameFrame(g, r) && r.effects == g.effects
    ensures !IsValidPosition(g, x, y) ==> r == g
    ensures IsValidPosition(g, x, y) ==> At(r, x, y) == Ignite(At(g, x, y))
    ensures forall py, px :: IsValidPosition(g, px, py) && (px, py) != (x, y) ==> At(r, px, py) == At(g, px, py)
  {
    if IsValidPosition(g, x, y) then SetCell(g, x, y, Ignite(At(g, x, y))) else g
  }

  /** The eight neighbour offsets (dx, dy) in the order the source scans
      them: dy outermost, then dx, both from -1 to 1, skipping (0, 0). */
  const Offsets: seq<(int, int)> := [(-1, -1), (0, -1), (1, -1), (-1, 0), (1, 0), (-1, 1), (0, 1), (1, 1)]

  /** Chebyshev distance exactly one: the 8-neighbourhood. */
  predicate Adjacent(p: Pos, q: Pos) {
    p != q && -1 <= q.0 - p.0 <= 1 && -1 <= q.1 - p.1 <= 1
  }

  lemma OffsetsAreTheNeighbourhood(o: (int, int))
    ensures o in Offsets <==> -1 <= o.0 <= 1 && -1 <= o.1 <= 1 && o != (0, 0)
  {
  }

  lemma OffsetsDistinct()
    ensures forall i, j :: 0 <= i < j < |Offsets| ==> Offsets[i] != Offsets[j]
  {
  }

  /** The in-bounds positions (x, y) + o for the offsets o, in order. */
  function NeighborsAmong(g: Grid, x: int, y: int, offs: seq<(int, int)>): (ns: seq<Pos>)
    ensures |ns| <= |offs|
    ensures forall p :: p in ns <==> IsValidPosition(g, p.0, p.1) && (p.0 - x, p.1 - y) in offs
    decreases |offs|
  {
    if |offs| == 0 then []
    else
      var p := (x + offs[0].0, y + offs[0].1);
      var rest := NeighborsAmong(g, x, y, offs[1..]);
      assert forall o :: o in offs ==> o == offs[0] || o in offs[1..];
      if IsValidPosition(g, p.0, p.1) then [p] + rest else rest
  }

  /** Distinct offsets give distinct neighbours. */
  lemma {:induction false} NeighborsAmongDistinct(g: Grid, x: int, y: int, offs: seq<(int, int)>)
    requires forall i, j :: 0 <= i < j < |offs| ==> offs[i] != offs[j]
    ensures forall i, j :: 0 <= i < j < |NeighborsAmong(g, x, y, offs)| ==>
      NeighborsAmong(g, x, y, offs)[i] != NeighborsAmong(g, x, y, offs)[j]
    decreases |offs|
  {
    if |offs| > 0 {
      var p := (x + offs[0].0, y + offs[0].1);
      var rest := NeighborsAmong(g, x, y, offs[1..]);
      NeighborsAmongDistinct(g, x, y, offs[1..]);
      if IsValidPosition(g, p.0, p.1) {
        assert offs[0] !in offs[1..];
        assert (p.0 - x, p.1 - y) == offs[0];
        assert p !in rest;
        DistinctCons(p, rest);
      }
    }
  }

  lemma DistinctCons(p: Pos, rest: seq<Pos>)
    requires p !in rest
    requires forall i, j :: 0 <= i < j < |rest| ==> rest[i] != rest[j]
    ensures forall i, j :: 0 <= i < j < |[p] + rest| ==> ([p] + rest)[i] != ([p] + rest)[j]
  {
    var ns := [p] + rest;
    forall i, j | 0 <= i < j < |ns|
      ensures ns[i] != ns[j]
    {
      if i > 0 {
        assert ns[i] == rest[i - 1] && ns[j] == rest[j - 1];
      } else {
        assert ns[j] == rest[j - 1] && ns[j] in rest;
      }
    }
  }

  /** When every offset lands in bounds none is dropped. */
  lemma {:induction false} NeighborsAmongFull(g: Grid, x: int, y: int, offs: seq<(int, int)>)
    requires forall o :: o in offs ==> IsValidPosition(g, x + o.0, y + o.1)
    ensures |NeighborsAmong(g, x, y, offs)| == |offs|
    decreases |offs|
  {
    if |offs| > 0 {
      assert offs[0] in offs;
      assert forall o :: o in offs[1..] ==> o in offs;
      NeighborsAmongFull(g, x, y, offs[1..]);
    }
  }

  lemma OffsetsMembership(x: int, y: int, p: Pos)
    ensures (p.0 - x, p.1 - y) in Offsets <==> Adjacent((x, y), p)
  {
    OffsetsAreTheNeighbourhood((p.0 - x, p.1 - y));
  }

  lemma InteriorOffsetsInBounds(g: Grid, x: int, y: int)
    ensures 0 < x < g.width - 1 && 0 < y < g.height - 1 ==>
      forall o :: o in Offsets ==> IsValidPosition(g, x + o.0, y + o.1)
  {
    forall o | o in Offsets && 0 < x < g.width - 1 && 0 < y < g.height - 1
      ensures IsValidPosition(g, x + o.0, y + o.1)
    {
      OffsetsAreTheNeighbourhood(o);
    }
  }

  /** The in-bounds 8-neighbours of (x, y), in scan order. */
  function Neighbors(g: Grid, x: int, y: int): (ns: seq<Pos>)
    ensures forall p :: p in ns <==> IsValidPosition(g, p.0, p.1) && Adjacent((x, y), p)
    ensures forall i, j :: 0 <= i < j < |ns| ==> ns[i] != ns[j]
    ensures |ns| <= 8
    ensures 0 < x < g.width - 1 && 0 < y < g.height - 1 ==> |ns| == 8
  {
    OffsetsDistinct();
    forall p: Pos
      ensures (p.0 - x, p.1 - y) in Offsets <==> Adjacent((x, y), p)
    {
      OffsetsMembership(x, y, p);
    }
    InteriorOffsetsInBounds(g, x, y);
    NeighborsAmongDistinct(g, x, y, Offsets);
    if 0 < x < g.width - 1 && 0 < y < g.height - 1 then
      NeighborsAmongFull(g, x, y, Offsets);
      NeighborsAmong(g, x, y, Offsets)
    else NeighborsAmong(g, x, y, Offsets)
  }

  /** Adjacency within the grid is symmetric. */
  lemma NeighborsSymmetric(g: Grid, x: int, y: int, p: Pos)
    requires IsValidPosition(g, x, y)
    ensures p in Neighbors(g, x, y) <==> IsValidPosition(g, p.0, p.1) && (x, y) in Neighbors(g, p.0, p.1)
  {
    var ns := Neighbors(g, x, y);
    if IsValidPosition(g, p.0, p.1) {
      var ms := Neighbors(g, p.0, p.1);
      assert (x, y) in ms <==> Adjacent(p, (x, y));
    }
    assert p in ns <==> IsValidPosition(g, p.0, p.1) && Adjacent((x, y), p);
  }

  /** The combined suppression strength at (x, y); zero off the grid. */
  function SuppressionModifier(g: Grid, x: int, y: int): (m: real)
    requires Valid(g)
    ensures !IsValidPosition(g, x, y) ==> m == 0.0
    ensures IsValidPosition(g, x, y) ==> m == Modifier(EffectAt(g, x, y))
    ensures m <= 1.0
    ensures IsValidPosition(g, x, y) && NonNegativeLevels(EffectAt(g, x, y)) ==> 0.0 <= m
  {
    if IsValidPosition(g, x, y) then Modifier(EffectAt(g, x, y)) else 0.0
  }

  /** Whether anything is deposited or built at (x, y); false off the grid. */
  function HasSuppressionEffect(g: Grid, x: int, y: int): (b: bool)
    requires Valid(g)
    ensures b <==> IsValidPosition(g, x, y) && HasEffect(EffectAt(g, x, y))
    ensures !b ==> SuppressionModifier(g, x, y) <= 0.0
  {
    ModifierNeedsEffect(if IsValidPosition(g, x, y) then EffectAt(g, x, y) else NoEffect);
    IsValidPosition(g, x, y) && HasEffect(EffectAt(g, x, y))
  }

  /** The square root of 2 as the nearest double, the distance to a
      diagonal neighbour. */
  const Sqrt2: real := 1.4142135623730951454746218587388284504413604736328125

  /** Euclidean distance to an adjacent position. */
  function NeighbourDistance(dx: int, dy: int): (d: real)
    ensures d >= 1.0
  {
    if dx == 0 || dy == 0 then 1.0 else Sqrt2
  }

  /** Wind only accelerates spread along its own heading: windCos is the
      cosine between the spread direction and the wind heading. */
  function WindFactor(windSpeed: real, windCos: real): real {
    if windCos > 0.0 then 1.0 + windSpeed * windCos * 0.1 else 1.0
  }

  /** Coupling to the source's heat above ambient. */
  function HeatFactor(g: Grid, from: Cell): real {
    1.0 + (from.temperature - g.ambientTemp) / 100.0 * 0.2
  }

  /** The unclamped spread rate between an adjacent source and target. */
  function RawSpread(g: Grid, from: Cell, to: Cell, toEffect: Effect, dx: int, dy: int, windCos: real): real {
    Chain(IgnitionProbability(to) * 0.1, WindFactor(g.windSpeed, windCos), NeighbourDistance(dx, dy),
          HeatFactor(g, from), 1.0 - Modifier(toEffect))
  }

  /** The factors of the spread rate multiplied in the source's order: the
      fuel term, the wind factor, over the distance, times the heat factor
      and the unsuppressed share. */
  function Chain(base: real, wind: real, distance: real, heat: real, unsuppressed: real): real
    requires distance > 0.0
  {
    base * wind / distance * heat * unsuppressed
  }

  /** The per-unit-time rate at which fire spreads from (fx, fy) to the
      adjacent (tx, ty). windCos is the cosine between the direction
      (tx - fx, ty - fy) and the wind heading. */
  function SpreadProbability(g: Grid, fx: int, fy: int, tx: int, ty: int, windCos: real): (p: real)
    requires Valid(g) && IsValidPosition(g, fx, fy) && IsValidPosition(g, tx, ty)
    requires Adjacent((fx, fy), (tx, ty))
    ensures 0.0 <= p <= 1.0
    ensures At(g, fx, fy).state != Burning ==> p == 0.0
    ensures !CanBurn(At(g, tx, ty)) ==> p == 0.0
    ensures EffectAt(g, tx, ty).firebreak ==> p == 0.0
  {
    var from, to := At(g, fx, fy), At(g, tx, ty);
    if from.state != Burning || !CanBurn(to) then 0.0
    else if EffectAt(g, tx, ty).firebreak then 0.0
    else Clamp01(RawSpread(g, from, to, EffectAt(g, tx, ty), tx - fx, ty - fy, windCos))
  }

  lemma MulMonotoneReal(a: real, b: real, k: real)
    requires a <= b && k >= 0.0
    ensures a * k <= b * k
  {
  }

  lemma DivMonotoneReal(a: real, b: real, k: real)
    requires a <= b && k > 0.0
    ensures a / k <= b / k
  {
  }

  /** The wind factor is at least 1 and grows as the direction turns into
      a non-negative wind. */
  lemma WindFactorMonotone(windSpeed: real, c1: real, c2: real)
    requires windSpeed >= 0.0 && c1 <= c2
    ensures 1.0 <= WindFactor(windSpeed, c1) <= WindFactor(windSpeed, c2)
  {
    if c1 > 0.0 {
      MulMonotoneReal(0.0, c1, windSpeed);
      MulMonotoneReal(c1, c2, windSpeed);
      assert windSpeed * c1 <= windSpeed * c2;
    } else if c2 > 0.0 {
      MulMonotoneReal(0.0, c2, windSpeed);
      assert windSpeed * c2 >= 0.0;
    }
  }

  /** The factor chain of the spread rate is monotone in the wind factor
      when every other factor is non-negative. */
  lemma ProductMonotone(base: real, w1: real, w2: real, d: real, h: real, s: real)
    requires base >= 0.0 && w1 <= w2 && d > 0.0 && h >= 0.0 && s >= 0.0
    ensures Chain(base, w1, d, h, s) <= Chain(base, w2, d, h, s)
  {
    MulMonotoneReal(w1, w2, base);
    assert base * w1 <= base * w2;
    DivMonotoneReal(base * w1, base * w2, d);
    MulMonotoneReal(base * w1 / d, base * w2 / d, h);
    MulMonotoneReal(base * w1 / d * h, base * w2 / d * h, s);
  }

  /** The unclamped rate is monotone in the wind cosine when the heat
      factor is non-negative. */
  lemma RawSpreadWindMonotone(g: Grid, from: Cell, to: Cell, e: Effect, dx: int, dy: int, c1: real, c2: real)
    requires g.windSpeed >= 0.0 && c1 <= c2
    requires from.temperature - g.ambientTemp >= -500.0
    ensures RawSpread(g, from, to, e, dx, dy, c1) <= RawSpread(g, from, to, e, dx, dy, c2)
  {
    WindFactorMonotone(g.windSpeed, c1, c2);
    ProductMonotone(IgnitionProbability(to) * 0.1, WindFactor(g.windSpeed, c1), WindFactor(g.windSpeed, c2),
                    NeighbourDistance(dx, dy), HeatFactor(g, from), 1.0 - Modifier(e));
  }

  /** Wind never slows spread and speeds it up monotonically along its
      heading: with a non-negative wind speed and a source not more than 500
      degrees below ambient, a better-aligned direction never gets a smaller
      spread probability; in particular every direction spreads at least as
      fast as one perpendicular to the wind. */
  lemma {:induction false} SpreadWindMonotone(g: Grid, fx: int, fy: int, tx: int, ty: int, c1: real, c2: real)
    requires Valid(g) && IsValidPosition(g, fx, fy) && IsValidPosition(g, tx, ty)
    requires Adjacent((fx, fy), (tx, ty))
    requires g.windSpeed >= 0.0 && c1 <= c2
    requires At(g, fx, fy).temperature - g.ambientTemp >= -500.0
    ensures SpreadProbability(g, fx, fy, tx, ty, c1) <= SpreadProbability(g, fx, fy, tx, ty, c2)
  {
    var from, to, e := At(g, fx, fy), At(g, tx, ty), EffectAt(g, tx, ty);
    if from.state == Burning && CanBurn(to) && !e.firebreak {
      RawSpreadWindMonotone(g, from, to, e, tx - fx, ty - fy, c1, c2);
      ClampMonotone(RawSpread(g, from, to, e, tx - fx, ty - fy, c1), RawSpread(g, from, to, e, tx - fx, ty - fy, c2));
    }
  }

  /** Directions pointing away from the wind all spread at the same rate. */
  lemma SpreadIgnoresContraryWind(g: Grid, fx: int, fy: int, tx: int, ty: int, c: real)
    requires Valid(g) && IsValidPosition(g, fx, fy) && IsValidPosition(g, tx, ty)
    requires Adjacent((fx, fy), (tx, ty))
    requires c <= 0.0
    ensures SpreadProbability(g, fx, fy, tx, ty, c) == SpreadProbability(g, fx, fy, tx, ty, 0.0)
  {
    var from, to, e := At(g, fx, fy), At(g, tx, ty), EffectAt(g, tx, ty);
    assert WindFactor(g.windSpeed, c) == WindFactor(g.windSpeed, 0.0);
    assert RawSpread(g, from, to, e, tx - fx, ty - fy, c) == RawSpread(g, from, to, e, tx - fx, ty - fy, 0.0);
  }

  /** The integer disc test replacing the source's square-root test,
      together with the bounding box its loops scan. */
  predicate InDisc(dx: int, dy: int, r: int) {
    -r <= dx <= r && -r <= dy <= r && Sq(dx) + Sq(dy) <= Sq(r)
  }

  function Sq(n: int): int {
    n * n
  }

  /** The effect a deposit centred at (cx, cy) leaves at (x, y). falloff maps
      a squared distance d2 to the distance factor 1 - sqrt(d2)/r. */
  function Deposited(e: Effect, x: int, y: int, cx: int, cy: int, r: int, agent: Agent,
                     eff: real, duration: real, falloff: int -> real): Effect
  {
    var dx, dy := x - cx, y - cy;
    if InDisc(dx, dy, r) then Merge(e, agent, eff * falloff(Sq(dx) + Sq(dy)), duration) else e
  }

  /** The deposit arrays part-way through the scan: rows above offset dy,
      and in row dy the offsets left of dx, hold their deposited effect;
      everything else is as in g. */
  ghost predicate ScannedTo(g: Grid, effects: seq<seq<Effect>>, cx: int, cy: int, r: int, agent: Agent,
                            eff: real, duration: real, falloff: int -> real, dy: int, dx: int)
    requires Valid(g)
  {
    && |effects| == g.height
    && (forall y :: 0 <= y < g.height ==> |effects[y]| == g.width)
    && forall y, x :: 0 <= y < g.height && 0 <= x < g.width ==>
         effects[y][x] == ScanExpected(g.effects[y][x], x, y, cx, cy, r, agent, eff, duration, falloff, dy, dx)
  }

  /** The effect at (x, y) once the scan has reached offset (dx, dy). */
  function ScanExpected(e: Effect, x: int, y: int, cx: int, cy: int, r: int, agent: Agent,
                        eff: real, duration: real, falloff: int -> real, dy: int, dx: int): Effect
  {
    if y - cy < dy || (y - cy == dy && x - cx < dx)
    then Deposited(e, x, y, cx, cy, r, agent, eff, duration, falloff)
    else e
  }

  /** One row of the deposit scan, at offset dy from the centre. */
  method DepositRow(g: Grid, effects: seq<seq<Effect>>, cx: int, cy: int, r: int, agent: Agent,
                    eff: real, duration: real, falloff: int -> real, dy: int) returns (effects': seq<seq<Effect>>)
    requires Valid(g) && -r <= dy <= r
    requires ScannedTo(g, effects, cx, cy, r, agent, eff, duration, falloff, dy, -r)
    ensures ScannedTo(g, effects', cx, cy, r, agent, eff, duration, falloff, dy + 1, -r)
  {
    effects' := effects;
    var dx := -r;
    while dx <= r
      invariant -r <= dx
      invariant ScannedTo(g, effects', cx, cy, r, agent, eff, duration, falloff, dy, dx)
      decreases r - dx
    {
      ScanStep(g, effects', cx, cy, r, agent, eff, duration, falloff, dy, dx);
      effects' := DepositAt(g, effects', cx, cy, r, agent, eff, duration, falloff, dy, dx);
      dx := dx + 1;
    }
  }

  /** The deposit at offset (dx, dy) from the centre, when that position
      is on the grid and inside the disc. */
  function DepositAt(g: Grid, effects: seq<seq<Effect>>, cx: int, cy: int, r: int, agent: Agent,
                     eff: real, duration: real, falloff: int -> real, dy: int, dx: int): seq<seq<Effect>>
    requires Valid(g) && |effects| == g.height
    requires forall y :: 0 <= y < g.height ==> |effects[y]| == g.width
  {
    var tx, ty := cx + dx, cy + dy;
    if IsValidPosition(g, tx, ty) && Sq(dx) + Sq(dy) <= Sq(r)
    then effects[ty := effects[ty][tx := Merge(effects[ty][tx], agent, eff * falloff(Sq(dx) + Sq(dy)), duration)]]
    else effects
  }

  /** One offset of the scan extends the scanned region by one position. */
  lemma ScanStep(g: Grid, effects: seq<seq<Effect>>, cx: int, cy: int, r: int, agent: Agent,
                 eff: real, duration: real, falloff: int -> real, dy: int, dx: int)
    requires Valid(g) && -r <= dy <= r && -r <= dx <= r
    requires ScannedTo(g, effects, cx, cy, r, agent, eff, duration, falloff, dy, dx)
    ensures ScannedTo(g, DepositAt(g, effects, cx, cy, r, agent, eff, duration, falloff, dy, dx),
                      cx, cy, r, agent, eff, duration, falloff, dy, dx + 1)
  {
    var e' := DepositAt(g, effects, cx, cy, r, agent, eff, duration, falloff, dy, dx);
    forall y, x | 0 <= y < g.height && 0 <= x < g.width
      ensures e'[y][x] == ScanExpected(g.effects[y][x], x, y, cx, cy, r, agent, eff, duration, falloff, dy, dx + 1)
    {
      ScanStepCell(g, effects, cx, cy, r, agent, eff, duration, falloff, dy, dx, x, y);
    }
  }

  /** ScanStep at one position of the grid. */
  lemma ScanStepCell(g: Grid, effects: seq<seq<Effect>>, cx: int, cy: int, r: int, agent: Agent,
                     eff: real, duration: real, falloff: int -> real, dy: int, dx: int, x: int, y: int)
    requires Valid(g) && -r <= dy <= r && -r <= dx <= r && |effects| == g.height
    requires forall y :: 0 <= y < g.height ==> |effects[y]| == g.width
    requires 0 <= y < g.height && 0 <= x < g.width
    requires effects[y][x] == ScanExpected(g.effects[y][x], x, y, cx, cy, r, agent, eff, duration, falloff, dy, dx)
    ensures DepositAt(g, effects, cx, cy, r, agent, eff, duration, falloff, dy, dx)[y][x]
            == ScanExpected(g.effects[y][x], x, y, cx, cy, r, agent, eff, duration, falloff, dy, dx + 1)
  {
    if (x, y) == (cx + dx, cy + dy) {
      assert effects[y][x] == g.effects[y][x];
      assert InDisc(x - cx, y - cy, r) == (Sq(dx) + Sq(dy) <= Sq(r));
    }
  }

  /** A water or retardant deposit of radius r around (cx, cy), scanning
      the square of offsets row by row as the source does. */
  method Deposit(g: Grid, cx: int, cy: int, r: int, agent: Agent, eff: real, duration: real,
                 falloff: int -> real) returns (g': Grid)
    requires Valid(g) && r != 0
    ensures Valid(g') && SameFrame(g, g') && g'.cells == g.cells
    ensures forall y, x :: IsValidPosition(g, x, y) ==>
      EffectAt(g', x, y) == Deposited(EffectAt(g, x, y), x, y, cx, cy, r, agent, eff, duration, falloff)
  {
    var effects := g.effects;
    var dy := -r;
    while dy <= r
      invariant -r <= dy
      invariant ScannedTo(g, effects, cx, cy, r, agent, eff, duration, falloff, dy, -r)
      decreases r - dy
    {
      effects := DepositRow(g, effects, cx, cy, r, agent, eff, duration, falloff, dy);
      dy := dy + 1;
    }
    g' := g.(effects := effects);
  }

  /** Water drop: within the disc the water level and the remaining time
      become the larger of old and new, so neither ever decreases; the
      retardant level, the firebreak flag and every cell are untouched, and
      nothing outside the disc changes. */
  method ApplyWaterDrop(g: Grid, x: int, y: int, radius: int, effectiveness: real, duration: real,
                        falloff: int -> real) returns (g': Grid)
    requires Valid(g) && radius != 0
    ensures Valid(g') && SameFrame(g, g') && g'.cells == g.cells
    ensures forall py, px :: IsValidPosition(g, px, py) ==>
      var e, e' := EffectAt(g, px, py), EffectAt(g', px, py);
      var dx, dy := px - x, py - y;
      && e'.retardant == e.retardant && e'.firebreak == e.firebreak
      && e'.water >= e.water && e'.remaining >= e.remaining
      && (InDisc(dx, dy, radius) ==>
            e'.water == Max(e.water, effectiveness * falloff(Sq(dx) + Sq(dy)))
            && e'.remaining == Max(e.remaining, duration))
      && (!InDisc(dx, dy, radius) ==> e' == e)
  {
    g' := Deposit(g, x, y, radius, WaterAgent, effectiveness, duration, falloff);
  }

  /** Retardant drop: the same as a water drop with the roles of the two
      levels exchanged. */
  method ApplyRetardant(g: Grid, x: int, y: int, radius: int, effectiveness: real, duration: real,
                        falloff: int -> real) returns (g': Grid)
    requires Valid(g) && radius != 0
    ensures Valid(g') && SameFrame(g, g') && g'.cells == g.cells
    ensures forall py, px :: IsValidPosition(g, px, py) ==>
      var e, e' := EffectAt(g, px, py), EffectAt(g', px, py);
      var dx, dy := px - x, py - y;
      && e'.water == e.water && e'.firebreak == e.firebreak
      && e'.retardant >= e.retardant && e'.remaining >= e.remaining
      && (InDisc(dx, dy, radius) ==>
            e'.retardant == Max(e.retardant, effectiveness * falloff(Sq(dx) + Sq(dy)))
            && e'.remaining == Max(e.remaining, duration))
      && (!InDisc(dx, dy, radius) ==> e' == e)
  {
    g' := Deposit(g, x, y, radius, RetardantAgent, effectiveness, duration, falloff);
  }

  /** The cell a firebreak leaves behind. */
  function RockCell(): (c: Cell)
    ensures c.state == Empty && c.fuelType == Rock && c.density == 0.0 && !CanBurn(c)
  {
    NewCell(Rock, 0.0, 0.0)
  }

  /** What a firebreak walk leaves at a position it visits. */
  function Painted(c: Cell, e: Effect, flag: bool): (Cell, Effect) {
    (RockCell(), if flag then e.(firebreak := true) else e)
  }

  /** The arrays of g after painting exactly the in-bounds positions of
      visited. */
  ghost predicate PaintedExactly(g: Grid, cells: seq<seq<Cell>>, effects: seq<seq<Effect>>,
                                 visited: seq<Pos>, flag: bool)
    requires Valid(g)
  {
    && |cells| == g.height && |effects| == g.height
    && (forall r :: 0 <= r < g.height ==> |cells[r]| == g.width && |effects[r]| == g.width)
    && (forall py, px :: IsValidPosition(g, px, py) ==>
          (cells[py][px], effects[py][px]) ==
          (if (px, py) in visited then Painted(g.cells[py][px], g.effects[py][px], flag)
           else (g.cells[py][px], g.effects[py][px])))
  }

  /** Paint one position of the walk. */
  function PaintAt(g: Grid, cells: seq<seq<Cell>>, effects: seq<seq<Effect>>, x: int, y: int, flag: bool)
    : (r: (seq<seq<Cell>>, seq<seq<Effect>>))
    requires Valid(g)
    requires |cells| == g.height && |effects| == g.height
    requires forall row :: 0 <= row < g.height ==> |cells[row]| == g.width && |effects[row]| == g.width
  {
    if IsValidPosition(g, x, y) then
      var p := Painted(cells[y][x], effects[y][x], flag);
      (cells[y := cells[y][x := p.0]], effects[y := effects[y][x := p.1]])
    else (cells, effects)
  }

  lemma PaintAtExtends(g: Grid, cells: seq<seq<Cell>>, effects: seq<seq<Effect>>, visited: seq<Pos>,
                       x: int, y: int, flag: bool)
    requires Valid(g) && PaintedExactly(g, cells, effects, visited, flag)
    ensures var r := PaintAt(g, cells, effects, x, y, flag);
      PaintedExactly(g, r.0, r.1, visited + [(x, y)], flag)
  {
    var r := PaintAt(g, cells, effects, x, y, flag);
    forall py, px | IsValidPosition(g, px, py)
      ensures (r.0[py][px], r.1[py][px]) ==
        (if (px, py) in visited + [(x, y)] then Painted(g.cells[py][px], g.effects[py][px], flag)
         else (g.cells[py][px], g.effects[py][px]))
    {
      assert (px, py) in visited + [(x, y)] <==> (px, py) in visited || (px, py) == (x, y);
    }
  }

  /** Walk the line from (x1, y1) to (x2, y2) and turn every in-bounds
      position on it into rock; when flag is set, also mark the position as a
      permanent firebreak. The walk keeps the source's error variable and its
      doubled extents. */
  method PaintLine(g: Grid, x1: int, y1: int, x2: int, y2: int, flag: bool) returns (g': Grid, steps: nat)
    requires Valid(g)
    ensures Valid(g') && SameFrame(g, g')
    ensures steps == Abs(x2 - x1) + Abs(y2 - y1)
    ensures PaintedExactly(g, g'.cells, g'.effects, Line(x1, y1, x2, y2), flag)
  {
    var dx: int := Abs(x2 - x1);
    var dy: int := Abs(y2 - y1);
    ghost var adx, ady := dx, dy;
    var x, y := x1, y1;
    var xInc := Inc(x1, x2);
    var yInc := Inc(y1, y2);
    var error: int := dx - dy;
    dx := dx * 2;
    dy := dy * 2;
    var cells, effects := g.cells, g.effects;
    ghost var i: nat, j: nat := 0, 0;
    ghost var visited: seq<Pos> := [];
    steps := 0;
    while true
      invariant i <= adx && j <= ady
      invariant dx == 2 * adx && dy == 2 * ady
      invariant (x, y) == PosAt(x1, y1, x2, y2, i, j)
      invariant error == Error(adx, ady, i, j)
      invariant steps == i + j
      invariant Line(x1, y1, x2, y2) == visited + Walk(x1, y1, x2, y2, i, j)
      invariant PaintedExactly(g, cells, effects, visited, flag)
      decreases adx - i + ady - j
    {
      PaintAtExtends(g, cells, effects, visited, x, y, flag);
      var painted := PaintAt(g, cells, effects, x, y, flag);
      cells, effects := painted.0, painted.1;
      PosAtIsEnd(x1, y1, x2, y2, i, j);
      if x == x2 && y == y2 {
        WalkAtEnd(x1, y1, x2, y2);
        visited := visited + [(x, y)];
        break;
      }
      WalkAdvance(x1, y1, x2, y2, i, j, visited);
      PosAtStep(x1, y1, x2, y2, i, j);
      visited := visited + [(x, y)];
      if error > 0 {
        ErrorAfterXStep(adx, ady, i, j);
        x := x + xInc;
        error := error - dy;
        i := i + 1;
      } else {
        ErrorAfterYStep(adx, ady, i, j);
        y := y + yInc;
        error := error + dx;
        j := j + 1;
      }
      steps := steps + 1;
    }
    g' := g.(cells := cells, effects := effects);
  }

  /** The grid's firebreak: every in-bounds position on the line from
      (x1, y1) to (x2, y2) becomes an empty rock cell flagged as a permanent
      firebreak, keeping its deposit levels; everything else is unchanged.
      The line has |x2 - x1| + |y2 - y1| steps. */
  method CreateFirebreak(g: Grid, x1: int, y1: int, x2: int, y2: int) returns (g': Grid, steps: nat)
    requires Valid(g)
    ensures Valid(g') && SameFrame(g, g')
    ensures steps == Abs(x2 - x1) + Abs(y2 - y1)
    ensures forall py, px :: IsValidPosition(g, px, py) ==>
      if (px, py) in Line(x1, y1, x2, y2) then
        && At(g', px, py) == RockCell() && EffectAt(g', px, py).firebreak
        && EffectAt(g', px, py).water == EffectAt(g, px, py).water
        && EffectAt(g', px, py).retardant == EffectAt(g, px, py).retardant
        && EffectAt(g', px, py).remaining == EffectAt(g, px, py).remaining
      else
        At(g', px, py) == At(g, px, py) && EffectAt(g', px, py) == EffectAt(g, px, py)
  {
    g', steps := PaintLine(g, x1, y1, x2, y2, true);
  }

  /** The fixed terrain pattern: a diagonal river, a forest patch in the
      upper right, a shrub patch in the lower left and grass elsewhere. */
  function TerrainCell(g: Grid, x: int, y: int): Cell {
    if Abs(x - y) < 2 then NewCell(Water, 0.7, 0.3)
    else if x > g.width / 2 && y < g.height / 2 then NewCell(Tree, 0.9, 0.2)
    else if x < g.width / 3 && y > 2 * g.height / 3 then NewCell(Shrub, 0.8, 0.4)
    else NewCell(Grass, 0.7, 0.3)
  }

  /** The patterned terrain: everything off the two-cell-wide diagonal river
      can burn and the river cannot; suppression is left as it was. */
  function InitializeTerrain(g: Grid): (r: Grid)
    requires Valid(g)
    ensures Valid(r) && SameFrame(g, r) && r.effects == g.effects
    ensures forall y, x :: IsValidPosition(r, x, y) ==>
      (CanBurn(At(r, x, y)) <==> Abs(x - y) >= 2) && At(r, x, y).state != Burning
  {
    g.(cells := seq(g.height, y => seq(g.width, x => TerrainCell(g, x, y))))
  }
}
