/** The per-tile combustion state machine of the wildfire simulator: a cell
    is created with some fuel, may be ignited, burns for a duration scaled by
    its fuel type, density and moisture, and ends Burned. Doubles are modelled
    as reals. */
module Cells {

  datatype CellState = Empty | Fuel | Burning | Burned

  datatype FuelType = Grass | Shrub | Tree | Water | Rock

  datatype Cell = Cell(
    state: CellState,
    fuelType: FuelType,
    density: real,
    moisture: real,
    temperature: real,
    burnTime: real)

  const AmbientCelsius: real := 20.0
  const IgnitionCelsius: real := 300.0
  /** Fuel density at or below which nothing burns. */
  const MinBurnDensity: real := 0.1

  predicate Flammable(t: FuelType) {
    t != Water && t != Rock
  }

  /** The cell constructor: water and rock are created empty and without
      fuel, every other type is created as fuel at ambient temperature. */
  function NewCell(t: FuelType, density: real, moisture: real): (c: Cell)
    ensures c.fuelType == t && c.moisture == moisture
    ensures c.temperature == AmbientCelsius && c.burnTime == 0.0
    ensures !Flammable(t) ==> c.state == Empty && c.density == 0.0
    ensures Flammable(t) ==> c.state == Fuel && c.density == density
  {
    if Flammable(t) then Cell(Fuel, t, density, moisture, AmbientCelsius, 0.0)
    else Cell(Empty, t, 0.0, moisture, AmbientCelsius, 0.0)
  }

  /** The cell a default-constructed grid holds. */
  function DefaultCell(): Cell {
    NewCell(Grass, 0.8, 0.3)
  }

  predicate CanBurn(c: Cell) {
    c.state == Fuel && Flammable(c.fuelType) && c.density > MinBurnDensity
  }

  /** A freshly constructed cell is burnable exactly when its type is
      flammable and it was given more than the minimum fuel density. */
  lemma NewCellCanBurn(t: FuelType, density: real, moisture: real)
    ensures CanBurn(NewCell(t, density, moisture)) <==> Flammable(t) && density > MinBurnDensity
  {
  }

  function Ignite(c: Cell): (r: Cell)
    ensures CanBurn(c) ==> r.state == Burning && r.burnTime == 0.0 && r.temperature == IgnitionCelsius
    ensures CanBurn(c) ==> r.fuelType == c.fuelType && r.density == c.density && r.moisture == c.moisture
    ensures !CanBurn(c) ==> r == c
  {
    if CanBurn(c) then c.(state := Burning, burnTime := 0.0, temperature := IgnitionCelsius) else c
  }

  /** Ignition changes a cell exactly when the cell can burn. */
  lemma IgniteChangesIffCanBurn(c: Cell)
    ensures Ignite(c) != c <==> CanBurn(c)
  {
  }

  /** Burn duration before scaling, in seconds. */
  function BaseDuration(t: FuelType): real {
    match t
    case Grass => 30.0
    case Shrub => 120.0
    case Tree => 300.0
    case _ => 30.0
  }

  /** Total burn duration: the base duration scaled by density and by
      (1 + moisture). */
  function BurnDuration(c: Cell): real {
    BaseDuration(c.fuelType) * c.density * (1.0 + c.moisture)
  }

  /** Temperature while still burning: falls linearly from 320 towards 20 as
      the burn progresses. When the duration is zero the source divides by
      zero; that case is only reachable here with a negative burn time, and
      the model then keeps the previous temperature. */
  function BurningTemperature(c: Cell, burnTime: real): real {
    var d := BurnDuration(c);
    if d == 0.0 then c.temperature
    else IgnitionCelsius * (1.0 - burnTime / d) + AmbientCelsius
  }

  /** Advance a cell by dt seconds. */
  function Update(c: Cell, dt: real): (r: Cell)
    ensures c.state != Burning ==> r == c
    ensures c.state == Burning ==>
      && r.fuelType == c.fuelType && r.moisture == c.moisture
      && r.burnTime == c.burnTime + dt
      && (r.state == Burned <==> c.burnTime + dt >= BurnDuration(c))
      && (r.state == Burned ==> r.temperature == AmbientCelsius && r.density == 0.0)
      && (r.state != Burned ==> r.state == Burning && r.density == c.density)
      && (r.state != Burned ==> r.temperature == BurningTemperature(c, r.burnTime))
  {
    if c.state != Burning then c
    else
      var t := c.burnTime + dt;
      if t >= BurnDuration(c) then
        c.(burnTime := t, state := Burned, temperature := AmbientCelsius, density := 0.0)
      else
        c.(burnTime := t, temperature := BurningTemperature(c, t))
  }

  /** The fraction of the burn duration a burn time represents. */
  lemma FractionBounds(t1: real, t2: real, d: real)
    requires 0.0 <= t1 <= t2 < d
    ensures 0.0 <= t1 / d <= t2 / d < 1.0
  {
    assert t1 / d * d == t1 && t2 / d * d == t2;
    if t2 / d >= 1.0 {
      MulMonotone(1.0, t2 / d, d);
    }
    if t1 / d > t2 / d {
      MulMonotone(t2 / d, t1 / d, d);
    }
  }

  /** While a cell keeps burning under non-negative time steps its
      temperature stays within (20, 320] and never rises from one update to
      the next. */
  lemma BurningCools(c: Cell, dt1: real, dt2: real)
    requires c.state == Burning && c.burnTime >= 0.0 && dt1 >= 0.0 && dt2 >= 0.0
    ensures Update(c, dt1).state == Burning ==>
      AmbientCelsius < Update(c, dt1).temperature <= IgnitionCelsius + AmbientCelsius
    ensures Update(Update(c, dt1), dt2).state == Burning ==>
      Update(Update(c, dt1), dt2).temperature <= Update(c, dt1).temperature
  {
    var c1 := Update(c, dt1);
    var c2 := Update(c1, dt2);
    var d := BurnDuration(c);
    if c1.state == Burning {
      assert BurnDuration(c1) == d;
      FractionBounds(c1.burnTime, c1.burnTime, d);
      if c2.state == Burning {
        FractionBounds(c1.burnTime, c2.burnTime, d);
      }
    }
  }

  lemma SmallFraction(t: real, d: real)
    requires 0.0 < d && 15.0 * t < d
    ensures t / d < 1.0 / 15.0
  {
    var q := t / d;
    assert q * d == t;
    if 15.0 * q >= 1.0 {
      MulMonotone(1.0, 15.0 * q, d);
    }
  }

  /** Ignition sets 300 degrees while the burning formula starts from 320,
      so an update shorter than a fifteenth of the burn duration leaves a
      newly ignited cell hotter than ignition made it. */
  lemma IgnitedCellWarms(c: Cell, dt: real)
    requires CanBurn(c) && dt > 0.0 && 15.0 * dt < BurnDuration(c)
    ensures Update(Ignite(c), dt).state == Burning
    ensures Update(Ignite(c), dt).temperature > Ignite(c).temperature
  {
    var i := Ignite(c);
    var d := BurnDuration(c);
    assert BurnDuration(i) == d;
    SmallFraction(dt, d);
    assert Update(i, dt).temperature == IgnitionCelsius * (1.0 - dt / d) + AmbientCelsius;
  }

  /** Burned is absorbing: neither ignition nor an update changes it. */
  lemma BurnedIsAbsorbing(c: Cell, dt: real)
    requires c.state == Burned
    ensures Ignite(c) == c && Update(c, dt) == c
    ensures Update(Ignite(c), dt).state == Burned
  {
  }

  /** n successive updates by dt. */
  function UpdateN(c: Cell, dt: real, n: nat): Cell
    decreases n
  {
    if n == 0 then c else Update(UpdateN(c, dt, n - 1), dt)
  }

  /** One step back from n steps of dt. */
  lemma PreviousMultiple(n: nat, dt: real)
    requires n > 0
    ensures ((n - 1) as real) * dt == (n as real) * dt - dt
  {
  }

  /** A cell ignited with burn time 0 and burning for duration D, updated in
      steps of dt > 0, is still burning after n steps with n*dt < D, with burn
      time n*dt and its fuel untouched. */
  lemma {:induction false} StillBurning(c: Cell, dt: real, n: nat)
    requires c.state == Burning && c.burnTime == 0.0 && dt > 0.0
    requires (n as real) * dt < BurnDuration(c)
    ensures UpdateN(c, dt, n).state == Burning
    ensures UpdateN(c, dt, n).burnTime == (n as real) * dt
    ensures UpdateN(c, dt, n).fuelType == c.fuelType
    ensures UpdateN(c, dt, n).density == c.density
    ensures UpdateN(c, dt, n).moisture == c.moisture
  {
    if n > 0 {
      PreviousMultiple(n, dt);
      StillBurning(c, dt, n - 1);
      var before := UpdateN(c, dt, n - 1);
      assert UpdateN(c, dt, n) == Update(before, dt);
    }
  }

  /** The step that takes the burn time to the duration burns the cell out. */
  lemma BurnsOutAtDuration(c: Cell, dt: real, n: nat)
    requires c.state == Burning && c.burnTime == 0.0 && dt > 0.0
    requires n > 0 && ((n - 1) as real) * dt < BurnDuration(c) <= (n as real) * dt
    ensures UpdateN(c, dt, n).state == Burned
    ensures UpdateN(c, dt, n).temperature == AmbientCelsius
    ensures UpdateN(c, dt, n).density == 0.0
  {
    StillBurning(c, dt, n - 1);
  }

  /** Burnout timing: a lone grass cell with full density and no moisture,
      ignited and updated with dt = 1, is still burning after 29 updates and
      burned after the 30th. */
  lemma GrassBurnsOutOnThirtiethUpdate()
    ensures UpdateN(Ignite(NewCell(Grass, 1.0, 0.0)), 1.0, 29).state == Burning
    ensures UpdateN(Ignite(NewCell(Grass, 1.0, 0.0)), 1.0, 30).state == Burned
  {
    var c := Ignite(NewCell(Grass, 1.0, 0.0));
    assert BurnDuration(c) == 30.0;
    StillBurning(c, 1.0, 29);
    BurnsOutAtDuration(c, 1.0, 30);
  }

  function Clamp01(p: real): (r: real)
    ensures 0.0 <= r <= 1.0
    ensures 0.0 <= p <= 1.0 ==> r == p
  {
    if p > 1.0 then 1.0 else if p < 0.0 then 0.0 else p
  }

  function IgnitionTypeFactor(t: FuelType): real {
    match t
    case Grass => 1.2
    case Shrub => 1.0
    case Tree => 0.8
    case _ => 1.0
  }

  /** A hot cell ignites more easily: above 50 degrees the probability grows
      by one percent per degree. */
  function TemperatureFactor(temperature: real): real {
    if temperature > 50.0 then 1.0 + (temperature - 50.0) / 100.0 else 1.0
  }

  /** The unclamped ignition likelihood of a burnable cell. */
  function RawIgnition(c: Cell): real {
    c.density * IgnitionTypeFactor(c.fuelType) * (1.0 - c.moisture * 0.8) * TemperatureFactor(c.temperature)
  }

  function IgnitionProbability(c: Cell): (p: real)
    ensures 0.0 <= p <= 1.0
    ensures !CanBurn(c) ==> p == 0.0
  {
    if !CanBurn(c) then 0.0 else Clamp01(RawIgnition(c))
  }

  lemma ClampMonotone(a: real, b: real)
    requires a <= b
    ensures Clamp01(a) <= Clamp01(b)
  {
  }

  lemma MulMonotone(a: real, b: real, k: real)
    requires a <= b && k >= 0.0
    ensures a * k <= b * k
  {
  }

  /** Moisture dampens ignition: of two cells that differ only in moisture,
      the wetter one is no more likely to ignite. */
  lemma MoistureDampensIgnition(c: Cell, wetter: real)
    requires c.density >= 0.0 && c.moisture <= wetter
    ensures IgnitionProbability(c.(moisture := wetter)) <= IgnitionProbability(c)
  {
    var w := c.(moisture := wetter);
    if CanBurn(c) {
      var k := c.density * IgnitionTypeFactor(c.fuelType);
      assert k >= 0.0;
      var t := TemperatureFactor(c.temperature);
      assert t >= 1.0;
      assert 1.0 - wetter * 0.8 <= 1.0 - c.moisture * 0.8;
      MulMonotone(1.0 - wetter * 0.8, 1.0 - c.moisture * 0.8, k);
      assert k * (1.0 - wetter * 0.8) <= k * (1.0 - c.moisture * 0.8);
      MulMonotone(k * (1.0 - wetter * 0.8), k * (1.0 - c.moisture * 0.8), t);
      assert RawIgnition(w) == k * (1.0 - wetter * 0.8) * t;
      assert RawIgnition(c) == k * (1.0 - c.moisture * 0.8) * t;
      ClampMonotone(RawIgnition(w), RawIgnition(c));
    }
  }

  /** The character a cell contributes to a text snapshot. */
  function DisplayChar(c: Cell): (ch: char)
    ensures ch in {'~', '#', ' ', '.', 'o', 'T', '*', 'x'}
  {
    match c.state
    case Empty =>
      if c.fuelType == Water then '~' else if c.fuelType == Rock then '#' else ' '
    case Fuel =>
      (match c.fuelType
       case Shrub => 'o'
       case Tree => 'T'
       case _ => '.')
    case Burning => '*'
    case Burned => 'x'
  }

  /** The display character determines the combustion state. */
  lemma DisplayCharClassifiesState(c: Cell)
    ensures DisplayChar(c) in {'~', '#', ' '} <==> c.state == Empty
    ensures DisplayChar(c) in {'.', 'o', 'T'} <==> c.state == Fuel
    ensures DisplayChar(c) == '*' <==> c.state == Burning
    ensures DisplayChar(c) == 'x' <==> c.state == Burned
  {
  }
}
