/** A firefighting crew: a type-dependent profile of tank capacities and base
    effectiveness, fatigue that every task raises and rest lowers, an
    availability flag with a hysteresis band, and the suppression actions a
    crew hands back for the grid to apply. */
module Crews {
  import Bresenham

  datatype CrewType = GroundCrew | WaterTanker | AirTanker | Helicopter

  datatype SuppressionType = Water | Retardant | Firebreak | Evacuation

  /** An order for the grid: where, how wide, how strong, for how long (a
      negative duration is permanent) and at what price. */
  datatype Action = Action(kind: SuppressionType, x: int, y: int, radius: int,
                           effectiveness: real, duration: real, cost: real)

  datatype Crew = Crew(id: int, name: string, kind: CrewType, x: int, y: int,
                       waterCapacity: real, retardantCapacity: real,
                       water: real, retardant: real,
                       effectiveness: real, fatigue: real, available: bool, speed: real)

  /** A crew after it issued an action. */
  datatype Deployed = Deployed(crew: Crew, action: Action)

  datatype Profile = Profile(waterCapacity: real, retardantCapacity: real,
                             effectiveness: real, speed: real)

  /** Fatigue above this takes a crew off duty. */
  const ExhaustedAbove: real := 0.8
  /** Fatigue below this puts a crew back on duty. */
  const RestedBelow: real := 0.3

  /** The fixed profile of each crew type: only air tankers and helicopters
      carry retardant, and air tankers are the most effective. */
  function ProfileOf(kind: CrewType): (p: Profile)
    ensures 0.0 < p.waterCapacity && 0.0 <= p.retardantCapacity
    ensures 0.0 < p.effectiveness <= 0.9 && 0.0 < p.speed
    ensures p.retardantCapacity > 0.0 <==> kind == AirTanker || kind == Helicopter
    ensures p.effectiveness == 0.9 <==> kind == AirTanker
  {
    match kind
    case GroundCrew => Profile(500.0, 0.0, 0.6, 2.0)
    case WaterTanker => Profile(3000.0, 0.0, 0.8, 4.0)
    case AirTanker => Profile(1000.0, 2000.0, 0.9, 8.0)
    case Helicopter => Profile(1500.0, 500.0, 0.7, 6.0)
  }

  /** Fatigue in [0,1], tanks between empty and full, and a base
      effectiveness in [0,1]. */
  predicate Wellformed(c: Crew) {
    0.0 <= c.fatigue <= 1.0
    && 0.0 <= c.water <= c.waterCapacity
    && 0.0 <= c.retardant <= c.retardantCapacity
    && 0.0 <= c.effectiveness <= 1.0
  }

  /** A new crew takes its type's profile, starts with full tanks, no
      fatigue, and on duty. */
  function NewCrew(id: int, name: string, kind: CrewType, x: int, y: int): (c: Crew)
    ensures Wellformed(c)
    ensures c.id == id && c.name == name && c.kind == kind && c.x == x && c.y == y
    ensures c.water == c.waterCapacity == ProfileOf(kind).waterCapacity
    ensures c.retardant == c.retardantCapacity == ProfileOf(kind).retardantCapacity
    ensures c.effectiveness == ProfileOf(kind).effectiveness
    ensures c.fatigue == 0.0 && c.available
  {
    var p := ProfileOf(kind);
    Crew(id, name, kind, x, y, p.waterCapacity, p.retardantCapacity,
         p.waterCapacity, p.retardantCapacity, p.effectiveness, 0.0, true, p.speed)
  }

  /** Fatigue after a task that costs `load`, saturating at 1. */
  function Tire(fatigue: real, load: real): (f: real)
    ensures f <= 1.0
    ensures f == fatigue + load || f == 1.0
    ensures fatigue + load <= 1.0 ==> f == fatigue + load
    ensures 0.0 <= load && fatigue <= 1.0 ==> fatigue <= f
  {
    if fatigue + load < 1.0 then fatigue + load else 1.0
  }

  /** Effectiveness after fatigue has taken its share. */
  function CurrentEffectiveness(c: Crew): (e: real)
    ensures Wellformed(c) ==> 0.0 <= e <= c.effectiveness
    ensures c.fatigue == 0.0 ==> e == c.effectiveness
  {
    MulBounded(c.effectiveness, 1.0 - c.fatigue);
    c.effectiveness * (1.0 - c.fatigue)
  }

  lemma MulBounded(a: real, b: real)
    ensures 0.0 <= a && 0.0 <= b <= 1.0 ==> 0.0 <= a * b <= a
  {
    if 0.0 <= a && 0.0 <= b <= 1.0 {
      assert a * b <= a * 1.0;
    }
  }

  /** Moving relocates an on-duty crew and tires it by 0.05; an off-duty
      crew ignores the order. */
  function MoveTo(c: Crew, tx: int, ty: int): (r: Crew)
    ensures !c.available ==> r == c
    ensures c.available ==> r.x == tx && r.y == ty
    ensures r == c.(x := r.x, y := r.y, fatigue := r.fatigue)
    ensures Wellformed(c) ==> Wellformed(r) && r.fatigue >= c.fatigue
  {
    if !c.available then c
    else
      c.(x := tx, y := ty, fatigue := Tire(c.fatigue, 0.05))
  }

  /** A water drop: the action carries 0.8 of the crew's current
      effectiveness, lasts 300 seconds and costs 500; the crew spends at most
      30% of its water capacity and never more than it holds, and tires by
      0.1. The drop is issued whatever the tank holds. */
  function DeployWater(c: Crew, tx: int, ty: int, radius: int): (r: Deployed)
    ensures r.action == Action(Water, tx, ty, radius, CurrentEffectiveness(c) * 0.8, 300.0, 500.0)
    ensures r.crew == c.(water := r.crew.water, fatigue := r.crew.fatigue)
    ensures c.water - r.crew.water <= c.waterCapacity * 0.3
    ensures 0.0 <= c.water && 0.0 <= c.waterCapacity ==> 0.0 <= r.crew.water <= c.water
    ensures Wellformed(c) ==> Wellformed(r.crew) && r.crew.fatigue >= c.fatigue
  {
    var used := if c.water < c.waterCapacity * 0.3 then c.water else c.waterCapacity * 0.3;
    Deployed(c.(water := c.water - used, fatigue := Tire(c.fatigue, 0.1)),
             Action(Water, tx, ty, radius, CurrentEffectiveness(c) * 0.8, 300.0, 500.0))
  }

  /** A retardant drop: 0.9 of the current effectiveness, 1800 seconds, cost
      2000; at most 40% of the retardant capacity is used, and the crew tires
      by 0.15. */
  function DeployRetardant(c: Crew, tx: int, ty: int, radius: int): (r: Deployed)
    ensures r.action == Action(Retardant, tx, ty, radius, CurrentEffectiveness(c) * 0.9, 1800.0, 2000.0)
    ensures r.crew == c.(retardant := r.crew.retardant, fatigue := r.crew.fatigue)
    ensures c.retardant - r.crew.retardant <= c.retardantCapacity * 0.4
    ensures 0.0 <= c.retardant && 0.0 <= c.retardantCapacity ==> 0.0 <= r.crew.retardant <= c.retardant
    ensures Wellformed(c) ==> Wellformed(r.crew) && r.crew.fatigue >= c.fatigue
  {
    var used := if c.retardant < c.retardantCapacity * 0.4 then c.retardant else c.retardantCapacity * 0.4;
    Deployed(c.(retardant := c.retardant - used, fatigue := Tire(c.fatigue, 0.15)),
             Action(Retardant, tx, ty, radius, CurrentEffectiveness(c) * 0.9, 1800.0, 2000.0))
  }

  /** Cutting a firebreak: the action starts at the start point, its radius
      is the Manhattan length of the cut, its duration is the permanent
      marker -1 and it costs 1000; only the crew's fatigue changes, by 0.2. */
  function CreateFirebreak(c: Crew, sx: int, sy: int, ex: int, ey: int): (r: Deployed)
    ensures r.action.kind == Firebreak && r.action.x == sx && r.action.y == sy
    ensures r.action.radius == Bresenham.Abs(ex - sx) + Bresenham.Abs(ey - sy) >= 0
    ensures r.action.effectiveness == CurrentEffectiveness(c) * 0.7
    ensures r.action.duration == -1.0 && r.action.cost == 1000.0
    ensures r.crew == c.(fatigue := r.crew.fatigue)
    ensures Wellformed(c) ==> Wellformed(r.crew) && r.crew.fatigue >= c.fatigue
  {
    Deployed(c.(fatigue := Tire(c.fatigue, 0.2)),
             Action(Firebreak, sx, sy, Bresenham.Abs(ex - sx) + Bresenham.Abs(ey - sy),
                    CurrentEffectiveness(c) * 0.7, -1.0, 1000.0))
  }

  /** Back at base both tanks are filled to capacity. */
  function Refill(c: Crew): (r: Crew)
    ensures r == c.(water := c.waterCapacity, retardant := c.retardantCapacity)
    ensures Wellformed(c) ==> Wellformed(r)
  {
    c.(water := c.waterCapacity, retardant := c.retardantCapacity)
  }

  /** Resting recovers 0.1 fatigue per time unit, never below 0. Resting does
      not by itself put a crew back on duty. */
  function Rest(c: Crew, time: real): (r: Crew)
    ensures r == c.(fatigue := r.fatigue)
    ensures 0.0 <= r.fatigue
    ensures 0.0 <= time ==> r.fatigue <= c.fatigue || r.fatigue == 0.0
    ensures 0.0 <= time && Wellformed(c) ==> Wellformed(r)
    ensures c.fatigue <= time * 0.1 ==> r.fatigue == 0.0
    ensures time * 0.1 <= c.fatigue ==> r.fatigue == c.fatigue - time * 0.1
  {
    var f := c.fatigue - time * 0.1;
    c.(fatigue := if f < 0.0 then 0.0 else f)
  }

  /** The passage of dt: fatigue rises by 0.01 per unit up to 1; above 0.8
      the crew goes off duty, below 0.3 it comes back on, and in between it
      keeps its previous availability. */
  function Update(c: Crew, dt: real): (r: Crew)
    ensures r == c.(fatigue := r.fatigue, available := r.available)
    ensures r.fatigue <= 1.0
    ensures c.fatigue + dt * 0.01 <= 1.0 ==> r.fatigue == c.fatigue + dt * 0.01
    ensures 1.0 <= c.fatigue + dt * 0.01 ==> r.fatigue == 1.0
    ensures 0.0 <= dt && c.fatigue <= 1.0 ==> r.fatigue >= c.fatigue
    ensures 0.0 <= dt && Wellformed(c) ==> Wellformed(r)
    ensures r.fatigue > ExhaustedAbove ==> !r.available
    ensures r.fatigue < RestedBelow ==> r.available
    ensures RestedBelow <= r.fatigue <= ExhaustedAbove ==> r.available == c.available
  {
    var f := Tire(c.fatigue, dt * 0.01);
    c.(fatigue := f,
       available := if f > ExhaustedAbove then false else if f < RestedBelow then true else c.available)
  }

  /** n successive updates by dt. */
  function UpdateN(c: Crew, dt: real, n: nat): Crew
    decreases n
  {
    if n == 0 then c else Update(UpdateN(c, dt, n - 1), dt)
  }

  /** Hysteresis: a crew that is off duty with fatigue at or above the
      rested threshold stays off duty however long time passes, since time
      alone only adds fatigue; only rest brings it back. */
  lemma {:induction false} OffDutyStaysOffWithoutRest(c: Crew, dt: real, n: nat)
    requires 0.0 <= dt && !c.available && RestedBelow <= c.fatigue
    ensures !UpdateN(c, dt, n).available
    ensures UpdateN(c, dt, n).fatigue >= RestedBelow
  {
    if n > 0 {
      OffDutyStaysOffWithoutRest(c, dt, n - 1);
    }
  }

  /** The way back: a full rest followed by a short update puts any crew
      back on duty. */
  lemma RestThenUpdateRestores(c: Crew, time: real, dt: real)
    requires c.fatigue <= time * 0.1
    requires 0.0 <= dt && dt * 0.01 < RestedBelow
    ensures Update(Rest(c, time), dt).available
  {
  }

  /** Whether a crew may take an order of the given kind: it must be on
      duty, and then a drop needs more than 10% of the matching tank, a
      firebreak fatigue below 0.7, and an evacuation fatigue below 0.5. */
  predicate CanDeploy(c: Crew, kind: SuppressionType) {
    c.available &&
    match kind
    case Water => c.water > c.waterCapacity * 0.1
    case Retardant => c.retardant > c.retardantCapacity * 0.1
    case Firebreak => c.fatigue < 0.7
    case Evacuation => c.fatigue < 0.5
  }

  /** A crew cleared for a drop actually dispenses a positive amount. */
  lemma DeployableDropUsesAgent(c: Crew, tx: int, ty: int, radius: int)
    requires Wellformed(c)
    ensures CanDeploy(c, Water) ==> DeployWater(c, tx, ty, radius).crew.water < c.water
    ensures CanDeploy(c, Retardant) ==> DeployRetardant(c, tx, ty, radius).crew.retardant < c.retardant
  {
  }

  /** A crew without a retardant tank (ground crews and water tankers) is
      never cleared for a retardant drop. */
  lemma NoTankNoRetardant(c: Crew)
    requires Wellformed(c) && c.retardantCapacity == 0.0
    ensures !CanDeploy(c, Retardant)
  {
  }
}
