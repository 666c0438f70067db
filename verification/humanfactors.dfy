/** The human-factor manager: the crew roster with sequential ids, a
    suppression budget that is never overspent, and evacuation zones whose
    evacuated count climbs by 1% of the population per update. */
module HumanFactors {
  import opened Crews
  import Bresenham

  datatype Zone = Zone(name: string, x: int, y: int, radius: int, population: int,
                       evacuated: int, ordered: bool, danger: real)

  datatype Manager = Manager(crews: seq<Crew>, zones: seq<Zone>,
                             totalBudget: real, spentBudget: real, nextCrewId: int)

  const DefaultBudget: real := 100000.0

  function NewManager(budget: real): (m: Manager)
    ensures m.crews == [] && m.zones == []
    ensures m.totalBudget == budget && m.spentBudget == 0.0 && m.nextCrewId == 1
  {
    Manager([], [], budget, 0.0, 1)
  }

  /** The roster invariant: crew i (from 0) carries id i + 1 and the next id
      is one past the last. */
  predicate IdsSequential(m: Manager) {
    m.nextCrewId == |m.crews| + 1
    && forall i :: 0 <= i < |m.crews| ==> m.crews[i].id == i + 1
  }

  /** A new crew joins at the end of the roster under the next id. */
  function AddCrew(m: Manager, name: string, kind: CrewType, x: int, y: int): (r: Manager)
    ensures |r.crews| == |m.crews| + 1 && r.crews[..|m.crews|] == m.crews
    ensures r.crews[|m.crews|] == NewCrew(m.nextCrewId, name, kind, x, y)
    ensures r.nextCrewId == m.nextCrewId + 1
    ensures r.zones == m.zones && r.totalBudget == m.totalBudget && r.spentBudget == m.spentBudget
    ensures IdsSequential(m) ==> IdsSequential(r)
  {
    m.(crews := m.crews + [NewCrew(m.nextCrewId, name, kind, x, y)], nextCrewId := m.nextCrewId + 1)
  }

  datatype Recruit = Recruit(name: string, kind: CrewType, x: int, y: int)

  /** Adding a list of crews in order. */
  function AddCrews(m: Manager, rs: seq<Recruit>): Manager
    decreases |rs|
  {
    if rs == [] then m
    else
      var last := rs[|rs| - 1];
      AddCrew(AddCrews(m, rs[..|rs| - 1]), last.name, last.kind, last.x, last.y)
  }

  /** Whatever crews are added to a fresh manager, they carry the ids
      1, 2, 3, ... in roster order, so ids are unique and strictly
      increasing. */
  lemma {:induction false} AddedCrewsNumbered(budget: real, rs: seq<Recruit>)
    ensures IdsSequential(AddCrews(NewManager(budget), rs))
    ensures |AddCrews(NewManager(budget), rs).crews| == |rs|
    ensures forall i, j :: 0 <= i < j < |rs| ==>
              AddCrews(NewManager(budget), rs).crews[i].id < AddCrews(NewManager(budget), rs).crews[j].id
    decreases |rs|
  {
    if rs != [] {
      AddedCrewsNumbered(budget, rs[..|rs| - 1]);
    }
  }

  /** Whether the cost fits in the remaining budget. */
  predicate CanAfford(m: Manager, cost: real) {
    m.spentBudget + cost <= m.totalBudget
  }

  function SpendBudget(m: Manager, amount: real): (r: Manager)
    ensures r == m.(spentBudget := r.spentBudget)
    ensures r.spentBudget - m.spentBudget == amount
  {
    m.(spentBudget := m.spentBudget + amount)
  }

  /** Spending what the budget affords never overspends. */
  lemma AffordableSpendWithinBudget(m: Manager, cost: real)
    requires CanAfford(m, cost)
    ensures SpendBudget(m, cost).spentBudget <= m.totalBudget
    ensures 0.0 <= cost ==> SpendBudget(m, cost).spentBudget >= m.spentBudget
  {
  }

  /** The first on-duty crew with the id moves; every other crew, and every
      crew when none matches, stays where it is. */
  function DeployCrewToLocation(crews: seq<Crew>, id: int, x: int, y: int): (r: seq<Crew>)
    ensures |r| == |crews|
    ensures forall i :: 0 <= i < |r| ==> r[i] == crews[i] || (crews[i].id == id && crews[i].available && r[i] == MoveTo(crews[i], x, y))
    ensures (forall i :: 0 <= i < |crews| ==> !(crews[i].id == id && crews[i].available)) ==> r == crews
    decreases |crews|
  {
    if crews == [] then []
    else if crews[0].id == id && crews[0].available then [MoveTo(crews[0], x, y)] + crews[1..]
    else [crews[0]] + DeployCrewToLocation(crews[1..], id, x, y)
  }

  /** The search stops at the first on-duty crew with the id: exactly that
      crew moves and the roster is otherwise unchanged. */
  lemma {:induction false} FirstEligibleMoves(crews: seq<Crew>, id: int, x: int, y: int, k: int)
    requires 0 <= k < |crews| && crews[k].id == id && crews[k].available
    requires forall j :: 0 <= j < k ==> !(crews[j].id == id && crews[j].available)
    ensures DeployCrewToLocation(crews, id, x, y) == crews[k := MoveTo(crews[k], x, y)]
    decreases k
  {
    if k > 0 {
      var rest := crews[1..];
      assert !(crews[0].id == id && crews[0].available);
      assert rest[k - 1] == crews[k];
      FirstEligibleMoves(rest, id, x, y, k - 1);
      var moved := rest[k - 1 := MoveTo(crews[k], x, y)];
      assert DeployCrewToLocation(crews, id, x, y) == [crews[0]] + moved;
      assert [crews[0]] + moved == crews[k := MoveTo(crews[k], x, y)];
    }
  }

  /** Every crew ages by dt. */
  function UpdateCrews(crews: seq<Crew>, dt: real): (r: seq<Crew>)
    ensures |r| == |crews|
    ensures forall i :: 0 <= i < |r| ==> r[i] == Update(crews[i], dt)
    ensures 0.0 <= dt ==> forall i :: 0 <= i < |r| ==> Wellformed(crews[i]) ==> Wellformed(r[i])
  {
    seq(|crews|, i requires 0 <= i < |crews| => Update(crews[i], dt))
  }

  /** The crew's side of an order: drops go to the target, a firebreak is
      cut eastwards from the target over `radius` cells, and an evacuation
      order carries neither strength nor cost. */
  function Dispatch(c: Crew, kind: SuppressionType, x: int, y: int, radius: int): (d: Deployed)
    ensures d.action.kind == kind
    ensures d.crew.id == c.id && d.crew.kind == c.kind && d.crew.name == c.name
    ensures d.crew.x == c.x && d.crew.y == c.y
    ensures Wellformed(c) ==> Wellformed(d.crew)
    ensures kind == Evacuation ==> d.crew == c && d.action.cost == 0.0 && d.action.effectiveness == 0.0
    ensures kind == Firebreak ==> d.action.radius == Bresenham.Abs(radius)
    ensures 0.0 <= d.action.cost
  {
    match kind
    case Water => DeployWater(c, x, y, radius)
    case Retardant => DeployRetardant(c, x, y, radius)
    case Firebreak => CreateFirebreak(c, x, y, x + radius, y)
    case Evacuation => Deployed(c, Action(Evacuation, x, y, radius, 0.0, 0.0, 0.0))
  }

  datatype Outcome = Granted(action: Action) | Refused

  function Cost(o: Outcome): real {
    match o
    case Granted(a) => a.cost
    case Refused => 0.0
  }

  function Strength(o: Outcome): real {
    match o
    case Granted(a) => a.effectiveness
    case Refused => 0.0
  }

  datatype Ordered = Ordered(manager: Manager, outcome: Outcome)

  /** Whether crew i may carry out the order. */
  predicate Eligible(c: Crew, id: int, kind: SuppressionType) {
    c.id == id && CanDeploy(c, kind)
  }

  /** A crew as a refused scan leaves it: drained when it was eligible, as
      it was otherwise. */
  function Passed(c: Crew, id: int, kind: SuppressionType, x: int, y: int, radius: int): Crew {
    if Eligible(c, id, kind) then Dispatch(c, kind, x, y, radius).crew else c
  }

  /** Whether crew c is eligible but its action is more than the budget
      left in m affords. */
  predicate TooDear(m: Manager, c: Crew, id: int, kind: SuppressionType, x: int, y: int, radius: int) {
    Eligible(c, id, kind) && !CanAfford(m, Dispatch(c, kind, x, y, radius).action.cost)
  }

  /** The roster scan from crew k on: each eligible crew deploys (using up
      agent and gaining fatigue) and the order is granted with the first
      action the budget affords; an eligible crew whose action is too dear
      keeps the consumption and the scan goes on. */
  function OrderFrom(m: Manager, k: nat, id: int, kind: SuppressionType, x: int, y: int, radius: int): (r: Ordered)
    requires k <= |m.crews|
    ensures |r.manager.crews| == |m.crews|
    ensures r.manager.zones == m.zones && r.manager.totalBudget == m.totalBudget
    ensures r.manager.nextCrewId == m.nextCrewId
    ensures forall i :: 0 <= i < k ==> r.manager.crews[i] == m.crews[i]
    ensures forall i :: k <= i < |m.crews| && !Eligible(m.crews[i], id, kind) ==> r.manager.crews[i] == m.crews[i]
    ensures forall i :: 0 <= i < |m.crews| ==> r.manager.crews[i].id == m.crews[i].id && r.manager.crews[i].kind == m.crews[i].kind
    ensures forall i :: 0 <= i < |m.crews| ==> Wellformed(m.crews[i]) ==> Wellformed(r.manager.crews[i])
    ensures r.outcome.Refused? ==> r.manager.spentBudget == m.spentBudget
    ensures r.outcome.Granted? ==> r.outcome.action.kind == kind && r.outcome.action.cost >= 0.0
    ensures r.outcome.Granted? ==> r.manager.spentBudget == m.spentBudget + r.outcome.action.cost <= m.totalBudget
    ensures r.outcome.Granted? ==> exists i :: k <= i < |m.crews| && Eligible(m.crews[i], id, kind)
    ensures (forall i :: k <= i < |m.crews| ==> !Eligible(m.crews[i], id, kind)) ==> r == Ordered(m, Refused)
    decreases |m.crews| - k
  {
    if k == |m.crews| then Ordered(m, Refused)
    else
      var c := m.crews[k];
      if Eligible(c, id, kind) then
        var d := Dispatch(c, kind, x, y, radius);
        var m1 := m.(crews := m.crews[k := d.crew]);
        if CanAfford(m1, d.action.cost) then Ordered(SpendBudget(m1, d.action.cost), Granted(d.action))
        else OrderFrom(m1, k + 1, id, kind, x, y, radius)
      else OrderFrom(m, k + 1, id, kind, x, y, radius)
  }

  /** The price of an order depends on its kind only, never on the crew
      that carries it out. */
  lemma DispatchCostByKind(c1: Crew, c2: Crew, kind: SuppressionType, x: int, y: int, radius: int)
    ensures Dispatch(c1, kind, x, y, radius).action.cost == Dispatch(c2, kind, x, y, radius).action.cost
    ensures kind == Water ==> Dispatch(c1, kind, x, y, radius).action.cost == 500.0
    ensures kind == Retardant ==> Dispatch(c1, kind, x, y, radius).action.cost == 2000.0
    ensures kind == Firebreak ==> Dispatch(c1, kind, x, y, radius).action.cost == 1000.0
  {
  }

  /** The scan from k0 stops at the first eligible crew k from k0 on when
      the budget affords its action: crew k deploys and pays and every other
      crew is untouched. */
  lemma {:induction false} OrderFromGranted(m: Manager, k0: nat, id: int, kind: SuppressionType, x: int, y: int, radius: int, k: int)
    requires k0 <= k < |m.crews|
    requires Eligible(m.crews[k], id, kind) && CanAfford(m, Dispatch(m.crews[k], kind, x, y, radius).action.cost)
    requires forall j :: k0 <= j < k ==> !Eligible(m.crews[j], id, kind)
    ensures var r := OrderFrom(m, k0, id, kind, x, y, radius);
            var d := Dispatch(m.crews[k], kind, x, y, radius);
            && r.outcome == Granted(d.action)
            && r.manager.spentBudget == m.spentBudget + d.action.cost
            && r.manager.crews == m.crews[k := d.crew]
    decreases k - k0
  {
    if k0 < k {
      OrderFromGranted(m, k0 + 1, id, kind, x, y, radius, k);
    }
  }

  /** The scan from k0 ends in a grant as soon as some eligible crew from
      k0 on has an action the budget affords: the first eligible crew then
      costs the same and is granted. */
  lemma {:induction false} OrderFromGrants(m: Manager, k0: nat, id: int, kind: SuppressionType, x: int, y: int, radius: int, k: int)
    requires k0 <= k < |m.crews|
    requires Eligible(m.crews[k], id, kind) && CanAfford(m, Dispatch(m.crews[k], kind, x, y, radius).action.cost)
    ensures OrderFrom(m, k0, id, kind, x, y, radius).outcome.Granted?
    decreases k - k0
  {
    var c := m.crews[k0];
    if Eligible(c, id, kind) {
      DispatchCostByKind(c, m.crews[k], kind, x, y, radius);
    } else {
      OrderFromGrants(m, k0 + 1, id, kind, x, y, radius, k);
    }
  }

  /** When every eligible crew from k0 on is too dear the scan refuses,
      spends nothing and leaves each of those crews drained. */
  lemma {:induction false} OrderFromRefused(m: Manager, k0: nat, id: int, kind: SuppressionType, x: int, y: int, radius: int)
    requires k0 <= |m.crews|
    requires forall j :: k0 <= j < |m.crews| && Eligible(m.crews[j], id, kind) ==> TooDear(m, m.crews[j], id, kind, x, y, radius)
    ensures var r := OrderFrom(m, k0, id, kind, x, y, radius);
            && r.outcome == Refused
            && r.manager.spentBudget == m.spentBudget
            && forall j :: k0 <= j < |m.crews| ==> r.manager.crews[j] == Passed(m.crews[j], id, kind, x, y, radius)
    decreases |m.crews| - k0
  {
    if k0 < |m.crews| {
      var c := m.crews[k0];
      if Eligible(c, id, kind) {
        var m1 := m.(crews := m.crews[k0 := Dispatch(c, kind, x, y, radius).crew]);
        assert TooDear(m, c, id, kind, x, y, radius);
        OrderFromRefused(m1, k0 + 1, id, kind, x, y, radius);
      } else {
        OrderFromRefused(m, k0 + 1, id, kind, x, y, radius);
      }
    }
  }

  /** An order is refused exactly when every eligible crew's action costs
      more than the budget left; a refused order still leaves each eligible
      crew drained. */
  lemma OrderRefusedIff(m: Manager, id: int, kind: SuppressionType, x: int, y: int, radius: int)
    ensures var r := OrderFrom(m, 0, id, kind, x, y, radius);
            && (r.outcome.Refused? <==>
                  forall j :: 0 <= j < |m.crews| && Eligible(m.crews[j], id, kind) ==> TooDear(m, m.crews[j], id, kind, x, y, radius))
            && (r.outcome.Refused? ==>
                  forall j :: 0 <= j < |m.crews| ==> r.manager.crews[j] == Passed(m.crews[j], id, kind, x, y, radius))
  {
    if forall j :: 0 <= j < |m.crews| && Eligible(m.crews[j], id, kind) ==> TooDear(m, m.crews[j], id, kind, x, y, radius) {
      OrderFromRefused(m, 0, id, kind, x, y, radius);
    } else {
      var k :| 0 <= k < |m.crews| && Eligible(m.crews[k], id, kind) && !TooDear(m, m.crews[k], id, kind, x, y, radius);
      OrderFromGrants(m, 0, id, kind, x, y, radius, k);
    }
  }

  /** Ordering a suppression from crew `id`. The spent budget grows by
      exactly the granted action's cost and never past the total, so a
      manager within budget stays within budget; a refusal costs nothing and
      is worth nothing; only the crews carrying the id can change. */
  function OrderSuppression(m: Manager, id: int, kind: SuppressionType, x: int, y: int, radius: int): (r: Ordered)
    ensures |r.manager.crews| == |m.crews| && r.manager.zones == m.zones
    ensures r.manager.totalBudget == m.totalBudget && r.manager.nextCrewId == m.nextCrewId
    ensures forall i :: 0 <= i < |m.crews| && m.crews[i].id != id ==> r.manager.crews[i] == m.crews[i]
    ensures forall i :: 0 <= i < |m.crews| ==> Wellformed(m.crews[i]) ==> Wellformed(r.manager.crews[i])
    ensures Cost(r.outcome) >= 0.0
    ensures r.manager.spentBudget == m.spentBudget + Cost(r.outcome)
    ensures r.outcome.Granted? ==> r.manager.spentBudget <= m.totalBudget
    ensures m.spentBudget <= m.totalBudget ==> r.manager.spentBudget <= m.totalBudget
    ensures r.outcome.Refused? ==> Strength(r.outcome) == 0.0
    ensures r.outcome.Granted? ==> r.outcome.action.kind == kind
    ensures r.outcome.Granted? ==> exists i :: 0 <= i < |m.crews| && Eligible(m.crews[i], id, kind)
    ensures (forall i :: 0 <= i < |m.crews| ==> !Eligible(m.crews[i], id, kind)) ==> r == Ordered(m, Refused)
    ensures r.outcome.Refused? <==>
              forall j :: 0 <= j < |m.crews| && Eligible(m.crews[j], id, kind) ==> TooDear(m, m.crews[j], id, kind, x, y, radius)
    ensures r.outcome.Refused? ==>
              forall j :: 0 <= j < |m.crews| ==> r.manager.crews[j] == Passed(m.crews[j], id, kind, x, y, radius)
  {
    OrderRefusedIff(m, id, kind, x, y, radius);
    OrderFrom(m, 0, id, kind, x, y, radius)
  }

  /** The order goes to the first eligible crew when the budget affords
      its action: that crew deploys and pays, and no other crew changes. */
  lemma OrderGrantsFirstEligible(m: Manager, id: int, kind: SuppressionType, x: int, y: int, radius: int, k: int)
    requires 0 <= k < |m.crews|
    requires Eligible(m.crews[k], id, kind) && CanAfford(m, Dispatch(m.crews[k], kind, x, y, radius).action.cost)
    requires forall j :: 0 <= j < k ==> !Eligible(m.crews[j], id, kind)
    ensures var r := OrderSuppression(m, id, kind, x, y, radius);
            var d := Dispatch(m.crews[k], kind, x, y, radius);
            && r.outcome == Granted(d.action)
            && r.manager.spentBudget == m.spentBudget + d.action.cost
            && r.manager.crews == m.crews[k := d.crew]
  {
    OrderFromGranted(m, 0, id, kind, x, y, radius, k);
  }

  /** An order the budget refuses still drains the crew: a ground crew
      under a zero budget is refused a water drop yet its tank falls from
      500 to 350 and it tires by 0.1. */
  lemma RefusedOrderStillDrainsCrew()
    ensures var m := AddCrew(NewManager(0.0), "G", GroundCrew, 0, 0);
            var r := OrderSuppression(m, 1, Water, 5, 5, 2);
            r.outcome == Refused && r.manager.spentBudget == 0.0
            && r.manager.crews[0].water == 350.0 && r.manager.crews[0].fatigue == 0.1
  {
    var m := AddCrew(NewManager(0.0), "G", GroundCrew, 0, 0);
    assert Eligible(m.crews[0], 1, Water);
    var d := Dispatch(m.crews[0], Water, 5, 5, 2);
    assert d.action.cost == 500.0;
    assert d.crew.water == 350.0;
    var m1 := m.(crews := m.crews[0 := d.crew]);
    assert OrderFrom(m, 0, 1, Water, 5, 5, 2) == OrderFrom(m1, 1, 1, Water, 5, 5, 2);
  }

  /** The map letter of a crew type. */
  function CrewLetter(kind: CrewType): (ch: char)
    ensures ch != ' '
  {
    match kind
    case GroundCrew => 'G'
    case WaterTanker => 'W'
    case AirTanker => 'A'
    case Helicopter => 'H'
  }

  predicate StandsAt(c: Crew, x: int, y: int) {
    c.x == x && c.y == y
  }

  /** The map overlay at (x,y): the letter of the first crew in the roster
      standing there, or a blank when nobody is. */
  function CrewDisplayChar(crews: seq<Crew>, x: int, y: int): (ch: char)
    ensures ch == ' ' <==> forall i :: 0 <= i < |crews| ==> !StandsAt(crews[i], x, y)
    ensures ch != ' ' ==>
              exists i :: (0 <= i < |crews| && StandsAt(crews[i], x, y) && ch == CrewLetter(crews[i].kind)
                           && forall j :: 0 <= j < i ==> !StandsAt(crews[j], x, y))
    decreases |crews|
  {
    if crews == [] then ' '
    else if StandsAt(crews[0], x, y) then CrewLetter(crews[0].kind)
    else
      var ch := CrewDisplayChar(crews[1..], x, y);
      assert forall i :: 1 <= i < |crews| ==> crews[i] == crews[1..][i - 1];
      ch
  }

  /** A new zone starts with nobody evacuated and no order given. */
  function AddEvacuationZone(m: Manager, name: string, x: int, y: int, radius: int, population: int): (r: Manager)
    ensures r.zones == m.zones + [Zone(name, x, y, radius, population, 0, false, 0.0)]
    ensures r.crews == m.crews && r.totalBudget == m.totalBudget && r.spentBudget == m.spentBudget
  {
    m.(zones := m.zones + [Zone(name, x, y, radius, population, 0, false, 0.0)])
  }

  /** Ordering the evacuation of zone i flags that zone only; an index off
      the list is ignored. */
  function OrderEvacuation(m: Manager, i: int): (r: Manager)
    ensures !(0 <= i < |m.zones|) ==> r == m
    ensures r.crews == m.crews && r.totalBudget == m.totalBudget && r.spentBudget == m.spentBudget
    ensures |r.zones| == |m.zones|
    ensures forall j :: 0 <= j < |m.zones| && j != i ==> r.zones[j] == m.zones[j]
    ensures 0 <= i < |m.zones| ==> r.zones[i] == m.zones[i].(ordered := true)
  {
    if 0 <= i < |m.zones| then m.(zones := m.zones[i := m.zones[i].(ordered := true)]) else m
  }

  /** Integer division by 100, truncating toward zero as the source's
      integer division does. */
  function Percent(a: int): (q: int)
    ensures 0 <= a ==> 0 <= q * 100 <= a < q * 100 + 100
    ensures a < 0 ==> q <= 0
  {
    if 0 <= a then a / 100 else -((-a) / 100)
  }

  /** People moved per update: 1% of the population, at least one. */
  function EvacuationRate(population: int): (rate: int)
    ensures 1 <= rate
    ensures 100 <= population ==> rate * 100 <= population
  {
    var q := Percent(population);
    if q < 1 then 1 else q
  }

  predicate Evacuating(z: Zone) {
    z.ordered && z.evacuated < z.population
  }

  /** One evacuation update of a zone, with the sum computed exactly. */
  function UpdateZone(z: Zone): (r: Zone)
    ensures r == z.(evacuated := r.evacuated)
    ensures !Evacuating(z) ==> r == z
    ensures Evacuating(z) ==> z.evacuated < r.evacuated <= z.population
    ensures Evacuating(z) ==> r.evacuated == z.population || r.evacuated == z.evacuated + EvacuationRate(z.population)
  {
    if Evacuating(z) then
      var next := z.evacuated + EvacuationRate(z.population);
      z.(evacuated := if z.population < next then z.population else next)
    else z
  }

  /** The per-update evacuation pass: zones without an order stay as they
      are, counts never fall, and a count at or below the population stays
      there. */
  function UpdateEvacuations(zones: seq<Zone>): (r: seq<Zone>)
    ensures |r| == |zones|
    ensures forall i :: 0 <= i < |r| ==> r[i] == UpdateZone(zones[i])
    ensures forall i :: 0 <= i < |r| ==> !zones[i].ordered ==> r[i] == zones[i]
    ensures forall i :: 0 <= i < |r| ==> zones[i].evacuated <= r[i].evacuated
    ensures forall i :: 0 <= i < |r| ==> zones[i].evacuated <= zones[i].population ==> r[i].evacuated <= r[i].population
  {
    seq(|zones|, i requires 0 <= i < |zones| => UpdateZone(zones[i]))
  }

  function UpdateZoneN(z: Zone, n: nat): Zone
    decreases n
  {
    if n == 0 then z else UpdateZoneN(UpdateZone(z), n - 1)
  }

  /** An ordered zone is fully evacuated after at most
      population - evacuated updates, and stays so. */
  lemma {:induction false} EvacuationCompletes(z: Zone, n: nat)
    requires z.ordered && z.evacuated <= z.population
    requires z.population - z.evacuated <= n
    ensures UpdateZoneN(z, n).evacuated == z.population
    decreases n
  {
    if n > 0 {
      EvacuationCompletes(UpdateZone(z), n - 1);
    }
  }

  /** While the population is not reached, each update moves exactly the
      rate. */
  lemma {:induction false} EvacuatedAfter(z: Zone, n: nat)
    requires z.ordered
    requires z.evacuated + n * EvacuationRate(z.population) <= z.population
    ensures UpdateZoneN(z, n).evacuated == z.evacuated + n * EvacuationRate(z.population)
    ensures UpdateZoneN(z, n) == z.(evacuated := UpdateZoneN(z, n).evacuated)
    decreases n
  {
    if n > 0 {
      var rate := EvacuationRate(z.population);
      assert UpdateZone(z).evacuated == z.evacuated + rate;
      assert UpdateZone(z).evacuated + (n - 1) * rate == z.evacuated + n * rate;
      EvacuatedAfter(UpdateZone(z), n - 1);
    }
  }

  /** Two's-complement wrap-around to a 32-bit signed integer. */
  function Wrap32(v: int): (w: int)
    ensures -0x8000_0000 <= w < 0x8000_0000
    ensures -0x8000_0000 <= v < 0x8000_0000 ==> w == v
  {
    (v + 0x8000_0000) % 0x1_0000_0000 - 0x8000_0000
  }

  /** The zone update as the source computes it, with the sum
      evacuated + rate taken in 32-bit signed arithmetic. */
  function UpdateZone32(z: Zone): (r: Zone)
    ensures r == z.(evacuated := r.evacuated)
    ensures !Evacuating(z) ==> r == z
  {
    if Evacuating(z) then
      var next := Wrap32(z.evacuated + EvacuationRate(z.population));
      z.(evacuated := if z.population < next then z.population else next)
    else z
  }

  function UpdateZone32N(z: Zone, n: nat): Zone
    decreases n
  {
    if n == 0 then z else UpdateZone32N(UpdateZone32(z), n - 1)
  }

  /** Where the sum fits in 32 bits the two updates agree. */
  lemma UpdateZone32AgreesWithoutOverflow(z: Zone)
    requires z.evacuated + EvacuationRate(z.population) < 0x8000_0000
    requires -0x8000_0000 <= z.evacuated
    ensures UpdateZone32(z) == UpdateZone(z)
  {
  }

  lemma {:induction false} Evacuated32After(z: Zone, n: nat)
    requires z.ordered && 0 <= z.evacuated
    requires z.evacuated + n * EvacuationRate(z.population) <= z.population < 0x8000_0000
    ensures UpdateZone32N(z, n).evacuated == z.evacuated + n * EvacuationRate(z.population)
    ensures UpdateZone32N(z, n) == z.(evacuated := UpdateZone32N(z, n).evacuated)
    decreases n
  {
    if n > 0 {
      var rate := EvacuationRate(z.population);
      MultipleStep(n, rate);
      UpdateZone32AgreesWithoutOverflow(z);
      Evacuated32After(UpdateZone32(z), n - 1);
    }
  }

  /** n steps of k are one step of k after n - 1 of them. */
  lemma MultipleStep(n: nat, k: int)
    requires n > 0 && k >= 0
    ensures (n - 1) * k + k == n * k && k <= n * k
  {
  }

  /** The largest population a zone can hold in the source's 32-bit field. */
  const MaxPopulation: int := 0x7FFF_FFFF

  /** With the largest 32-bit population, a freshly ordered zone reaches
      2147483600 evacuees after 100 updates; the 101st update overflows the
      sum and the count as computed turns negative, where the exact update
      completes the evacuation. */
  lemma EvacuationCountOverflows()
    ensures var z := Zone("", 0, 0, 0, MaxPopulation, 0, true, 0.0);
            UpdateZone32N(z, 100).evacuated == 2147483600
            && UpdateZone32(UpdateZone32N(z, 100)).evacuated < 0
            && UpdateZone(UpdateZoneN(z, 100)).evacuated == MaxPopulation
  {
    var z := Zone("", 0, 0, 0, MaxPopulation, 0, true, 0.0);
    assert EvacuationRate(MaxPopulation) == 21474836;
    Evacuated32After(z, 100);
    EvacuatedAfter(z, 100);
    var w := UpdateZone32N(z, 100);
    assert w.population == MaxPopulation && w.ordered;
    assert Wrap32(2147483600 + 21474836) == -2126008860;
  }
}
