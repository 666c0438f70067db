/** The suppression state held for every grid position: water and retardant
    saturation that decays after a deposit's duration, and a permanent
    firebreak flag. */
module Suppression {

  datatype Effect = Effect(water: real, retardant: real, remaining: real, firebreak: bool)

  /** The two deposit agents a drop can carry. */
  datatype Agent = WaterAgent | RetardantAgent

  const NoEffect: Effect := Effect(0.0, 0.0, 0.0, false)

  predicate NonNegativeLevels(e: Effect) {
    e.water >= 0.0 && e.retardant >= 0.0
  }

  /** Combined suppression strength: 0.8 per unit of water plus 0.9 per unit
      of retardant, capped at 1. */
  function Modifier(e: Effect): (m: real)
    ensures m <= 1.0
    ensures NonNegativeLevels(e) ==> 0.0 <= m
    ensures e.water == 0.0 && e.retardant == 0.0 ==> m == 0.0
    ensures m == 1.0 <==> e.water * 0.8 + e.retardant * 0.9 >= 1.0
  {
    var s := e.water * 0.8 + e.retardant * 0.9;
    if s < 1.0 then s else 1.0
  }

  /** Whether anything is deposited or built at the position. */
  predicate HasEffect(e: Effect) {
    e.water > 0.0 || e.retardant > 0.0 || e.firebreak
  }

  /** A position without any effect never dampens spread, and a positive
      modifier always comes with an effect. */
  lemma ModifierNeedsEffect(e: Effect)
    ensures !HasEffect(e) ==> Modifier(e) <= 0.0
    ensures Modifier(e) > 0.0 ==> HasEffect(e)
  {
  }

  function Max(a: real, b: real): (m: real)
    ensures m >= a && m >= b && (m == a || m == b)
  {
    if a < b then b else a
  }

  /** One deposit at one position: the agent's level and the remaining time
      are each replaced by the larger of old and new, never summed. */
  function Merge(e: Effect, agent: Agent, amount: real, duration: real): (r: Effect)
    ensures r.remaining >= e.remaining && r.remaining >= duration
    ensures r.remaining == e.remaining || r.remaining == duration
    ensures r.firebreak == e.firebreak
    ensures agent == WaterAgent ==> r.retardant == e.retardant && r.water >= e.water && r.water >= amount
    ensures agent == WaterAgent ==> r.water == e.water || r.water == amount
    ensures agent == RetardantAgent ==> r.water == e.water && r.retardant >= e.retardant && r.retardant >= amount
    ensures agent == RetardantAgent ==> r.retardant == e.retardant || r.retardant == amount
  {
    match agent
    case WaterAgent => e.(water := Max(e.water, amount), remaining := Max(e.remaining, duration))
    case RetardantAgent => e.(retardant := Max(e.retardant, amount), remaining := Max(e.remaining, duration))
  }

  /** Re-applying a deposit refreshes and does not stack: merging the same
      deposit twice is the same as merging it once. */
  lemma MergeIdempotent(e: Effect, agent: Agent, amount: real, duration: real)
    ensures Merge(Merge(e, agent, amount, duration), agent, amount, duration) == Merge(e, agent, amount, duration)
  {
  }

  /** Merging a larger deposit never gives a smaller level than merging a
      smaller one. */
  lemma MergeMonotone(e: Effect, agent: Agent, a1: real, a2: real, duration: real)
    requires a1 <= a2
    ensures agent == WaterAgent ==> Merge(e, agent, a1, duration).water <= Merge(e, agent, a2, duration).water
    ensures agent == RetardantAgent ==> Merge(e, agent, a1, duration).retardant <= Merge(e, agent, a2, duration).retardant
  {
  }

  /** Time decay over dt seconds: a running deposit counts down, and the
      moment its time runs out both levels are cleared. The firebreak flag is
      never touched. */
  function Decay(e: Effect, dt: real): (r: Effect)
    ensures r.firebreak == e.firebreak
    ensures e.remaining <= 0.0 ==> r == e
    ensures e.remaining > 0.0 ==> r.remaining == e.remaining - dt
    ensures e.remaining > 0.0 && r.remaining <= 0.0 ==> r.water == 0.0 && r.retardant == 0.0
    ensures e.remaining > 0.0 && r.remaining > 0.0 ==> r.water == e.water && r.retardant == e.retardant
  {
    if e.remaining > 0.0 then
      var t := e.remaining - dt;
      if t <= 0.0 then e.(remaining := t, water := 0.0, retardant := 0.0)
      else e.(remaining := t)
    else e
  }

  /** n successive decays by dt. */
  function DecayN(e: Effect, dt: real, n: nat): Effect
    decreases n
  {
    if n == 0 then e else Decay(DecayN(e, dt, n - 1), dt)
  }

  /** Decay over many ticks: once the remaining time has been driven to zero
      or below, both levels are zero while the firebreak flag is as it was;
      and a deposit that decays with positive dt runs out after
      remaining/dt ticks at the latest. */
  lemma {:induction false} DecayClears(e: Effect, dt: real, n: nat)
    requires e.remaining > 0.0 && dt > 0.0
    requires e.remaining <= (n as real) * dt
    ensures DecayN(e, dt, n).remaining <= 0.0
    ensures DecayN(e, dt, n).water == 0.0 && DecayN(e, dt, n).retardant == 0.0
    ensures DecayN(e, dt, n).firebreak == e.firebreak
  {
    var k: nat := 1;
    while (k as real) * dt < e.remaining
      invariant 1 <= k <= n
      invariant ((k - 1) as real) * dt < e.remaining
      invariant DecayN(e, dt, k - 1).remaining == e.remaining - ((k - 1) as real) * dt
      invariant DecayN(e, dt, k - 1).firebreak == e.firebreak
      decreases n - k
    {
      k := k + 1;
    }
    assert DecayN(e, dt, k).remaining <= 0.0;
    DecayStaysCleared(e, dt, k, n);
  }

  /** Once cleared, an effect stays cleared under further decay. */
  lemma {:induction false} DecayStaysCleared(e: Effect, dt: real, k: nat, n: nat)
    requires k <= n
    requires DecayN(e, dt, k).remaining <= 0.0
    requires DecayN(e, dt, k).water == 0.0 && DecayN(e, dt, k).retardant == 0.0
    ensures DecayN(e, dt, n) == DecayN(e, dt, k)
    decreases n - k
  {
    if n > k {
      DecayStaysCleared(e, dt, k, n - 1);
    }
  }
}
