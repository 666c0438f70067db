/** The integer line walk both firebreak builders use: starting at (x1, y1)
    it moves one axis at a time by one cell towards (x2, y2), choosing the
    axis by the sign of an error term, until it reaches (x2, y2). */
module Bresenham {

  type Pos = (int, int)

  function Abs(a: int): nat {
    if a < 0 then -a else a
  }

  /** The step direction along one axis: +1 towards a larger target, and -1
      otherwise (also when the axis is already at its target). */
  function Inc(from: int, to: int): int {
    if from < to then 1 else -1
  }

  /** The walk's error term after i steps along x and j steps along y, for
      the absolute extents dx and dy. The walk starts with dx - dy, subtracts
      2*dy on every x-step and adds 2*dx on every y-step. */
  function Error(dx: nat, dy: nat, i: int, j: int): int {
    dx * (1 + 2 * j) - dy * (1 + 2 * i)
  }

  lemma ErrorAfterXStep(dx: nat, dy: nat, i: int, j: int)
    ensures Error(dx, dy, i + 1, j) == Error(dx, dy, i, j) - 2 * dy
  {
  }

  lemma ErrorAfterYStep(dx: nat, dy: nat, i: int, j: int)
    ensures Error(dx, dy, i, j + 1) == Error(dx, dy, i, j) + 2 * dx
  {
  }

  lemma MulMonotone(a: nat, b: int, c: int)
    requires b <= c
    ensures a * b <= a * c
  {
  }

  /** Once all x-steps are taken the error term is negative, so the walk
      only steps along y. */
  lemma XDoneForcesYStep(dx: nat, dy: nat, j: nat)
    requires j < dy
    ensures Error(dx, dy, dx, j) < 0
  {
    MulMonotone(dx, j, dy - 1);
    assert Error(dx, dy, dx, j) == dx - dy + 2 * (dx * j) - 2 * (dy * dx);
    assert dx * (dy - 1) == dx * dy - dx;
  }

  /** Once all y-steps are taken the error term is positive, so the walk
      only steps along x. */
  lemma YDoneForcesXStep(dx: nat, dy: nat, i: nat)
    requires i < dx
    ensures Error(dx, dy, i, dy) > 0
  {
    MulMonotone(dy, i, dx - 1);
    assert Error(dx, dy, i, dy) == dx - dy + 2 * (dx * dy) - 2 * (dy * i);
    assert dy * (dx - 1) == dy * dx - dy;
  }

  /** The position after i x-steps and j y-steps. */
  function PosAt(x1: int, y1: int, x2: int, y2: int, i: int, j: int): Pos {
    (if x1 < x2 then x1 + i else x1 - i, if y1 < y2 then y1 + j else y1 - j)
  }

  /** Whether the walk in state (i, j) steps along x next. */
  predicate StepsX(x1: int, y1: int, x2: int, y2: int, i: int, j: int) {
    Error(Abs(x2 - x1), Abs(y2 - y1), i, j) > 0
  }

  /** The positions the walk visits from state (i, j) on, in order. */
  function Walk(x1: int, y1: int, x2: int, y2: int, i: nat, j: nat): seq<Pos>
    requires i <= Abs(x2 - x1) && j <= Abs(y2 - y1)
    decreases Abs(x2 - x1) - i + Abs(y2 - y1) - j
  {
    var dx, dy := Abs(x2 - x1), Abs(y2 - y1);
    var p := PosAt(x1, y1, x2, y2, i, j);
    if i == dx && j == dy then [p]
    else if StepsX(x1, y1, x2, y2, i, j) then
      (if i == dx then XDoneForcesYStep(dx, dy, j); [p] else [p] + Walk(x1, y1, x2, y2, i + 1, j))
    else
      (if j == dy then YDoneForcesXStep(dx, dy, i); [p] else [p] + Walk(x1, y1, x2, y2, i, j + 1))
  }

  /** The full walk from (x1, y1) to (x2, y2). */
  function Line(x1: int, y1: int, x2: int, y2: int): seq<Pos> {
    Walk(x1, y1, x2, y2, 0, 0)
  }

  lemma PosAtEnd(x1: int, y1: int, x2: int, y2: int)
    ensures PosAt(x1, y1, x2, y2, Abs(x2 - x1), Abs(y2 - y1)) == (x2, y2)
  {
  }

  /** The Manhattan distance still to go. */
  function Remaining(p: Pos, x2: int, y2: int): nat {
    Abs(x2 - p.0) + Abs(y2 - p.1)
  }

  /** One step of the walk: exactly one coordinate changes, by one, and it
      gets one closer to the target. */
  predicate StepToward(p: Pos, q: Pos, x2: int, y2: int) {
    || (q.1 == p.1 && Abs(q.0 - p.0) == 1 && Abs(x2 - q.0) + 1 == Abs(x2 - p.0))
    || (q.0 == p.0 && Abs(q.1 - p.1) == 1 && Abs(y2 - q.1) + 1 == Abs(y2 - p.1))
  }

  lemma PosAtRemaining(x1: int, y1: int, x2: int, y2: int, i: nat, j: nat)
    requires i <= Abs(x2 - x1) && j <= Abs(y2 - y1)
    ensures Remaining(PosAt(x1, y1, x2, y2, i, j), x2, y2) == Abs(x2 - x1) - i + Abs(y2 - y1) - j
  {
  }

  /** A path that ends at the target, whose every position is exactly its
      index fewer steps from the target than the first, and whose every step
      is a unit step towards the target. */
  predicate Shaped(w: seq<Pos>, x2: int, y2: int) {
    && |w| >= 1
    && w[|w| - 1] == (x2, y2)
    && (forall k :: 0 <= k < |w| ==> Remaining(w[k], x2, y2) == |w| - 1 - k)
    && (forall k :: 0 <= k < |w| - 1 ==> StepToward(w[k], w[k + 1], x2, y2))
  }

  lemma ConsShaped(p: Pos, rest: seq<Pos>, x2: int, y2: int)
    requires Shaped(rest, x2, y2)
    requires StepToward(p, rest[0], x2, y2)
    ensures Shaped([p] + rest, x2, y2)
  {
    var w := [p] + rest;
    assert forall k :: 1 <= k < |w| ==> w[k] == rest[k - 1];
    assert Remaining(p, x2, y2) == Remaining(rest[0], x2, y2) + 1;
  }

  /** The shape of the walk from state (i, j): one position per remaining
      step plus one, starting at the current position. */
  lemma {:induction false} WalkShape(x1: int, y1: int, x2: int, y2: int, i: nat, j: nat)
    requires i <= Abs(x2 - x1) && j <= Abs(y2 - y1)
    ensures |Walk(x1, y1, x2, y2, i, j)| == Abs(x2 - x1) - i + Abs(y2 - y1) - j + 1
    ensures Walk(x1, y1, x2, y2, i, j)[0] == PosAt(x1, y1, x2, y2, i, j)
    ensures Shaped(Walk(x1, y1, x2, y2, i, j), x2, y2)
    decreases Abs(x2 - x1) - i + Abs(y2 - y1) - j
  {
    var dx, dy := Abs(x2 - x1), Abs(y2 - y1);
    var p := PosAt(x1, y1, x2, y2, i, j);
    PosAtRemaining(x1, y1, x2, y2, i, j);
    if i == dx && j == dy {
      PosAtEnd(x1, y1, x2, y2);
    } else {
      WalkUnfold(x1, y1, x2, y2, i, j);
      var sx := StepsX(x1, y1, x2, y2, i, j);
      var i': nat, j': nat := if sx then i + 1 else i, if sx then j else j + 1;
      WalkShape(x1, y1, x2, y2, i', j');
      PosAtRemaining(x1, y1, x2, y2, i', j');
      ConsShaped(p, Walk(x1, y1, x2, y2, i', j'), x2, y2);
    }
  }

  /** The whole line takes exactly |x2 - x1| + |y2 - y1| unit steps towards
      the target, visits both endpoints and never visits a position twice. */
  lemma LineShape(x1: int, y1: int, x2: int, y2: int)
    ensures var l := Line(x1, y1, x2, y2);
      && |l| == Abs(x2 - x1) + Abs(y2 - y1) + 1
      && l[0] == (x1, y1)
      && l[|l| - 1] == (x2, y2)
      && (forall k :: 0 <= k < |l| - 1 ==> StepToward(l[k], l[k + 1], x2, y2))
      && (forall k, m :: 0 <= k < m < |l| ==> l[k] != l[m])
  {
    WalkShape(x1, y1, x2, y2, 0, 0);
    var l := Line(x1, y1, x2, y2);
    assert Shaped(l, x2, y2);
    forall k, m | 0 <= k < m < |l|
      ensures l[k] != l[m]
    {
      assert Remaining(l[k], x2, y2) != Remaining(l[m], x2, y2);
    }
  }

  /** Unfolding one step of the walk, for the loop that performs it. */
  lemma WalkUnfold(x1: int, y1: int, x2: int, y2: int, i: nat, j: nat)
    requires i <= Abs(x2 - x1) && j <= Abs(y2 - y1)
    requires !(i == Abs(x2 - x1) && j == Abs(y2 - y1))
    ensures StepsX(x1, y1, x2, y2, i, j) ==>
      (i < Abs(x2 - x1) &&
       Walk(x1, y1, x2, y2, i, j) == [PosAt(x1, y1, x2, y2, i, j)] + Walk(x1, y1, x2, y2, i + 1, j))
    ensures !StepsX(x1, y1, x2, y2, i, j) ==>
      (j < Abs(y2 - y1) &&
       Walk(x1, y1, x2, y2, i, j) == [PosAt(x1, y1, x2, y2, i, j)] + Walk(x1, y1, x2, y2, i, j + 1))
  {
    var dx, dy := Abs(x2 - x1), Abs(y2 - y1);
    if StepsX(x1, y1, x2, y2, i, j) && i == dx {
      XDoneForcesYStep(dx, dy, j);
    }
    if !StepsX(x1, y1, x2, y2, i, j) && j == dy {
      YDoneForcesXStep(dx, dy, i);
    }
  }

  /** Moving one position of the walk from its remaining part to the part
      already visited. */
  lemma WalkAdvance(x1: int, y1: int, x2: int, y2: int, i: nat, j: nat, visited: seq<Pos>)
    requires i <= Abs(x2 - x1) && j <= Abs(y2 - y1)
    requires !(i == Abs(x2 - x1) && j == Abs(y2 - y1))
    ensures StepsX(x1, y1, x2, y2, i, j) ==>
      (i < Abs(x2 - x1) &&
       visited + Walk(x1, y1, x2, y2, i, j) == (visited + [PosAt(x1, y1, x2, y2, i, j)]) + Walk(x1, y1, x2, y2, i + 1, j))
    ensures !StepsX(x1, y1, x2, y2, i, j) ==>
      (j < Abs(y2 - y1) &&
       visited + Walk(x1, y1, x2, y2, i, j) == (visited + [PosAt(x1, y1, x2, y2, i, j)]) + Walk(x1, y1, x2, y2, i, j + 1))
  {
    WalkUnfold(x1, y1, x2, y2, i, j);
  }

  /** The walk's last position is the target, and nothing follows it. */
  lemma WalkAtEnd(x1: int, y1: int, x2: int, y2: int)
    ensures Walk(x1, y1, x2, y2, Abs(x2 - x1), Abs(y2 - y1)) == [(x2, y2)]
  {
    PosAtEnd(x1, y1, x2, y2);
  }

  /** The position reached is the target exactly when all steps are taken. */
  lemma PosAtIsEnd(x1: int, y1: int, x2: int, y2: int, i: nat, j: nat)
    requires i <= Abs(x2 - x1) && j <= Abs(y2 - y1)
    ensures PosAt(x1, y1, x2, y2, i, j) == (x2, y2) <==> i == Abs(x2 - x1) && j == Abs(y2 - y1)
  {
  }

  /** Stepping along an axis moves the position by that axis's increment. */
  lemma PosAtStep(x1: int, y1: int, x2: int, y2: int, i: int, j: int)
    ensures PosAt(x1, y1, x2, y2, i + 1, j) == (PosAt(x1, y1, x2, y2, i, j).0 + Inc(x1, x2), PosAt(x1, y1, x2, y2, i, j).1)
    ensures PosAt(x1, y1, x2, y2, i, j + 1) == (PosAt(x1, y1, x2, y2, i, j).0, PosAt(x1, y1, x2, y2, i, j).1 + Inc(y1, y2))
  {
  }
}
