/** The two-phase grid update. Phase 1 reads the grid only: every burning
    cell offers each burnable neighbour one random draw, and a draw below
    rate * dt marks the neighbour. Phase 2 then visits every position once:
    it ignites the marked cell, advances it by dt, decays its deposit, and
    lets strong suppression put out a cell still burning with a second
    random draw. The random samples are explicit inputs consumed in scan
    order, one sequence per phase, since each phase has its own generator. */
module Spread {
  import opened Cells
  import opened Suppression
  import opened Bresenham
  import opened Lattice

  /** The cosine between a spread direction (dx, dy) and the wind heading. */
  type WindField = (int, int) -> real

  /** What phase 1 reads of the grid: its size, the burning positions and
      the burnable positions, all taken before the tick. */
  datatype Snapshot = Snapshot(width: nat, height: nat, burning: set<Pos>, burnable: set<Pos>)

  function Snap(g: Grid): (s: Snapshot)
    requires Valid(g)
    ensures s.width == g.width && s.height == g.height
    ensures forall p :: p in s.burning <==> IsValidPosition(g, p.0, p.1) && At(g, p.0, p.1).state == Burning
    ensures forall p :: p in s.burnable <==> IsValidPosition(g, p.0, p.1) && CanBurn(At(g, p.0, p.1))
  {
    Snapshot(g.width, g.height,
      set x, y | 0 <= x < g.width && 0 <= y < g.height && g.cells[y][x].state == Burning :: (x, y),
      set x, y | 0 <= x < g.width && 0 <= y < g.height && CanBurn(g.cells[y][x]) :: (x, y))
  }

  /** One phase-1 draw: from the burning src to the burnable neighbour dst. */
  datatype Edge = Edge(src: Pos, dst: Pos)

  /** An edge phase 1 draws for: a burning in-bounds source and a burnable
      target adjacent to it. */
  predicate EdgeOf(s: Snapshot, e: Edge) {
    && 0 <= e.src.0 < s.width && 0 <= e.src.1 < s.height
    && e.src in s.burning && e.dst in s.burnable && Adjacent(e.src, e.dst)
  }

  /** The edges from (x, y) to the burnable positions of ns, in order: the
      inner loop of phase 1 over a neighbour list. */
  function EdgesAlong(s: Snapshot, x: int, y: int, ns: seq<Pos>): (es: seq<Edge>)
    ensures |es| <= |ns|
    decreases |ns|
  {
    if |ns| == 0 then []
    else
      var p := ns[|ns| - 1];
      var rest := EdgesAlong(s, x, y, ns[..|ns| - 1]);
      if p in s.burnable then rest + [Edge((x, y), p)] else rest
  }

  /** The same edges described by the offsets directly: the burnable
      positions (x, y) + o, in offset order. */
  function OffsetEdges(s: Snapshot, x: int, y: int, offs: seq<(int, int)>): seq<Edge>
    decreases |offs|
  {
    if |offs| == 0 then []
    else
      var p := (x + offs[0].0, y + offs[0].1);
      (if p in s.burnable then [Edge((x, y), p)] else []) + OffsetEdges(s, x, y, offs[1..])
  }

  lemma {:induction false} EdgesAlongConcat(s: Snapshot, x: int, y: int, a: seq<Pos>, b: seq<Pos>)
    ensures EdgesAlong(s, x, y, a + b) == EdgesAlong(s, x, y, a) + EdgesAlong(s, x, y, b)
    decreases |b|
  {
    if |b| == 0 {
      assert a + b == a;
    } else {
      var k := |b| - 1;
      assert (a + b)[..|a + b| - 1] == a + b[..k];
      EdgesAlongConcat(s, x, y, a, b[..k]);
    }
  }

  /** Walking the in-bounds neighbour list gives the same edges as walking
      the offsets, when every burnable position is in bounds. */
  lemma {:induction false} NeighborEdges(g: Grid, s: Snapshot, x: int, y: int, offs: seq<(int, int)>)
    requires forall p :: p in s.burnable ==> IsValidPosition(g, p.0, p.1)
    ensures EdgesAlong(s, x, y, NeighborsAmong(g, x, y, offs)) == OffsetEdges(s, x, y, offs)
    decreases |offs|
  {
    if |offs| > 0 {
      var p := (x + offs[0].0, y + offs[0].1);
      var rest := NeighborsAmong(g, x, y, offs[1..]);
      NeighborEdges(g, s, x, y, offs[1..]);
      if IsValidPosition(g, p.0, p.1) {
        assert NeighborsAmong(g, x, y, offs) == [p] + rest;
        EdgesAlongConcat(s, x, y, [p], rest);
        assert EdgesAlong(s, x, y, [p]) == (if p in s.burnable then [Edge((x, y), p)] else []);
      }
    }
  }

  lemma {:induction false} OffsetEdgesMembership(s: Snapshot, x: int, y: int, offs: seq<(int, int)>, e: Edge)
    ensures e in OffsetEdges(s, x, y, offs) <==>
      e.src == (x, y) && (e.dst.0 - x, e.dst.1 - y) in offs && e.dst in s.burnable
    decreases |offs|
  {
    if |offs| > 0 {
      OffsetEdgesMembership(s, x, y, offs[1..], e);
      assert (e.dst.0 - x, e.dst.1 - y) in offs <==>
        (e.dst.0 - x, e.dst.1 - y) == offs[0] || (e.dst.0 - x, e.dst.1 - y) in offs[1..];
    }
  }

  /** The edges phase 1 draws for at (x, y): none unless it is burning. */
  function CellEdges(s: Snapshot, x: int, y: int): seq<Edge> {
    if (x, y) in s.burning then OffsetEdges(s, x, y, Offsets) else []
  }

  /** The per-position edge lists of a snapshot, as the scan consults them. */
  type EdgeTable = (int, int) -> seq<Edge>

  function EdgeTableOf(s: Snapshot): EdgeTable {
    (x, y) => CellEdges(s, x, y)
  }

  /** The edges of the first n positions of row y. */
  function RowEdges(cell: EdgeTable, y: int, n: nat): seq<Edge>
    decreases n
  {
    if n == 0 then [] else RowEdges(cell, y, n - 1) + cell(n - 1, y)
  }

  /** The edges of the first m rows of the given width. */
  function ScanEdges(cell: EdgeTable, width: nat, m: nat): seq<Edge>
    decreases m
  {
    if m == 0 then [] else ScanEdges(cell, width, m - 1) + RowEdges(cell, m - 1, width)
  }

  /** Every edge of phase 1, in the order the scan draws for them. */
  function AllEdges(s: Snapshot): seq<Edge> {
    ScanEdges(EdgeTableOf(s), s.width, s.height)
  }

  /** A cell offers exactly the well-formed edges leaving it. */
  lemma CellEdgesMembership(s: Snapshot, x: int, y: int, e: Edge)
    ensures e in CellEdges(s, x, y) <==> e.src == (x, y) && e.src in s.burning && e.dst in s.burnable && Adjacent(e.src, e.dst)
  {
    OffsetEdgesMembership(s, x, y, Offsets, e);
    OffsetsMembership(x, y, e.dst);
  }

  lemma {:induction false} RowEdgesMembership(cell: EdgeTable, y: int, n: nat, e: Edge)
    ensures e in RowEdges(cell, y, n) <==> exists x :: 0 <= x < n && e in cell(x, y)
    decreases n
  {
    if n > 0 {
      RowEdgesMembership(cell, y, n - 1, e);
      if e in cell(n - 1, y) {
        assert 0 <= n - 1 < n && e in cell(n - 1, y);
      }
    }
  }

  lemma {:induction false} ScanEdgesMembership(cell: EdgeTable, width: nat, m: nat, e: Edge)
    ensures e in ScanEdges(cell, width, m) <==> exists y, x :: 0 <= y < m && 0 <= x < width && e in cell(x, y)
  {
    ScanEdgesSound(cell, width, m, e);
    if exists y, x :: 0 <= y < m && 0 <= x < width && e in cell(x, y) {
      var y, x :| 0 <= y < m && 0 <= x < width && e in cell(x, y);
      ScanEdgesComplete(cell, width, m, e, x, y);
    }
  }

  lemma {:induction false} ScanEdgesSound(cell: EdgeTable, width: nat, m: nat, e: Edge)
    ensures e in ScanEdges(cell, width, m) ==> exists y, x :: 0 <= y < m && 0 <= x < width && e in cell(x, y)
    decreases m
  {
    if m > 0 && e in ScanEdges(cell, width, m) {
      if e in ScanEdges(cell, width, m - 1) {
        ScanEdgesSound(cell, width, m - 1, e);
        var y, x :| 0 <= y < m - 1 && 0 <= x < width && e in cell(x, y);
        assert 0 <= y < m && 0 <= x < width && e in cell(x, y);
      } else {
        RowEdgesMembership(cell, m - 1, width, e);
        var x :| 0 <= x < width && e in cell(x, m - 1);
        assert 0 <= m - 1 < m && 0 <= x < width && e in cell(x, m - 1);
      }
    }
  }

  lemma {:induction false} ScanEdgesComplete(cell: EdgeTable, width: nat, m: nat, e: Edge, x: int, y: int)
    requires 0 <= y < m && 0 <= x < width && e in cell(x, y)
    ensures e in ScanEdges(cell, width, m)
    decreases m
  {
    if y < m - 1 {
      ScanEdgesComplete(cell, width, m - 1, e, x, y);
    } else {
      RowEdgesMembership(cell, m - 1, width, e);
    }
  }

  /** Phase 1 draws for exactly the well-formed edges: every burning cell
      with every burnable neighbour, and nothing else. */
  lemma AllEdgesAreTheEdges(s: Snapshot, e: Edge)
    ensures e in AllEdges(s) <==> EdgeOf(s, e)
  {
    AllEdgesSound(s, e);
    AllEdgesComplete(s, e);
  }

  lemma AllEdgesSound(s: Snapshot, e: Edge)
    ensures e in AllEdges(s) ==> EdgeOf(s, e)
  {
    if e in AllEdges(s) {
      var cell := EdgeTableOf(s);
      ScanEdgesMembership(cell, s.width, s.height, e);
      var y, x :| 0 <= y < s.height && 0 <= x < s.width && e in cell(x, y);
      CellEdgesMembership(s, x, y, e);
    }
  }

  lemma AllEdgesComplete(s: Snapshot, e: Edge)
    ensures EdgeOf(s, e) ==> e in AllEdges(s)
  {
    if EdgeOf(s, e) {
      var cell := EdgeTableOf(s);
      CellEdgesMembership(s, e.src.0, e.src.1, e);
      assert e in cell(e.src.0, e.src.1);
      ScanEdgesMembership(cell, s.width, s.height, e);
    }
  }

  /** On a grid snapshot the edges are the adjacent pairs of a burning and a
      burnable cell. */
  lemma GridEdges(g: Grid, e: Edge)
    requires Valid(g)
    ensures e in AllEdges(Snap(g)) <==>
      && IsValidPosition(g, e.src.0, e.src.1) && IsValidPosition(g, e.dst.0, e.dst.1)
      && Adjacent(e.src, e.dst)
      && At(g, e.src.0, e.src.1).state == Burning && CanBurn(At(g, e.dst.0, e.dst.1))
  {
    AllEdgesAreTheEdges(Snap(g), e);
  }

  lemma {:induction false} OffsetEdgesBound(s: Snapshot, x: int, y: int, offs: seq<(int, int)>)
    ensures |OffsetEdges(s, x, y, offs)| <= |offs|
    decreases |offs|
  {
    if |offs| > 0 {
      OffsetEdgesBound(s, x, y, offs[1..]);
    }
  }

  lemma {:induction false} RowEdgesBound(cell: EdgeTable, y: int, n: nat, k: nat)
    requires forall x :: |cell(x, y)| <= k
    ensures |RowEdges(cell, y, n)| <= n * k
    decreases n
  {
    if n > 0 {
      RowEdgesBound(cell, y, n - 1, k);
      assert |cell(n - 1, y)| <= k;
      assert (n - 1) * k + k == n * k;
    }
  }

  lemma {:induction false} ScanEdgesBound(cell: EdgeTable, width: nat, m: nat, k: nat)
    requires forall x, y :: |cell(x, y)| <= k
    ensures |ScanEdges(cell, width, m)| <= m * (width * k)
    decreases m
  {
    if m > 0 {
      ScanEdgesBound(cell, width, m - 1, k);
      RowEdgesBound(cell, m - 1, width, k);
      assert (m - 1) * (width * k) + width * k == m * (width * k);
    }
  }

  /** The most draws phase 1 can ask for: one per neighbour offset of every
      cell, reached when every cell burns beside burnable neighbours. */
  function DrawBound(g: Grid): nat {
    g.height * (g.width * |Offsets|)
  }

  /** Phase 1 never draws more than DrawBound, so a stream of that length
      serves any tick of the grid. */
  lemma AllEdgesWithinBound(g: Grid)
    requires Valid(g)
    ensures |AllEdges(Snap(g))| <= DrawBound(g)
  {
    var s := Snap(g);
    var cell := EdgeTableOf(s);
    forall x, y
      ensures |cell(x, y)| <= |Offsets|
    {
      OffsetEdgesBound(s, x, y, Offsets);
    }
    ScanEdgesBound(cell, s.width, s.height, |Offsets|);
  }

  /** The spread rate along an edge; zero for a pair that is not an in-bounds
      adjacent pair of a valid grid. */
  function Rate(g: Grid, wind: WindField, e: Edge): (p: real)
    ensures 0.0 <= p <= 1.0
  {
    var (a, b) := (e.src, e.dst);
    if Valid(g) && IsValidPosition(g, a.0, a.1) && IsValidPosition(g, b.0, b.1) && Adjacent(a, b) then
      SpreadProbability(g, a.0, a.1, b.0, b.1, wind(b.0 - a.0, b.1 - a.1))
    else 0.0
  }

  /** The rate of every edge under one grid and wind field. */
  function RateOf(g: Grid, wind: WindField): Edge -> real {
    e => Rate(g, wind, e)
  }

  /** The targets marked by the edges: edges[k] consumes draws[k] and marks
      its target when the draw falls below rate * dt. */
  function Marks(edges: seq<Edge>, rate: Edge -> real, draws: seq<real>, dt: real): set<Pos>
    requires |edges| <= |draws|
    decreases |edges|
  {
    if |edges| == 0 then {}
    else
      var k := |edges| - 1;
      Marks(edges[..k], rate, draws, dt) + (if draws[k] < rate(edges[k]) * dt then {edges[k].dst} else {})
  }

  /** A position is marked exactly when some edge into it drew below its
      rate times dt. */
  lemma {:induction false} MarksMembership(edges: seq<Edge>, rate: Edge -> real, draws: seq<real>, dt: real, t: Pos)
    requires |edges| <= |draws|
    ensures t in Marks(edges, rate, draws, dt) <==>
      exists k :: 0 <= k < |edges| && edges[k].dst == t && draws[k] < rate(edges[k]) * dt
    decreases |edges|
  {
    if |edges| > 0 {
      var k := |edges| - 1;
      MarksMembership(edges[..k], rate, draws, dt, t);
      if t in Marks(edges[..k], rate, draws, dt) {
        var i :| 0 <= i < k && edges[..k][i].dst == t && draws[i] < rate(edges[..k][i]) * dt;
        assert edges[i] == edges[..k][i];
      }
      if exists i :: 0 <= i < |edges| && edges[i].dst == t && draws[i] < rate(edges[i]) * dt {
        var i :| 0 <= i < |edges| && edges[i].dst == t && draws[i] < rate(edges[i]) * dt;
        if i < k {
          assert edges[..k][i] == edges[i];
        }
      }
    }
  }

  /** The edges of a burning cell are those of the source's inner loop:
      its in-bounds neighbour list filtered to the burnable cells, in
      neighbour order. */
  lemma CellEdgesFollowNeighbors(g: Grid, x: int, y: int)
    requires Valid(g) && IsValidPosition(g, x, y) && At(g, x, y).state == Burning
    ensures CellEdges(Snap(g), x, y) == EdgesAlong(Snap(g), x, y, Neighbors(g, x, y))
  {
    NeighborEdges(g, Snap(g), x, y, Offsets);
  }

  /** A marked target is the end of some phase-1 edge. */
  lemma MarkedHasEdge(s: Snapshot, rate: Edge -> real, draws: seq<real>, dt: real, t: Pos)
    requires |draws| >= |AllEdges(s)| && t in Marks(AllEdges(s), rate, draws, dt)
    ensures exists e :: EdgeOf(s, e) && e.dst == t
  {
    var es := AllEdges(s);
    MarksMembership(es, rate, draws, dt, t);
    var k :| 0 <= k < |es| && es[k].dst == t && draws[k] < rate(es[k]) * dt;
    AllEdgesAreTheEdges(s, es[k]);
  }

  /** A target every incoming edge of which has rate zero, or any target
      when dt is zero, is never marked by non-negative draws. */
  lemma QuietTargetNeverMarked(edges: seq<Edge>, rate: Edge -> real, draws: seq<real>, dt: real, t: Pos)
    requires |draws| >= |edges|
    requires forall k :: 0 <= k < |edges| ==> draws[k] >= 0.0
    requires dt == 0.0 || forall e: Edge :: e.dst == t ==> rate(e) == 0.0
    ensures t !in Marks(edges, rate, draws, dt)
  {
    MarksMembership(edges, rate, draws, dt, t);
  }

  /** The will-ignite mask of phase 1. */
  function Ignitions(g: Grid, wind: WindField, draws: seq<real>, dt: real): set<Pos>
    requires Valid(g) && |draws| >= |AllEdges(Snap(g))|
  {
    Marks(AllEdges(Snap(g)), RateOf(g, wind), draws, dt)
  }

  /** Only a burnable cell next to a burning one can be marked. */
  lemma IgnitionNeedsBurningNeighbor(g: Grid, wind: WindField, draws: seq<real>, dt: real, t: Pos)
    requires Valid(g) && |draws| >= |AllEdges(Snap(g))|
    requires t in Ignitions(g, wind, draws, dt)
    ensures IsValidPosition(g, t.0, t.1) && CanBurn(At(g, t.0, t.1))
    ensures exists p: Pos :: IsValidPosition(g, p.0, p.1) && Adjacent(p, t) && At(g, p.0, p.1).state == Burning
  {
    MarkedHasEdge(Snap(g), RateOf(g, wind), draws, dt, t);
    var e :| EdgeOf(Snap(g), e) && e.dst == t;
    assert IsValidPosition(g, e.src.0, e.src.1) && Adjacent(e.src, t) && At(g, e.src.0, e.src.1).state == Burning;
  }

  /** The spread rate into a firebreak is zero. */
  lemma RateIntoFirebreak(g: Grid, wind: WindField, e: Edge)
    requires Valid(g) && IsValidPosition(g, e.dst.0, e.dst.1) && EffectAt(g, e.dst.0, e.dst.1).firebreak
    ensures RateOf(g, wind)(e) == 0.0
  {
  }

  /** With non-negative draws, a position under a firebreak is never marked. */
  lemma FirebreakNeverMarked(g: Grid, wind: WindField, draws: seq<real>, dt: real, t: Pos)
    requires Valid(g) && |draws| >= |AllEdges(Snap(g))|
    requires forall k :: 0 <= k < |draws| ==> draws[k] >= 0.0
    requires IsValidPosition(g, t.0, t.1) && EffectAt(g, t.0, t.1).firebreak
    ensures t !in Ignitions(g, wind, draws, dt)
  {
    forall e: Edge | e.dst == t
      ensures RateOf(g, wind)(e) == 0.0
    {
      RateIntoFirebreak(g, wind, e);
    }
    QuietTargetNeverMarked(AllEdges(Snap(g)), RateOf(g, wind), draws, dt, t);
  }

  /** With non-negative draws, a zero time step marks nothing. */
  lemma NoIgnitionsWithoutTime(g: Grid, wind: WindField, draws: seq<real>, t: Pos)
    requires Valid(g) && |draws| >= |AllEdges(Snap(g))|
    requires forall k :: 0 <= k < |draws| ==> draws[k] >= 0.0
    ensures t !in Ignitions(g, wind, draws, 0.0)
  {
    QuietTargetNeverMarked(AllEdges(Snap(g)), RateOf(g, wind), draws, 0.0, t);
  }

  /** A grid with nothing burning draws nothing in phase 1. */
  lemma NoFireNoEdges(g: Grid)
    requires Valid(g)
    requires forall y, x :: IsValidPosition(g, x, y) ==> At(g, x, y).state != Burning
    ensures AllEdges(Snap(g)) == []
  {
    if |AllEdges(Snap(g))| > 0 {
      GridEdges(g, AllEdges(Snap(g))[0]);
      assert false;
    }
  }
}
