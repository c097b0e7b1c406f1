/**
 The grid search: a 4-connected A* with unit step cost and the Manhattan
 heuristic, over walkability only (unit occupancy and footprint radius are
 not consulted). Nodes live in an arena and point to their parent by index;
 the arena index doubles as the insertion counter that breaks priority ties.
 */
module Pathfinder {
  import opened Nullable
  import opened Space
  import opened MapSystem

  datatype Node = Node(x: int, y: int, cost: int, priority: int, parent: Option<nat>)

  function TileOf(n: Node): Coord {
    Coord(n.x, n.y)
  }

  /** The neighbour offsets in the order the search tries them. */
  const Directions: seq<Coord> := [Coord(0, 1), Coord(1, 0), Coord(0, -1), Coord(-1, 0)]

  function Offset(c: Coord, d: Coord): Coord {
    Coord(c.x + d.x, c.y + d.y)
  }

  function Abs(n: int): nat {
    if n < 0 then -n else n
  }

  /** Manhattan distance to the goal. */
  function Heuristic(x: int, y: int, gx: int, gy: int): (h: int)
    ensures h >= 0
    ensures h == 0 <==> x == gx && y == gy
  {
    Abs(x - gx) + Abs(y - gy)
  }

  /** One orthogonal unit step apart. */
  predicate Adjacent(a: Coord, b: Coord) {
    Abs(a.x - b.x) + Abs(a.y - b.y) == 1
  }

  lemma DirectionIsAdjacent(c: Coord, i: int)
    requires 0 <= i < |Directions|
    ensures Adjacent(c, Offset(c, Directions[i]))
  {
  }

  lemma AdjacentIsDirection(a: Coord, b: Coord)
    requires Adjacent(a, b)
    ensures exists i :: 0 <= i < |Directions| && b == Offset(a, Directions[i])
  {
    if b.x == a.x && b.y == a.y + 1 {
      assert b == Offset(a, Directions[0]);
    } else if b.x == a.x + 1 {
      assert b == Offset(a, Directions[1]);
    } else if b.y == a.y - 1 {
      assert b == Offset(a, Directions[2]);
    } else {
      assert b == Offset(a, Directions[3]);
    }
  }

  /** Consecutive tiles differ by exactly one orthogonal unit step. */
  ghost predicate OrthogonalChain(p: seq<Coord>) {
    |p| >= 1 && forall i :: 0 <= i < |p| - 1 ==> Adjacent(p[i], p[i + 1])
  }

  /** An orthogonal chain whose every tile after the first is on the map and walkable. */
  ghost predicate IsWalk(g: Grid, p: seq<Coord>) {
    && OrthogonalChain(p)
    && forall i :: 1 <= i < |p| ==> InBounds(p[i]) && g[p[i]].walkable
  }

  /** Some walk leads from `a` to `b`. */
  ghost predicate Reachable(g: Grid, a: Coord, b: Coord) {
    exists p :: IsWalk(g, p) && p[0] == a && p[|p| - 1] == b
  }

  /** Walks use walkability alone, so the units standing on the map do not change what is reachable. */
  lemma WalkIgnoresOccupants(g: Grid, g': Grid, a: Coord, b: Coord)
    requires forall c :: InBounds(c) ==> g'[c].walkable == g[c].walkable
    ensures Reachable(g', a, b) <==> Reachable(g, a, b)
  {
    forall p | IsWalk(g, p) ensures IsWalk(g', p) { }
    forall p | IsWalk(g', p) ensures IsWalk(g, p) { }
  }

  /**
   The heuristic never overestimates: any orthogonal chain from a tile to
   the goal takes at least as many steps as the heuristic says.
   */
  lemma {:induction false} HeuristicAdmissible(p: seq<Coord>, goal: Coord)
    requires OrthogonalChain(p) && p[|p| - 1] == goal
    ensures Heuristic(p[0].x, p[0].y, goal.x, goal.y) <= |p| - 1
  {
    if |p| > 1 {
      assert Adjacent(p[0], p[1]);
      HeuristicAdmissible(p[1..], goal);
    }
  }

  // ---------------------------------------------------------------------------
  // The node arena and path reconstruction

  ghost predicate ParentsPrecede(nodes: seq<Node>) {
    forall i :: 0 <= i < |nodes| && nodes[i].parent.Some? ==> nodes[i].parent.value < i
  }

  /** Follows parent links back to the root and returns the tiles root-first. */
  function ReconstructPath(nodes: seq<Node>, i: nat): (p: seq<Coord>)
    requires i < |nodes| && ParentsPrecede(nodes)
    decreases i
    ensures |p| >= 1 && p[|p| - 1] == TileOf(nodes[i])
  {
    match nodes[i].parent
    case None => [TileOf(nodes[i])]
    case Some(j) => ReconstructPath(nodes, j) + [TileOf(nodes[i])]
  }

  /**
   The arena as the search builds it: node 0 is the start with cost 0; every
   other node is one walkable on-map step from its earlier parent, costs one
   more, and is prioritised by cost plus heuristic.
   */
  ghost predicate WellLinked(g: Grid, nodes: seq<Node>, start: Coord, goal: Coord) {
    && |nodes| >= 1
    && nodes[0] == Node(start.x, start.y, 0, Heuristic(start.x, start.y, goal.x, goal.y), None)
    && ParentsPrecede(nodes)
    && forall i :: 0 < i < |nodes| ==>
         && nodes[i].parent.Some?
         && nodes[i].parent.value < i
         && Adjacent(TileOf(nodes[nodes[i].parent.value]), TileOf(nodes[i]))
         && InBounds(TileOf(nodes[i]))
         && g[TileOf(nodes[i])].walkable
         && nodes[i].cost == nodes[nodes[i].parent.value].cost + 1
         && nodes[i].priority == nodes[i].cost + Heuristic(nodes[i].x, nodes[i].y, goal.x, goal.y)
  }

  /**
   A reconstructed path starts at the start, ends at the node's tile, is a
   walk, and has exactly one tile more than the node's cost.
   */
  lemma {:induction false} ReconstructPathShape(g: Grid, nodes: seq<Node>, start: Coord, goal: Coord, i: nat)
    requires WellLinked(g, nodes, start, goal) && i < |nodes|
    ensures var p := ReconstructPath(nodes, i);
      && p[0] == start
      && p[|p| - 1] == TileOf(nodes[i])
      && IsWalk(g, p)
      && |p| == nodes[i].cost + 1
    decreases i
  {
    if i > 0 {
      var j := nodes[i].parent.value;
      ReconstructPathShape(g, nodes, start, goal, j);
      var q := ReconstructPath(nodes, j);
      var p := ReconstructPath(nodes, i);
      assert p == q + [TileOf(nodes[i])];
      assert forall k :: 0 <= k < |q| ==> p[k] == q[k];
    }
  }

  /** Appending nodes to the arena does not change the path of an existing node. */
  lemma {:induction false} ReconstructPathStable(nodes: seq<Node>, more: seq<Node>, i: nat)
    requires ParentsPrecede(nodes) && ParentsPrecede(more)
    requires |nodes| <= |more| && more[..|nodes|] == nodes && i < |nodes|
    ensures ReconstructPath(more, i) == ReconstructPath(nodes, i)
    decreases i
  {
    assert more[i] == nodes[i];
    if nodes[i].parent.Some? {
      ReconstructPathStable(nodes, more, nodes[i].parent.value);
    }
  }

  // ---------------------------------------------------------------------------
  // The open list

  function OpenTiles(nodes: seq<Node>, open: seq<nat>): set<Coord> {
    set k | k in open && k < |nodes| :: TileOf(nodes[k])
  }

  /** Sorted-set order of open entries: by priority, then by insertion counter. */
  predicate EntryBefore(nodes: seq<Node>, a: nat, b: nat)
    requires a < |nodes| && b < |nodes|
  {
    nodes[a].priority < nodes[b].priority || (nodes[a].priority == nodes[b].priority && a < b)
  }

  /** Position of the least open entry (the sorted set's `Min`). */
  method SelectMin(nodes: seq<Node>, open: seq<nat>) returns (m: nat)
    requires |open| > 0
    requires forall k :: 0 <= k < |open| ==> open[k] < |nodes|
    ensures m < |open|
    ensures forall k :: 0 <= k < |open| ==> !EntryBefore(nodes, open[k], open[m])
  {
    m := 0;
    for k := 1 to |open|
      invariant m < k
      invariant forall j :: 0 <= j < k ==> !EntryBefore(nodes, open[j], open[m])
    {
      if EntryBefore(nodes, open[k], open[m]) {
        m := k;
      }
    }
  }

  /**
   The result of expanding node `cur`: the arena grows by at most four
   children of `cur`, each one walkable on-map step away, one cost deeper,
   and not closed; their indices are appended to the open list; and every
   walkable, on-map, unclosed neighbour of `cur` is among them.
   */
  ghost predicate Expanded(g: Grid, goal: Coord, nodes: seq<Node>, open: seq<nat>, closed: set<Coord>, cur: nat,
                           nodes': seq<Node>, open': seq<nat>)
    requires cur < |nodes|
  {
    && |nodes| <= |nodes'| <= |nodes| + 4
    && nodes'[..|nodes|] == nodes
    && |open'| == |open| + (|nodes'| - |nodes|) && open'[..|open|] == open
    && (forall k :: |open| <= k < |open'| ==> open'[k] == |nodes| + (k - |open|))
    && (forall k :: |nodes| <= k < |nodes'| ==>
          && nodes'[k].parent == Some(cur)
          && nodes'[k].cost == nodes[cur].cost + 1
          && nodes'[k].priority == nodes'[k].cost + Heuristic(nodes'[k].x, nodes'[k].y, goal.x, goal.y)
          && Adjacent(TileOf(nodes[cur]), TileOf(nodes'[k]))
          && InBounds(TileOf(nodes'[k]))
          && g[TileOf(nodes'[k])].walkable
          && TileOf(nodes'[k]) !in closed)
    && (forall u :: Adjacent(TileOf(nodes[cur]), u) && InBounds(u) && g[u].walkable && u !in closed ==>
          exists k :: |nodes| <= k < |nodes'| && TileOf(nodes'[k]) == u)
  }

  /**
   Pushes a node for every on-map, walkable, not yet closed neighbour of
   node `cur`, in direction order.
   */
  method Expand(g: Grid, goal: Coord, nodes: seq<Node>, open: seq<nat>, closed: set<Coord>, cur: nat)
    returns (nodes': seq<Node>, open': seq<nat>)
    requires cur < |nodes|
    ensures Expanded(g, goal, nodes, open, closed, cur, nodes', open')
  {
    nodes' := nodes;
    open' := open;
    var here := TileOf(nodes[cur]);
    for i := 0 to 4
      invariant |nodes| <= |nodes'| <= |nodes| + i
      invariant nodes'[..|nodes|] == nodes
      invariant |open'| == |open| + (|nodes'| - |nodes|) && open'[..|open|] == open
      invariant forall k :: |open| <= k < |open'| ==> open'[k] == |nodes| + (k - |open|)
      invariant forall k :: |nodes| <= k < |nodes'| ==>
        && nodes'[k].parent == Some(cur)
        && nodes'[k].cost == nodes[cur].cost + 1
        && nodes'[k].priority == nodes'[k].cost + Heuristic(nodes'[k].x, nodes'[k].y, goal.x, goal.y)
        && Adjacent(here, TileOf(nodes'[k]))
        && InBounds(TileOf(nodes'[k]))
        && g[TileOf(nodes'[k])].walkable
        && TileOf(nodes'[k]) !in closed
      invariant forall d :: 0 <= d < i ==>
        var u := Offset(here, Directions[d]);
        InBounds(u) && g[u].walkable && u !in closed ==>
          exists k :: |nodes| <= k < |nodes'| && TileOf(nodes'[k]) == u
    {
      var n := Offset(here, Directions[i]);
      DirectionIsAdjacent(here, i);
      if n.x < 0 || n.x >= SizeX || n.y < 0 || n.y >= SizeY {
        continue;
      }
      if !g[n].walkable {
        continue;
      }
      if n in closed {
        continue;
      }
      var cost := nodes[cur].cost + 1;
      var neighbor := Node(n.x, n.y, cost, cost + Heuristic(n.x, n.y, goal.x, goal.y), Some(cur));
      assert TileOf(neighbor) == n;
      ghost var prev := nodes';
      open' := open' + [|nodes'|];
      nodes' := nodes' + [neighbor];
      assert forall k :: 0 <= k < |prev| ==> nodes'[k] == prev[k];
      assert TileOf(nodes'[|nodes'| - 1]) == n;
    }
    forall u | Adjacent(here, u) && InBounds(u) && g[u].walkable && u !in closed
      ensures exists k :: |nodes| <= k < |nodes'| && TileOf(nodes'[k]) == u
    {
      AdjacentIsDirection(here, u);
    }
  }

  // ---------------------------------------------------------------------------
  // Termination: every pop replaces one open node by at most four nodes one
  // step deeper, and no node is deeper than the number of closed tiles.

  function Pow5(n: nat): nat {
    if n == 0 then 1 else 5 * Pow5(n - 1)
  }

  function NodeWeight(nodes: seq<Node>, k: nat, bound: nat): nat {
    if k < |nodes| && 0 <= nodes[k].cost <= bound then Pow5(bound - nodes[k].cost) else 0
  }

  function Weight(nodes: seq<Node>, open: seq<nat>, bound: nat): nat {
    if |open| == 0 then 0 else NodeWeight(nodes, open[0], bound) + Weight(nodes, open[1..], bound)
  }

  lemma {:induction false} WeightAppend(nodes: seq<Node>, a: seq<nat>, b: seq<nat>, bound: nat)
    ensures Weight(nodes, a + b, bound) == Weight(nodes, a, bound) + Weight(nodes, b, bound)
  {
    if |a| > 0 {
      assert (a + b)[1..] == a[1..] + b;
      WeightAppend(nodes, a[1..], b, bound);
    } else {
      assert a + b == b;
    }
  }

  lemma {:induction false} WeightStable(nodes: seq<Node>, more: seq<Node>, open: seq<nat>, bound: nat)
    requires |nodes| <= |more| && more[..|nodes|] == nodes
    requires forall k :: 0 <= k < |open| ==> open[k] < |nodes|
    ensures Weight(more, open, bound) == Weight(nodes, open, bound)
  {
    if |open| > 0 {
      assert more[open[0]] == nodes[open[0]];
      WeightStable(nodes, more, open[1..], bound);
    }
  }

  lemma {:induction false} WeightUniform(nodes: seq<Node>, s: seq<nat>, bound: nat, w: nat)
    requires forall k :: 0 <= k < |s| ==> NodeWeight(nodes, s[k], bound) == w
    ensures Weight(nodes, s, bound) == |s| * w
  {
    if |s| > 0 {
      WeightUniform(nodes, s[1..], bound, w);
    }
  }

  lemma SubsetCardinality(a: set<Coord>, b: set<Coord>)
    requires a <= b
    ensures |a| <= |b|
  {
    assert b == a + (b - a);
  }

  /** The in-bounds tiles. */
  function AllTiles(): (s: set<Coord>)
    ensures forall c :: c in s <==> InBounds(c)
  {
    var s := set x: int, y: int | 0 <= x < SizeX && 0 <= y < SizeY :: Coord(x, y);
    assert forall c :: InBounds(c) ==> c == Coord(c.x, c.y) && c in s;
    s
  }

  // ---------------------------------------------------------------------------
  // The search

  ghost predicate OpenIndexed(nodes: seq<Node>, open: seq<nat>) {
    forall k :: 0 <= k < |open| ==> open[k] < |nodes|
  }

  /** No node is deeper than the closed set is large, and a node whose tile is closed is shallower. */
  ghost predicate CostsBounded(nodes: seq<Node>, closed: set<Coord>) {
    forall i :: 0 <= i < |nodes| ==>
      0 <= nodes[i].cost <= |closed| && (TileOf(nodes[i]) in closed ==> nodes[i].cost < |closed|)
  }

  /** Every node's path is simple, and the path to its parent lies in the closed set. */
  ghost predicate PathsSimple(nodes: seq<Node>, closed: set<Coord>)
    requires ParentsPrecede(nodes)
  {
    && (forall i :: 0 <= i < |nodes| ==> Distinct(ReconstructPath(nodes, i)))
    && (forall i :: 0 <= i < |nodes| && nodes[i].parent.Some? ==>
          forall c :: c in ReconstructPath(nodes, nodes[i].parent.value) ==> c in closed)
  }

  /** Every walkable on-map neighbour of a closed tile is closed or waiting in the open list. */
  ghost predicate FrontierCovered(g: Grid, nodes: seq<Node>, open: seq<nat>, closed: set<Coord>) {
    forall c, u :: c in closed && Adjacent(c, u) && InBounds(u) && g[u].walkable ==>
      u in closed || u in OpenTiles(nodes, open)
  }

  /** The facts the search loop keeps about its arena, open list and closed set. */
  ghost predicate SearchInvariant(g: Grid, start: Coord, goal: Coord, nodes: seq<Node>, open: seq<nat>, closed: set<Coord>) {
    && WellLinked(g, nodes, start, goal)
    && OpenIndexed(nodes, open)
    && goal !in closed
    && closed <= AllTiles() + {start}
    && CostsBounded(nodes, closed)
    && PathsSimple(nodes, closed)
    && FrontierCovered(g, nodes, open, closed)
    && (start in closed || (closed == {} && open == [0] && |nodes| == 1))
  }

  lemma StepKeepsArena(g: Grid, start: Coord, goal: Coord, nodes: seq<Node>, mid: seq<nat>,
                       closed: set<Coord>, cur: nat, nodes': seq<Node>, open': seq<nat>)
    requires WellLinked(g, nodes, start, goal) && OpenIndexed(nodes, mid) && cur < |nodes|
    requires Expanded(g, goal, nodes, mid, closed, cur, nodes', open')
    ensures forall i :: 0 <= i < |nodes| ==> nodes'[i] == nodes[i]
    ensures WellLinked(g, nodes', start, goal)
    ensures OpenIndexed(nodes', open')
  {
    forall i | 0 <= i < |nodes| ensures nodes'[i] == nodes[i] {
      assert nodes'[i] == nodes'[..|nodes|][i];
    }
    assert ParentsPrecede(nodes');
    forall k | 0 <= k < |open'| ensures open'[k] < |nodes'| {
      if k < |mid| {
        assert open'[k] == open'[..|mid|][k];
      }
    }
  }

  lemma StepKeepsCosts(g: Grid, start: Coord, goal: Coord, nodes: seq<Node>, mid: seq<nat>,
                       closedBefore: set<Coord>, cur: nat, nodes': seq<Node>, open': seq<nat>)
    requires WellLinked(g, nodes, start, goal) && cur < |nodes|
    requires CostsBounded(nodes, closedBefore) && closedBefore <= AllTiles() + {start}
    requires Expanded(g, goal, nodes, mid, closedBefore + {TileOf(nodes[cur])}, cur, nodes', open')
    ensures var closed := closedBefore + {TileOf(nodes[cur])};
      && closed <= AllTiles() + {start}
      && |closed| <= |AllTiles() + {start}|
      && 0 <= nodes[cur].cost < |closed|
      && CostsBounded(nodes', closed)
  {
    var here := TileOf(nodes[cur]);
    var closed := closedBefore + {here};
    if cur > 0 {
      assert InBounds(here);
    }
    assert here in AllTiles() + {start};
    SubsetCardinality(closed, AllTiles() + {start});
    if here in closedBefore {
      assert closed == closedBefore;
    } else {
      assert |closed| == |closedBefore| + 1;
    }
    assert nodes[cur].cost < |closed|;
    forall i | 0 <= i < |nodes'|
      ensures 0 <= nodes'[i].cost <= |closed| && (TileOf(nodes'[i]) in closed ==> nodes'[i].cost < |closed|)
    {
      if i < |nodes| {
        assert nodes'[i] == nodes'[..|nodes|][i];
        if TileOf(nodes[i]) == here && here !in closedBefore {
          assert nodes[i].cost <= |closedBefore|;
        }
      }
    }
  }

  lemma StepKeepsPaths(g: Grid, start: Coord, goal: Coord, nodes: seq<Node>, mid: seq<nat>,
                       closedBefore: set<Coord>, cur: nat, nodes': seq<Node>, open': seq<nat>)
    requires WellLinked(g, nodes, start, goal) && cur < |nodes|
    requires PathsSimple(nodes, closedBefore)
    requires Expanded(g, goal, nodes, mid, closedBefore + {TileOf(nodes[cur])}, cur, nodes', open')
    requires WellLinked(g, nodes', start, goal)
    ensures PathsSimple(nodes', closedBefore + {TileOf(nodes[cur])})
  {
    var here := TileOf(nodes[cur]);
    var closed := closedBefore + {here};
    if cur > 0 {
      assert ReconstructPath(nodes, cur) == ReconstructPath(nodes, nodes[cur].parent.value) + [here];
    }
    assert forall c :: c in ReconstructPath(nodes, cur) ==> c in closed;
    forall i | 0 <= i < |nodes| ensures nodes'[i] == nodes[i] {
      assert nodes'[i] == nodes'[..|nodes|][i];
    }
    forall i | 0 <= i < |nodes'|
      ensures Distinct(ReconstructPath(nodes', i))
      ensures nodes'[i].parent.Some? ==> forall c :: c in ReconstructPath(nodes', nodes'[i].parent.value) ==> c in closed
    {
      if i < |nodes| {
        ReconstructPathStable(nodes, nodes', i);
        if nodes[i].parent.Some? {
          ReconstructPathStable(nodes, nodes', nodes[i].parent.value);
        }
      } else {
        ReconstructPathStable(nodes, nodes', cur);
        PushedPathSimple(nodes', cur, closed, i);
      }
    }
  }

  /** A node pushed from `cur` extends `cur`'s closed, repetition-free path by a tile not yet closed. */
  lemma PushedPathSimple(nodes: seq<Node>, cur: nat, closed: set<Coord>, i: nat)
    requires ParentsPrecede(nodes) && cur < i < |nodes| && nodes[i].parent == Some(cur)
    requires TileOf(nodes[i]) !in closed
    requires Distinct(ReconstructPath(nodes, cur))
    requires forall c :: c in ReconstructPath(nodes, cur) ==> c in closed
    ensures Distinct(ReconstructPath(nodes, i))
  {
    var q := ReconstructPath(nodes, cur);
    assert ReconstructPath(nodes, i) == q + [TileOf(nodes[i])];
    assert TileOf(nodes[i]) !in q;
  }

  lemma StepKeepsFrontier(g: Grid, goal: Coord, nodes: seq<Node>, before: seq<nat>,
                          closedBefore: set<Coord>, m: nat, nodes': seq<Node>, open': seq<nat>)
    requires m < |before| && OpenIndexed(nodes, before)
    requires FrontierCovered(g, nodes, before, closedBefore)
    requires Expanded(g, goal, nodes, before[..m] + before[m + 1..], closedBefore + {TileOf(nodes[before[m]])},
                      before[m], nodes', open')
    ensures FrontierCovered(g, nodes', open', closedBefore + {TileOf(nodes[before[m]])})
  {
    var cur := before[m];
    var here := TileOf(nodes[cur]);
    var mid := before[..m] + before[m + 1..];
    var closed := closedBefore + {here};
    forall c, u | c in closed && Adjacent(c, u) && InBounds(u) && g[u].walkable
      ensures u in closed || u in OpenTiles(nodes', open')
    {
      if u !in closed {
        if c == here {
          var k :| |nodes| <= k < |nodes'| && TileOf(nodes'[k]) == u;
          var pos := |mid| + (k - |nodes|);
          assert open'[pos] == k;
        } else {
          assert u in OpenTiles(nodes, before);
          var k :| k in before && k < |nodes| && TileOf(nodes[k]) == u;
          assert k != cur;
          var j :| 0 <= j < |before| && before[j] == k;
          var pos := if j < m then j else j - 1;
          assert mid[pos] == k;
          assert open'[pos] == open'[..|mid|][pos];
          assert nodes'[k] == nodes'[..|nodes|][k];
        }
      }
    }
  }

  /** Popping one entry and pushing at most four successors one step deeper strictly lowers the weight. */
  lemma StepLowersWeight(nodes: seq<Node>, before: seq<nat>, m: nat, nodes': seq<Node>, pushed: seq<nat>, bound: nat)
    requires m < |before| && OpenIndexed(nodes, before)
    requires |nodes| <= |nodes'| && nodes'[..|nodes|] == nodes
    requires |pushed| <= 4
    requires forall k :: 0 <= k < |pushed| ==>
      pushed[k] < |nodes'| && nodes'[pushed[k]].cost == nodes[before[m]].cost + 1
    requires 0 <= nodes[before[m]].cost < bound
    ensures Weight(nodes', before[..m] + before[m + 1..] + pushed, bound) < Weight(nodes, before, bound)
  {
    var cur := before[m];
    var mid := before[..m] + before[m + 1..];
    var c := nodes[cur].cost;
    RemoveOne(nodes, before, m, bound);
    forall k | 0 <= k < |mid| ensures mid[k] < |nodes| {
      assert mid[k] in before;
    }
    WeightStable(nodes, nodes', mid, bound);
    WeightAppend(nodes', mid, pushed, bound);
    PushedWeight(nodes', pushed, bound, c);
    NodeWeightStep(nodes, cur, bound);
  }

  /** Each pushed successor weighs a fifth of the entry it came from, and at most four are pushed. */
  lemma PushedWeight(nodes: seq<Node>, pushed: seq<nat>, bound: nat, c: int)
    requires |pushed| <= 4 && 0 <= c < bound
    requires forall k :: 0 <= k < |pushed| ==> pushed[k] < |nodes| && nodes[pushed[k]].cost == c + 1
    ensures Weight(nodes, pushed, bound) < 5 * Pow5(bound - c - 1)
  {
    var w := Pow5(bound - c - 1);
    Pow5Positive(bound - c - 1);
    WeightUniform(nodes, pushed, bound, w);
    AtMostFour(|pushed|, w);
  }

  lemma NodeWeightStep(nodes: seq<Node>, cur: nat, bound: nat)
    requires cur < |nodes|
    requires 0 <= nodes[cur].cost < bound
    ensures NodeWeight(nodes, cur, bound) == 5 * Pow5(bound - nodes[cur].cost - 1)
  {
    Pow5Step(bound - nodes[cur].cost);
  }

  /** Taking one entry out of an open list lowers its weight by exactly that entry's weight. */
  lemma RemoveOne(nodes: seq<Node>, before: seq<nat>, m: nat, bound: nat)
    requires m < |before|
    ensures Weight(nodes, before, bound) == Weight(nodes, before[..m] + before[m + 1..], bound) + NodeWeight(nodes, before[m], bound)
  {
    var cur := before[m];
    assert before == before[..m] + [cur] + before[m + 1..];
    WeightAppend(nodes, before[..m] + [cur], before[m + 1..], bound);
    WeightAppend(nodes, before[..m], [cur], bound);
    WeightAppend(nodes, before[..m], before[m + 1..], bound);
    assert [cur][1..] == [];
  }

  /** The open list after an expansion is the list it started from plus the new nodes, each one step deeper. */
  lemma ExpandedAppends(g: Grid, goal: Coord, nodes: seq<Node>, mid: seq<nat>, closed: set<Coord>, cur: nat,
                        nodes': seq<Node>, open': seq<nat>)
    requires cur < |nodes|
    requires Expanded(g, goal, nodes, mid, closed, cur, nodes', open')
    ensures open' == mid + open'[|mid|..]
    ensures |open'[|mid|..]| <= 4
    ensures forall k :: 0 <= k < |open'[|mid|..]| ==>
      open'[|mid|..][k] < |nodes'| && nodes'[open'[|mid|..][k]].cost == nodes[cur].cost + 1
  {
    var pushed := open'[|mid|..];
    assert open' == open'[..|mid|] + pushed;
    forall k | 0 <= k < |pushed|
      ensures pushed[k] < |nodes'| && nodes'[pushed[k]].cost == nodes[cur].cost + 1
    {
      assert pushed[k] == open'[|mid| + k];
    }
  }

  lemma Pow5Step(n: nat)
    requires n > 0
    ensures Pow5(n) == 5 * Pow5(n - 1) && Pow5(n - 1) > 0
  {
    Pow5Positive(n - 1);
  }

  lemma {:induction false} Pow5Positive(n: nat)
    ensures Pow5(n) > 0
  {
    if n > 0 { Pow5Positive(n - 1); }
  }

  lemma AtMostFour(n: nat, w: nat)
    requires n <= 4 && w > 0
    ensures n * w < 5 * w
  {
    if n < 4 {
      assert n * w == w * n;
      assert (4 - n) * w >= 0;
    }
  }

  /** One iteration that pops, closes and expands a non-goal node keeps the invariant and lowers the weight. */
  lemma SearchStep(g: Grid, start: Coord, goal: Coord,
                   nodes: seq<Node>, before: seq<nat>, closedBefore: set<Coord>, m: nat,
                   nodes': seq<Node>, open': seq<nat>)
    requires SearchInvariant(g, start, goal, nodes, before, closedBefore)
    requires m < |before| && TileOf(nodes[before[m]]) != goal
    requires Expanded(g, goal, nodes, before[..m] + before[m + 1..], closedBefore + {TileOf(nodes[before[m]])},
                      before[m], nodes', open')
    ensures SearchInvariant(g, start, goal, nodes', open', closedBefore + {TileOf(nodes[before[m]])})
    ensures Weight(nodes', open', |AllTiles() + {start}|) < Weight(nodes, before, |AllTiles() + {start}|)
  {
    var cur := before[m];
    var mid := before[..m] + before[m + 1..];
    var closed := closedBefore + {TileOf(nodes[cur])};
    forall k | 0 <= k < |mid| ensures mid[k] < |nodes| {
      assert mid[k] in before;
    }
    StepKeepsArena(g, start, goal, nodes, mid, closed, cur, nodes', open');
    StepKeepsCosts(g, start, goal, nodes, mid, closedBefore, cur, nodes', open');
    StepKeepsPaths(g, start, goal, nodes, mid, closedBefore, cur, nodes', open');
    StepKeepsFrontier(g, goal, nodes, before, closedBefore, m, nodes', open');
    ExpandedAppends(g, goal, nodes, mid, closed, cur, nodes', open');
    StepLowersWeight(nodes, before, m, nodes', open'[|mid|..], |AllTiles() + {start}|);
    if start !in closedBefore {
      assert cur == 0;
    }
  }

  /** The walkable region reachable from a closed tile stays inside a neighbour-closed set. */
  lemma {:induction false} WalkStaysInside(g: Grid, p: seq<Coord>, closed: set<Coord>)
    requires IsWalk(g, p) && p[0] in closed
    requires forall c, u :: c in closed && Adjacent(c, u) && InBounds(u) && g[u].walkable ==> u in closed
    ensures forall i :: 0 <= i < |p| ==> p[i] in closed
  {
    if |p| > 1 {
      assert Adjacent(p[0], p[1]);
      assert IsWalk(g, p[1..]);
      WalkStaysInside(g, p[1..], closed);
      assert forall i :: 1 <= i < |p| ==> p[i] == p[1..][i - 1];
    }
  }

  /**
   A* from `start` to `goal`. A returned path starts at `start`, ends at
   `goal`, moves one orthogonal step at a time over walkable on-map tiles
   (the start tile itself is never checked), and never revisits a tile. No
   path is returned only when no such walk exists at all.
   */
  method FindPath(g: Grid, start: Coord, goal: Coord) returns (r: Option<seq<Coord>>)
    ensures r.Some? ==> |r.value| >= 1 && r.value[0] == start && r.value[|r.value| - 1] == goal
    ensures r.Some? ==> IsWalk(g, r.value) && Distinct(r.value)
    ensures start == goal ==> r == Some([start])
    ensures r.None? ==> !Reachable(g, start, goal)
  {
    var nodes := [Node(start.x, start.y, 0, Heuristic(start.x, start.y, goal.x, goal.y), None)];
    var open: seq<nat> := [0];
    var closed: set<Coord> := {};
    ghost var bound := |AllTiles() + {start}|;
    while |open| > 0
      invariant SearchInvariant(g, start, goal, nodes, open, closed)
      decreases Weight(nodes, open, bound)
    {
      var m := SelectMin(nodes, open);
      var cur := open[m];
      ghost var before := open;
      ghost var closedBefore := closed;
      ghost var nodesBefore := nodes;
      open := open[..m] + open[m + 1..];
      if TileOf(nodes[cur]) == goal {
        var path := ReconstructPath(nodes, cur);
        ReconstructPathShape(g, nodes, start, goal, cur);
        return Some(path);
      }
      closed := closed + {TileOf(nodes[cur])};
      nodes, open := Expand(g, goal, nodes, open, closed, cur);
      SearchStep(g, start, goal, nodesBefore, before, closedBefore, m, nodes, open);
    }
    forall p | IsWalk(g, p) && p[0] == start
      ensures p[|p| - 1] != goal
    {
      WalkStaysInside(g, p, closed);
    }
    return None;
  }
}
