/**
 The per-frame behaviour of the unit AI: each character picks the nearest
 opposing unit as its target and, when it has drifted into another tile or
 has no path yet, moves its footprint and plans a smoothed path towards
 that target. The frame-by-frame movement along the path is not modelled.
 */
module UnitAI {
  import opened Nullable
  import opened Space
  import opened Types
  import opened MapSystem
  import opened Pathfinder
  import opened PathSmoothing

  /** `Int32.MaxValue`, the starting "shortest distance" of the nearest-enemy scan. */
  const Int32Max: int := 0x7FFF_FFFF

  /** Samples per path segment used when a path is smoothed (also the spline's default). */
  const PathSubdivisions: int := 5

  /** The world height that tile centres are lifted to by default. */
  const TileWorldY: real := 1.0

  /** The tile distance from `self` to the unit at position `i` of the active list. */
  function DistanceTo(w: World, self: UnitId, dist: (Coord, Coord) -> int, i: int): int
    requires self in w.units && 0 <= i < |w.active| && w.active[i] in w.units
  {
    dist(w.units[self].currTile, w.units[w.active[i]].currTile)
  }

  /** The active unit at position `i` is another unit, of the other side. */
  predicate Opposes(w: World, self: UnitId, i: int)
    requires self in w.units && 0 <= i < |w.active| && w.active[i] in w.units
  {
    w.active[i] != self && w.units[w.active[i]].isPlayerOwned != w.units[self].isPlayerOwned
  }

  /** The unit at position `i` can be chosen: it opposes `self` and its distance beats the initial bound. */
  predicate Candidate(w: World, self: UnitId, dist: (Coord, Coord) -> int, i: int)
    requires self in w.units && 0 <= i < |w.active| && w.active[i] in w.units
  {
    Opposes(w, self, i) && DistanceTo(w, self, dist, i) < Int32Max
  }

  /**
   Position `i` holds the nearest candidate, and the first one at that
   distance in iteration order.
   */
  predicate FirstNearest(w: World, self: UnitId, dist: (Coord, Coord) -> int, i: int)
    requires self in w.units && 0 <= i < |w.active|
    requires forall k :: 0 <= k < |w.active| ==> w.active[k] in w.units
  {
    && Candidate(w, self, dist, i)
    && (forall k :: 0 <= k < |w.active| && Candidate(w, self, dist, k) ==>
          DistanceTo(w, self, dist, i) <= DistanceTo(w, self, dist, k))
    && (forall k :: 0 <= k < i && Candidate(w, self, dist, k) ==>
          DistanceTo(w, self, dist, i) < DistanceTo(w, self, dist, k))
  }

  /**
   Scans the active units for the nearest unit of the other side, stores it
   (or nothing) as the unit's target and reports whether one was found.
   */
  method FindTarget(w: World, self: UnitId, dist: (Coord, Coord) -> int) returns (r: World, found: bool)
    requires self in w.units
    requires forall k :: 0 <= k < |w.active| ==> w.active[k] in w.units
    ensures self in r.units && r == w.(units := w.units[self := w.units[self].(target := r.units[self].target)])
    ensures found <==> r.units[self].target.Some?
    ensures found <==> exists i :: 0 <= i < |w.active| && Candidate(w, self, dist, i)
    ensures found ==> exists i :: 0 <= i < |w.active| && w.active[i] == r.units[self].target.value
                                 && FirstNearest(w, self, dist, i)
    ensures found ==> r.units[self].target.value != self
    ensures found ==> r.units[self].target.value in w.units
    ensures found ==> w.units[r.units[self].target.value].isPlayerOwned != w.units[self].isPlayerOwned
    ensures Valid(w) ==> Valid(r)
  {
    var best: Option<UnitId> := None;
    ghost var bestIndex := 0;
    var shortest := Int32Max;
    for i := 0 to |w.active|
      invariant best.None? <==> forall k :: 0 <= k < i ==> !Candidate(w, self, dist, k)
      invariant best.None? ==> shortest == Int32Max
      invariant best.Some? ==>
        && bestIndex < i && w.active[bestIndex] == best.value
        && shortest == DistanceTo(w, self, dist, bestIndex)
        && Candidate(w, self, dist, bestIndex)
        && (forall k :: 0 <= k < i && Candidate(w, self, dist, k) ==>
              DistanceTo(w, self, dist, bestIndex) <= DistanceTo(w, self, dist, k))
        && (forall k :: 0 <= k < bestIndex && Candidate(w, self, dist, k) ==>
              DistanceTo(w, self, dist, bestIndex) < DistanceTo(w, self, dist, k))
    {
      var other := w.active[i];
      if other == self || w.units[other].isPlayerOwned == w.units[self].isPlayerOwned {
        assert !Opposes(w, self, i);
        continue;
      }
      var d := dist(w.units[self].currTile, w.units[other].currTile);
      assert Opposes(w, self, i) && d == DistanceTo(w, self, dist, i);
      assert shortest <= Int32Max;
      if d < shortest {
        assert Candidate(w, self, dist, i);
        shortest := d;
        best := Some(other);
        bestIndex := i;
      } else {
        assert best.None? ==> !Candidate(w, self, dist, i);
      }
    }
    r := w.(units := w.units[self := w.units[self].(target := best)]);
    found := best.Some?;
  }

  /**
   The tiles of a path lifted to world space, each at the default tile
   height; the lift keeps the order and the tile of every point.
   */
  function LiftPath(path: seq<Coord>): (r: seq<Vec3>)
    ensures |r| == |path|
    ensures forall i :: 0 <= i < |r| ==> WorldToTileSpace(r[i]) == path[i]
  {
    var r := seq(|path|, i requires 0 <= i < |path| => TileToWorldSpace(path[i], TileWorldY));
    forall i | 0 <= i < |r| ensures WorldToTileSpace(r[i]) == path[i] {
      TileWorldRoundTrip(path[i], TileWorldY);
    }
    r
  }

  /** Whether the unit must plan again: its visual has left its tile, or it has no path. */
  predicate NeedsPath(u: Unit) {
    WorldToTileSpace(u.visualPos) != u.currTile || u.currentSmoothedPath.None?
  }

  /**
   A freshly planned path: restarted from its first point, which is the
   unit's anchor, running through at least one smoothed segment and ending
   at the anchor of the unit's target, another registered unit.
   */
  predicate FreshPath(w: World, id: UnitId)
    requires id in w.units
  {
    var u := w.units[id];
    && u.currentPathIndex == 0
    && u.currentSmoothedPath.Some?
    && |u.currentSmoothedPath.value| >= PathSubdivisions + 1
    && u.currentSmoothedPath.value[0] == TileToWorldSpace(u.currTile, TileWorldY)
    && u.target.Some? && u.target.value != id && u.target.value in w.units
    && u.currentSmoothedPath.value[|u.currentSmoothedPath.value| - 1]
       == TileToWorldSpace(w.units[u.target.value].currTile, TileWorldY)
  }

  /** Whether a turn adopts a new path from `from` to `goal`: a walk of at least two tiles leads there. */
  ghost predicate Plans(g: Grid, from: Coord, goal: Coord) {
    from != goal && Reachable(g, from, goal)
  }

  /**
   The planning outcome for unit `id` in `r`, given its record `u` and the
   map `g` before the turn: when a walk of at least two tiles leads from its
   (possibly moved) anchor to its target's anchor, it holds a fresh path;
   otherwise its path and path index are those of `u`.
   */
  ghost predicate Replanned(g: Grid, u: Unit, r: World, id: UnitId)
    requires id in r.units
  {
    var v := r.units[id];
    && v.target.Some? && v.target.value in r.units
    && if Plans(g, v.currTile, r.units[v.target.value].currTile) then FreshPath(r, id)
       else v.currentSmoothedPath == u.currentSmoothedPath && v.currentPathIndex == u.currentPathIndex
  }

  /** `v` is `u` with at most its target, anchor, path and path index changed. */
  predicate SameBody(v: Unit, u: Unit) {
    v == u.(target := v.target, currTile := v.currTile,
            currentSmoothedPath := v.currentSmoothedPath, currentPathIndex := v.currentPathIndex)
  }

  /**
   What the planning half of a turn did, for the unit whose record before
   it was `u` on map `g`: a unit on its tile with a path is left alone; a
   unit whose visual left its tile is moved as `PlaceUnit` moves it, and the
   turn throws exactly when that move throws, keeping the old path; any
   other unit that needs a path ends up as `Replanned` says. The target is
   not looked at here.
   */
  ghost predicate Followed(g: Grid, u: Unit, r: World, thrown: bool)
    requires u.id in r.units
  {
    var v := r.units[u.id];
    var tile := WorldToTileSpace(u.visualPos);
    && (!NeedsPath(u) ==>
          && r.grid == g && !thrown && v.currTile == u.currTile
          && v.currentSmoothedPath == u.currentSmoothedPath && v.currentPathIndex == u.currentPathIndex)
    && (tile == u.currTile ==> r.grid == g && v.currTile == u.currTile && !thrown)
    && (NeedsPath(u) && tile != u.currTile ==>
          && r.grid == PlaceUnit(g, u, tile).grid
          && v.currTile == PlaceUnit(g, u, tile).unit.currTile
          && thrown == PlaceUnit(g, u, tile).thrown)
    && (thrown ==> v.currentSmoothedPath == u.currentSmoothedPath && v.currentPathIndex == u.currentPathIndex)
    && (NeedsPath(u) && !thrown ==> Replanned(g, u, r, u.id))
  }

  /** `Followed` does not depend on the target the record held before the turn. */
  lemma FollowedIgnoresTarget(g: Grid, u: Unit, t: Option<UnitId>, r: World, thrown: bool)
    requires u.id in r.units
    requires Followed(g, u.(target := t), r, thrown)
    ensures Followed(g, u, r, thrown)
  {
    PlaceUnitIgnoresTarget(g, u, t, WorldToTileSpace(u.visualPos));
  }

  /**
   `g'` differs from `g` only by the unit `id` taking or leaving cells:
   walkability is kept, and a cell whose occupant changed was empty or held
   by `id` before and is empty or held by `id` after.
   */
  ghost predicate MovesOnly(g: Grid, g': Grid, id: UnitId) {
    forall c :: InBounds(c) ==>
      && g'[c].walkable == g[c].walkable
      && (g'[c].occupant != g[c].occupant ==>
            && (g[c].occupant.None? || g[c].occupant == Some(id))
            && (g'[c].occupant.None? || g'[c].occupant == Some(id)))
  }

  /** The unit `id`, anchored at `tile` with footprint `radius`, holds every on-map cell of that footprint. */
  ghost predicate Holds(g: Grid, id: UnitId, tile: Coord, radius: int) {
    forall c :: InBounds(c) && InFootprint(tile, radius, c) ==> g[c].occupant == Some(id)
  }

  /**
   One character's turn of the AI frame: pick a target; if there is one and
   the unit needs a path, first move its footprint to the tile under its
   visual (when that differs), then plan from its anchor to the target's
   anchor and, for a path of at least two tiles, store the smoothed path
   and restart it from its first point. A move that throws ends the turn
   with its effects kept and reports `thrown`.
   */
  method UpdateUnit(w: World, id: UnitId, dist: (Coord, Coord) -> int) returns (r: World, thrown: bool)
    requires Valid(w) && id in w.units
    ensures Valid(r)
    ensures r.active == w.active && r.pending == w.pending && r.nextId == w.nextId
    ensures r.units.Keys == w.units.Keys
    ensures forall o :: o in w.units && o != id ==> r.units[o] == w.units[o]
    ensures SameBody(r.units[id], w.units[id])
    ensures w.units[id].data.unitType != Character ==> r == w && !thrown
    ensures w.units[id].data.unitType == Character ==>
      (r.units[id].target.Some? <==> exists i :: 0 <= i < |w.active| && Candidate(w, id, dist, i))
    ensures w.units[id].data.unitType == Character && r.units[id].target.Some? ==>
      exists i :: 0 <= i < |w.active| && w.active[i] == r.units[id].target.value && FirstNearest(w, id, dist, i)
    ensures r.units[id].target.None? ==>
      r.grid == w.grid && r.units[id] == w.units[id].(target := r.units[id].target) && !thrown
    ensures MovesOnly(w.grid, r.grid, id)
    ensures r.units[id].currTile != w.units[id].currTile ==> Holds(r.grid, id, r.units[id].currTile, w.units[id].data.radius)
    ensures w.units[id].data.unitType == Character && r.units[id].target.Some? ==>
      Followed(w.grid, w.units[id], r, thrown)
  {
    if w.units[id].data.unitType != Character {
      return w, false;
    }
    var w1, found := FindTarget(w, id, dist);
    if !found {
      return w1, false;
    }
    r, thrown := FollowTarget(w1, id);
    FollowedIgnoresTarget(w.grid, w.units[id], w1.units[id].target, r, thrown);
  }

  /** A move does not look at the mover's target. */
  lemma PlaceUnitIgnoresTarget(g: Grid, u: Unit, t: Option<UnitId>, pos: Coord)
    ensures PlaceUnit(g, u.(target := t), pos).grid == PlaceUnit(g, u, pos).grid
    ensures PlaceUnit(g, u.(target := t), pos).unit.currTile == PlaceUnit(g, u, pos).unit.currTile
    ensures PlaceUnit(g, u.(target := t), pos).thrown == PlaceUnit(g, u, pos).thrown
  {
    var u' := u.(target := t);
    assert u'.id == u.id && u'.currTile == u.currTile && u'.data == u.data;
    assert ReleaseFootprint(g, u') == ReleaseFootprint(g, u);
  }

  /**
   The planning half of a character's turn, once it has a target: when the
   unit needs a path, move its footprint to the tile under its visual (if
   that differs) and, unless the move threw, plan again from there.
   */
  method FollowTarget(w: World, id: UnitId) returns (r: World, thrown: bool)
    requires Valid(w) && id in w.units
    requires w.units[id].target.Some? && w.units[id].target.value != id
    ensures Valid(r)
    ensures r.active == w.active && r.pending == w.pending && r.nextId == w.nextId
    ensures id in r.units && r.units == w.units[id := r.units[id]]
    ensures r.units[id] == w.units[id].(currTile := r.units[id].currTile,
                                        currentSmoothedPath := r.units[id].currentSmoothedPath,
                                        currentPathIndex := r.units[id].currentPathIndex)
    ensures !NeedsPath(w.units[id]) ==> r == w
    ensures MovesOnly(w.grid, r.grid, id)
    ensures r.units[id].currTile != w.units[id].currTile ==> Holds(r.grid, id, r.units[id].currTile, w.units[id].data.radius)
    ensures Followed(w.grid, w.units[id], r, thrown)
  {
    var u := w.units[id];
    if !NeedsPath(u) {
      return w, false;
    }
    var g, moved;
    g, moved, thrown := Relocate(w.grid, u);
    if thrown {
      r := Install(w, moved, g);
      return;
    }
    var goal := w.units[u.target.value].currTile;
    var v := ReplanUnit(g, moved, goal);
    assert v == u.(currTile := v.currTile, currentSmoothedPath := v.currentSmoothedPath,
                   currentPathIndex := v.currentPathIndex);
    r := Install(w, v, g);
    ReplanIsFollowed(w, u, g, moved, v, r);
  }

  /** The relocate-then-plan branch of `FollowTarget` meets `Followed`. */
  lemma ReplanIsFollowed(w: World, u: Unit, g: Grid, moved: Unit, v: Unit, r: World)
    requires u.id in w.units && w.units[u.id] == u && NeedsPath(u)
    requires u.target.Some? && u.target.value != u.id && u.target.value in w.units
    requires forall c :: InBounds(c) ==> g[c].walkable == w.grid[c].walkable
    requires WorldToTileSpace(u.visualPos) == u.currTile ==> g == w.grid && moved == u
    requires WorldToTileSpace(u.visualPos) != u.currTile ==>
      var p := PlaceUnit(w.grid, u, WorldToTileSpace(u.visualPos));
      g == p.grid && moved == p.unit && !p.thrown
    requires moved == u.(currTile := moved.currTile)
    requires var goal := w.units[u.target.value].currTile;
      && v == moved.(currentSmoothedPath := v.currentSmoothedPath, currentPathIndex := v.currentPathIndex)
      && (!Plans(g, moved.currTile, goal) ==> v == moved)
      && (Plans(g, moved.currTile, goal) ==>
            && v.currentPathIndex == 0
            && v.currentSmoothedPath.Some?
            && |v.currentSmoothedPath.value| >= PathSubdivisions + 1
            && v.currentSmoothedPath.value[0] == TileToWorldSpace(moved.currTile, TileWorldY)
            && v.currentSmoothedPath.value[|v.currentSmoothedPath.value| - 1] == TileToWorldSpace(goal, TileWorldY))
    requires r.grid == g && r.units == w.units[u.id := v]
    ensures Followed(w.grid, u, r, false)
  {
    var goal := w.units[u.target.value].currTile;
    WalkIgnoresOccupants(w.grid, g, v.currTile, goal);
    assert r.units[u.target.value].currTile == goal;
  }

  /**
   Moves the unit's footprint to the tile under its visual when that differs
   from its anchor, as `PlaceUnit` does; the only new occupant is the unit
   itself, walkability is untouched, and the record changes in its anchor
   alone.
   */
  method Relocate(g: Grid, u: Unit) returns (g': Grid, moved: Unit, thrown: bool)
    ensures moved == u.(currTile := moved.currTile)
    ensures forall c :: InBounds(c) ==> g'[c].walkable == g[c].walkable
    ensures forall c :: InBounds(c) && g'[c].occupant.Some? ==>
      g'[c].occupant == Some(u.id) || g'[c].occupant == g[c].occupant
    ensures MovesOnly(g, g', u.id)
    ensures moved.currTile != u.currTile ==> Holds(g', u.id, moved.currTile, u.data.radius)
    ensures WorldToTileSpace(u.visualPos) == u.currTile ==> g' == g && moved == u && !thrown
    ensures WorldToTileSpace(u.visualPos) != u.currTile ==>
      var p := PlaceUnit(g, u, WorldToTileSpace(u.visualPos));
      g' == p.grid && moved == p.unit && thrown == p.thrown
  {
    g', moved, thrown := g, u, false;
    var tile := WorldToTileSpace(u.visualPos);
    if tile != u.currTile {
      var p := PlaceUnit(g, u, tile);
      PlaceUnitOccupants(g, u, tile);
      g', moved, thrown := p.grid, p.unit, p.thrown;
    }
  }

  /**
   Writes back a unit's updated record and the grid its move produced. The
   record keeps its identity and target and the grid's new occupants are
   that unit, so the registry stays consistent.
   */
  function Install(w: World, v: Unit, g: Grid): (r: World)
    requires Valid(w) && v.id in w.units && v.target == w.units[v.id].target
    requires forall c :: InBounds(c) && g[c].occupant.Some? ==>
      g[c].occupant == Some(v.id) || g[c].occupant == w.grid[c].occupant
    ensures Valid(r)
    ensures r.active == w.active && r.pending == w.pending && r.nextId == w.nextId
    ensures r.grid == g && v.id in r.units && r.units == w.units[v.id := v] && r.units[v.id] == v
  {
    ReplaceKeepsValid(w, v, g);
    w.(grid := g, units := w.units[v.id := v])
  }

  /**
   Plans from the unit's anchor to `goal` and, when a path of at least two
   tiles exists, stores its smoothed world-space version and restarts it
   from its first point; otherwise the unit is untouched.
   */
  method ReplanUnit(g: Grid, u: Unit, goal: Coord) returns (v: Unit)
    ensures v == u.(currentSmoothedPath := v.currentSmoothedPath, currentPathIndex := v.currentPathIndex)
    ensures !Plans(g, u.currTile, goal) ==> v == u
    ensures Plans(g, u.currTile, goal) ==>
      && v.currentPathIndex == 0
      && v.currentSmoothedPath.Some?
      && |v.currentSmoothedPath.value| >= PathSubdivisions + 1
      && v.currentSmoothedPath.value[0] == TileToWorldSpace(u.currTile, TileWorldY)
      && v.currentSmoothedPath.value[|v.currentSmoothedPath.value| - 1] == TileToWorldSpace(goal, TileWorldY)
  {
    var smooth := PlanSmoothPath(g, u.currTile, goal);
    if smooth.None? {
      return u;
    }
    v := u.(currentSmoothedPath := smooth, currentPathIndex := 0);
  }

  /**
   The path the AI would adopt from `start` to `goal`: the planned tile path
   lifted to world space and smoothed. One is adopted exactly when a walk of
   at least two tiles leads from `start` to `goal`.
   */
  method PlanSmoothPath(g: Grid, start: Coord, goal: Coord) returns (s: Option<seq<Vec3>>)
    ensures s.Some? <==> Plans(g, start, goal)
    ensures s.Some? ==> |s.value| >= PathSubdivisions + 1
    ensures s.Some? ==> s.value[0] == TileToWorldSpace(start, TileWorldY)
    ensures s.Some? ==> s.value[|s.value| - 1] == TileToWorldSpace(goal, TileWorldY)
  {
    var path := FindPath(g, start, goal);
    if path.None? || |path.value| < 2 {
      return None;
    }
    var n := |path.value|;
    assert path.value[0] != path.value[n - 1];
    var points := LiftPath(path.value);
    var smooth := CatmullRomSpline(points, PathSubdivisions);
    assert |smooth| == (n - 1) * 5 + 1 && (n - 1) * 5 >= 5;
    assert points[0] == TileToWorldSpace(start, TileWorldY);
    assert smooth[|smooth| - 1] == points[n - 1] == TileToWorldSpace(goal, TileWorldY);
    return Some(smooth);
  }

  /**
   Replacing a unit's record by one with the same identity and target, and
   the grid by one whose occupants are that unit or the previous ones, keeps
   the registry consistent.
   */
  lemma ReplaceKeepsValid(w: World, v: Unit, g: Grid)
    requires Valid(w) && v.id in w.units && v.target == w.units[v.id].target
    requires forall c :: InBounds(c) && g[c].occupant.Some? ==>
      g[c].occupant == Some(v.id) || g[c].occupant == w.grid[c].occupant
    ensures Valid(w.(grid := g, units := w.units[v.id := v]))
  {
    var r := w.(grid := g, units := w.units[v.id := v]);
    forall i | 0 <= i < |r.active|
      ensures r.active[i] in r.units
    {
      assert w.active[i] in w.units;
    }
  }

  /** The distance never reaches the scan's initial bound, so every opposing unit is a candidate. */
  ghost predicate Bounded(dist: (Coord, Coord) -> int) {
    forall a: Coord, b: Coord :: dist(a, b) < Int32Max
  }

  /**
   The target `id` holds in `r` was chosen in a frame that started at `w`:
   it is an active unit of the other side, and with a bounded distance one
   is chosen exactly when such a unit exists.
   */
  ghost predicate AimsRight(w: World, r: World, id: UnitId, dist: (Coord, Coord) -> int)
    requires id in w.units && id in r.units
    requires forall k :: 0 <= k < |w.active| ==> w.active[k] in w.units
  {
    && (r.units[id].target.Some? ==>
          exists i :: 0 <= i < |w.active| && w.active[i] == r.units[id].target.value && Opposes(w, id, i))
    && (Bounded(dist) ==>
          (r.units[id].target.Some? <==> exists i :: 0 <= i < |w.active| && Opposes(w, id, i)))
  }

  /**
   `r` is the frame started at `w` after the turns of the units in `done`:
   every record changed at most in target, anchor and path; records of
   units that have not had a turn, or are not characters, are unchanged;
   and every character that has had a turn aims right.
   */
  ghost predicate Turned(w: World, r: World, done: seq<UnitId>, dist: (Coord, Coord) -> int)
    requires forall k :: 0 <= k < |w.active| ==> w.active[k] in w.units
  {
    && r.units.Keys == w.units.Keys
    && (forall id :: id in w.units ==> SameBody(r.units[id], w.units[id]))
    && (forall id :: id in w.units && (id !in done || w.units[id].data.unitType != Character) ==>
          r.units[id] == w.units[id])
    && (forall id :: id in w.units && id in done && w.units[id].data.unitType == Character ==>
          AimsRight(w, r, id, dist))
    && Moved(w, r, done)
  }

  /** An occupant a frame's turns may have put down or taken up: nobody, or a character of `done`. */
  predicate Mover(w: World, done: seq<UnitId>, o: Option<UnitId>) {
    o.None? || (o.value in done && o.value in w.units && w.units[o.value].data.unitType == Character)
  }

  /**
   What the turns of `done` did to the grid: walkability is kept; a cell
   whose occupant changed went from nobody or a mover to nobody or a mover;
   and a unit whose anchor changed had a turn and holds every on-map cell
   of its footprint at the new anchor.
   */
  ghost predicate Moved(w: World, r: World, done: seq<UnitId>)
    requires r.units.Keys == w.units.Keys
  {
    && (forall c :: InBounds(c) ==> r.grid[c].walkable == w.grid[c].walkable)
    && (forall c :: InBounds(c) && r.grid[c].occupant != w.grid[c].occupant ==>
          Mover(w, done, w.grid[c].occupant) && Mover(w, done, r.grid[c].occupant))
    && (forall id :: id in w.units && r.units[id].currTile != w.units[id].currTile ==>
          id in done && Holds(r.grid, id, r.units[id].currTile, w.units[id].data.radius))
  }

  /** The grid half of `TurnExtends`: one more turn, by `a`, keeps `Moved` with `a` added. */
  lemma TurnExtendsMoved(w: World, r: World, done: seq<UnitId>, a: UnitId, r': World)
    requires r.units.Keys == w.units.Keys && r'.units.Keys == w.units.Keys
    requires a in w.units && r.units[a] == w.units[a]
    requires Moved(w, r, done)
    requires forall o :: o in r.units && o != a ==> r'.units[o] == r.units[o]
    requires r.units[a].data.unitType != Character ==> r' == r
    requires MovesOnly(r.grid, r'.grid, a)
    requires r'.units[a].currTile != r.units[a].currTile ==>
      Holds(r'.grid, a, r'.units[a].currTile, r.units[a].data.radius)
    ensures Moved(w, r', done + [a])
  {
    forall c | InBounds(c) && r'.grid[c].occupant != w.grid[c].occupant
      ensures Mover(w, done + [a], w.grid[c].occupant) && Mover(w, done + [a], r'.grid[c].occupant)
    {
      if r.grid[c].occupant != w.grid[c].occupant {
        assert Mover(w, done, w.grid[c].occupant) && Mover(w, done, r.grid[c].occupant);
      }
    }
    forall id | id in w.units && r'.units[id].currTile != w.units[id].currTile
      ensures id in done + [a] && Holds(r'.grid, id, r'.units[id].currTile, w.units[id].data.radius)
    {
      if id != a {
        assert Holds(r.grid, id, r.units[id].currTile, w.units[id].data.radius);
        forall c | InBounds(c) && InFootprint(r'.units[id].currTile, w.units[id].data.radius, c)
          ensures r'.grid[c].occupant == Some(id)
        {
          assert r.grid[c].occupant == Some(id);
        }
      }
    }
  }

  /** `Moved` for a prefix of the turns holds for any list of turns that contains it. */
  lemma MovedWiden(w: World, r: World, done: seq<UnitId>, more: seq<UnitId>)
    requires r.units.Keys == w.units.Keys
    requires forall x :: x in done ==> x in more
    requires Moved(w, r, done)
    ensures Moved(w, r, more)
  {
    forall c | InBounds(c) && r.grid[c].occupant != w.grid[c].occupant
      ensures Mover(w, more, w.grid[c].occupant) && Mover(w, more, r.grid[c].occupant)
    {
      assert Mover(w, done, w.grid[c].occupant) && Mover(w, done, r.grid[c].occupant);
    }
  }

  /** One more turn, by a unit that has not had one, extends the frame. */
  lemma TurnExtends(w: World, r: World, done: seq<UnitId>, a: UnitId, r': World, dist: (Coord, Coord) -> int)
    requires Valid(w) && r.active == w.active
    requires a in w.units && a !in done
    requires Turned(w, r, done, dist)
    requires r'.units.Keys == r.units.Keys
    requires forall o :: o in r.units && o != a ==> r'.units[o] == r.units[o]
    requires SameBody(r'.units[a], r.units[a])
    requires r.units[a].data.unitType != Character ==> r' == r
    requires r.units[a].data.unitType == Character ==>
      (r'.units[a].target.Some? <==> exists i :: 0 <= i < |r.active| && Candidate(r, a, dist, i))
    requires r.units[a].data.unitType == Character && r'.units[a].target.Some? ==>
      exists i :: 0 <= i < |r.active| && r.active[i] == r'.units[a].target.value && FirstNearest(r, a, dist, i)
    requires MovesOnly(r.grid, r'.grid, a)
    requires r'.units[a].currTile != r.units[a].currTile ==>
      Holds(r'.grid, a, r'.units[a].currTile, r.units[a].data.radius)
    ensures Turned(w, r', done + [a], dist)
  {
    assert r.units[a] == w.units[a];
    TurnExtendsMoved(w, r, done, a, r');
    forall id | id in w.units
      ensures SameBody(r'.units[id], w.units[id])
    {
      if id != a {
        assert r'.units[id] == r.units[id];
      }
    }
    if w.units[a].data.unitType == Character {
      ChoiceAimsRight(w, r, a, r', dist);
    }
    forall id | id in w.units && id in done && w.units[id].data.unitType == Character
      ensures AimsRight(w, r', id, dist)
    {
      assert AimsRight(w, r, id, dist);
      assert r'.units[id] == r.units[id];
    }
  }

  /** A target chosen by the nearest-enemy scan in the middle of a frame aims right for the whole frame. */
  lemma ChoiceAimsRight(w: World, r: World, a: UnitId, r': World, dist: (Coord, Coord) -> int)
    requires Valid(w) && r.active == w.active && r.units.Keys == w.units.Keys
    requires forall id :: id in w.units ==> r.units[id].isPlayerOwned == w.units[id].isPlayerOwned
    requires a in w.units && a in r'.units
    requires r'.units[a].target.Some? <==> exists i :: 0 <= i < |r.active| && Candidate(r, a, dist, i)
    requires r'.units[a].target.Some? ==>
      exists i :: 0 <= i < |r.active| && r.active[i] == r'.units[a].target.value && FirstNearest(r, a, dist, i)
    ensures AimsRight(w, r', a, dist)
  {
    if r'.units[a].target.Some? {
      var i :| 0 <= i < |r.active| && r.active[i] == r'.units[a].target.value && FirstNearest(r, a, dist, i);
      assert Opposes(w, a, i);
    }
    if Bounded(dist) && exists i :: 0 <= i < |w.active| && Opposes(w, a, i) {
      var i :| 0 <= i < |w.active| && Opposes(w, a, i);
      assert DistanceTo(r, a, dist, i) < Int32Max;
      assert Candidate(r, a, dist, i);
    }
  }

  /** What a frame that has run up to position `j` of the iteration order says about each unit. */
  lemma TurnedPrefix(w: World, r: World, j: int, dist: (Coord, Coord) -> int)
    requires Valid(w) && 0 <= j <= |w.active|
    requires Turned(w, r, w.active[..j], dist)
    ensures forall k :: j <= k < |w.active| ==> r.units[w.active[k]] == w.units[w.active[k]]
    ensures forall k :: 0 <= k < j && w.units[w.active[k]].data.unitType == Character ==>
      AimsRight(w, r, w.active[k], dist)
    ensures 0 < j ==> StoppedAt(w, r, j - 1, dist)
  {
    forall k | j <= k < |w.active|
      ensures r.units[w.active[k]] == w.units[w.active[k]]
    {
      forall m | 0 <= m < j
        ensures w.active[..j][m] != w.active[k]
      {
        assert w.active[..j][m] == w.active[m];
      }
    }
    forall k | 0 <= k < j
      ensures w.active[k] in w.active[..j]
    {
      assert w.active[..j][k] == w.active[k];
    }
  }

  /**
   A frame that ended with the turn at position `j`: the units after it keep
   their records, and every character up to it aims right.
   */
  ghost predicate StoppedAt(w: World, r: World, j: int, dist: (Coord, Coord) -> int)
    requires Valid(w) && 0 <= j < |w.active| && r.units.Keys == w.units.Keys
  {
    && (forall k :: j < k < |w.active| ==> r.units[w.active[k]] == w.units[w.active[k]])
    && (forall k :: 0 <= k <= j && w.units[w.active[k]].data.unitType == Character ==>
          AimsRight(w, r, w.active[k], dist))
  }

  /** The unit at position `i` of the iteration order has not had its turn yet when the frame reaches it. */
  lemma NextInLine(w: World, i: int)
    requires Valid(w) && 0 <= i < |w.active|
    ensures w.active[i] !in w.active[..i]
    ensures w.active[..i + 1] == w.active[..i] + [w.active[i]]
  {
    forall m | 0 <= m < i
      ensures w.active[..i][m] != w.active[i]
    {
      assert w.active[..i][m] == w.active[m];
    }
  }

  /** The turn of the unit at position `i` of the iteration order, within a frame started at `w`. */
  method TakeTurn(w: World, r: World, i: int, dist: (Coord, Coord) -> int) returns (r': World, thrown: bool)
    requires Valid(w) && Valid(r) && 0 <= i < |w.active|
    requires r.active == w.active && r.pending == w.pending && r.nextId == w.nextId
    requires Turned(w, r, w.active[..i], dist)
    ensures Valid(r')
    ensures r'.active == w.active && r'.pending == w.pending && r'.nextId == w.nextId
    ensures Turned(w, r', w.active[..i + 1], dist)
  {
    var a := w.active[i];
    NextInLine(w, i);
    r', thrown := UpdateUnit(r, a, dist);
    TurnExtends(w, r, w.active[..i], a, r', dist);
  }

  /**
   The AI frame: every active unit takes its turn, in iteration order. A
   turn whose move throws ends the frame: the units after it keep their
   records. The movement half, and the index overrun it can throw at the
   end of a path, are not part of this model.
   */
  method Update(w: World, dist: (Coord, Coord) -> int) returns (r: World, thrown: bool)
    requires Valid(w)
    ensures Valid(r)
    ensures r.active == w.active && r.pending == w.pending && r.nextId == w.nextId
    ensures r.units.Keys == w.units.Keys
    ensures forall id :: id in w.units ==> SameBody(r.units[id], w.units[id])
    ensures forall id :: id in w.units && id !in w.active ==> r.units[id] == w.units[id]
    ensures forall id :: id in w.units && w.units[id].data.unitType != Character ==> r.units[id] == w.units[id]
    ensures !thrown ==> forall k :: 0 <= k < |w.active| && w.units[w.active[k]].data.unitType == Character ==>
      AimsRight(w, r, w.active[k], dist)
    ensures thrown ==> exists j :: 0 <= j < |w.active| && StoppedAt(w, r, j, dist)
    ensures forall c :: InBounds(c) ==> r.grid[c].walkable == w.grid[c].walkable
    ensures Moved(w, r, w.active)
  {
    r, thrown := w, false;
    var i := 0;
    while i < |w.active|
      invariant 0 <= i <= |w.active|
      invariant Valid(r)
      invariant r.active == w.active && r.pending == w.pending && r.nextId == w.nextId
      invariant Turned(w, r, w.active[..i], dist)
    {
      var t;
      r, t := TakeTurn(w, r, i, dist);
      i := i + 1;
      if t {
        TurnedPrefix(w, r, i, dist);
        MovedWiden(w, r, w.active[..i], w.active);
        thrown := true;
        return;
      }
    }
    TurnedPrefix(w, r, i, dist);
    assert w.active[..i] == w.active;
  }
}
