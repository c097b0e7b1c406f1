/**
 The grid and occupancy store: walkability and per-cell occupant of every
 tile, the disk-shaped unit footprint, the occupancy check, the move of a
 unit between footprints, unit creation, the release of a defeated unit's
 cells, and the deferred removal of defeated units from the active set.
 */
module MapSystem {
  import opened Nullable
  import opened Space
  import opened Types

  /** Every in-bounds cell, and only those, has a tile (the `Tile[SizeX, SizeY]` array). */
  ghost predicate Complete(m: map<Coord, Tile>) {
    forall c :: c in m <==> InBounds(c)
  }

  function BlankGrid(): (m: map<Coord, Tile>)
    ensures Complete(m)
  {
    var m := map x: int, y: int | 0 <= x < SizeX && 0 <= y < SizeY :: Coord(x, y) := Tile(false, None);
    assert forall c :: InBounds(c) ==> c == Coord(c.x, c.y) && c in m;
    m
  }

  type Grid = m: map<Coord, Tile> | Complete(m) witness BlankGrid()

  predicate OnBorder(c: Coord) {
    c.x == 0 || c.y == 0 || c.x == SizeX - 1 || c.y == SizeY - 1
  }

  /**
   The generated map: border cells are unwalkable, an interior cell is
   walkable unless the random draw blocked it (`blocked`), nothing is occupied.
   */
  function GenerateMap(blocked: set<Coord>): (g: Grid)
    ensures forall c :: InBounds(c) && OnBorder(c) ==> !g[c].walkable
    ensures forall c :: InBounds(c) && !OnBorder(c) ==> (g[c].walkable <==> c !in blocked)
    ensures forall c :: InBounds(c) ==> g[c].occupant.None?
  {
    var m := map x: int, y: int | 0 <= x < SizeX && 0 <= y < SizeY
      :: Coord(x, y) := Tile(!OnBorder(Coord(x, y)) && Coord(x, y) !in blocked, None);
    assert forall c :: InBounds(c) ==> c == Coord(c.x, c.y) && c in m;
    m
  }

  // ---------------------------------------------------------------------------
  // Footprint

  /**
   Cell `c` lies in the footprint of a radius-`radius` unit anchored at
   `center`: an offset strictly inside the square of half-width `radius`,
   strictly inside the disk of that radius, and on the map.
   */
  predicate InFootprint(center: Coord, radius: int, c: Coord) {
    && InBounds(c)
    && -radius < c.x - center.x < radius
    && -radius < c.y - center.y < radius
    && Sq(c.x - center.x) + Sq(c.y - center.y) < Sq(radius)
  }

  /** Row-major order of the enumeration: by x first, then by y. */
  predicate Before(a: Coord, b: Coord) {
    a.x < b.x || (a.x == b.x && a.y < b.y)
  }

  /** The footprint cells in column `center.x + dx`, from offset `dy` upwards. */
  function CoveredColumn(center: Coord, radius: int, dx: int, dy: int): (r: seq<Coord>)
    decreases radius - dy
    ensures forall c :: c in r <==>
      && c.x == center.x + dx
      && dy <= c.y - center.y < radius
      && InBounds(c)
      && Sq(dx) + Sq(c.y - center.y) < Sq(radius)
    ensures forall i, j :: 0 <= i < j < |r| ==> r[i].y < r[j].y
  {
    if dy >= radius then []
    else
      var t := Coord(center.x + dx, center.y + dy);
      var rest := CoveredColumn(center, radius, dx, dy + 1);
      if InBounds(t) && Sq(dx) + Sq(dy) < Sq(radius) then [t] + rest else rest
  }

  /** The footprint cells in the columns from offset `dx` upwards. */
  function CoveredColumns(center: Coord, radius: int, dx: int): (r: seq<Coord>)
    decreases radius - dx
    ensures forall c :: c in r <==>
      && dx <= c.x - center.x < radius
      && -radius < c.y - center.y < radius
      && InBounds(c)
      && Sq(c.x - center.x) + Sq(c.y - center.y) < Sq(radius)
    ensures forall i, j :: 0 <= i < j < |r| ==> Before(r[i], r[j])
  {
    if dx >= radius then []
    else
      var col := CoveredColumn(center, radius, dx, -radius + 1);
      var rest := CoveredColumns(center, radius, dx + 1);
      assert forall c :: c in col ==> c.x == center.x + dx;
      assert forall c :: c in rest ==> c.x > center.x + dx;
      col + rest
  }

  /**
   The tiles covered by a unit of radius `radius` anchored at `center`:
   exactly the on-map footprint cells, each once, in the source's order.
   */
  function GetTilesCovered(center: Coord, radius: int): (r: seq<Coord>)
    ensures forall c :: c in r <==> InFootprint(center, radius, c)
    ensures forall i, j :: 0 <= i < j < |r| ==> Before(r[i], r[j])
  {
    CoveredColumns(center, radius, -radius + 1)
  }

  /** Radius 1 is the anchor cell alone (when on the map); a radius of 0 or less covers nothing. */
  lemma TilesCoveredSmallRadius(center: Coord, radius: int)
    ensures radius <= 0 ==> GetTilesCovered(center, radius) == []
    ensures radius == 1 && InBounds(center) ==> GetTilesCovered(center, radius) == [center]
    ensures radius == 1 && !InBounds(center) ==> GetTilesCovered(center, radius) == []
  {
    if radius == 1 {
      assert CoveredColumn(center, 1, 0, 1) == [];
      assert CoveredColumns(center, 1, 1) == [];
    }
  }

  /** Every covered tile is on the map, so the out-of-bounds test of `IsTileOpen` never fires. */
  lemma TilesCoveredInBounds(center: Coord, radius: int)
    ensures forall c :: c in GetTilesCovered(center, radius) ==> InBounds(c)
  {
  }

  // ---------------------------------------------------------------------------
  // Occupancy check

  /** The scan of `IsTileOpen`: bounds first, then walkability and occupancy. */
  function AllOpen(g: Grid, tiles: seq<Coord>): (r: bool)
    ensures r <==> forall t :: t in tiles ==> InBounds(t) && g[t].walkable && g[t].occupant.None?
  {
    if |tiles| == 0 then true
    else
      var t := tiles[0];
      if !InBounds(t) then false
      else if !g[t].walkable || g[t].occupant.Some? then false
      else AllOpen(g, tiles[1..])
  }

  /**
   Whether a radius-`radius` unit could stand at `pos`: every on-map footprint
   cell is walkable and unoccupied, by any unit at all. Off-map footprint cells
   are not examined.
   */
  function IsTileOpen(g: Grid, pos: Coord, radius: int): (r: bool)
    ensures r <==> forall c :: InFootprint(pos, radius, c) ==> g[c].walkable && g[c].occupant.None?
  {
    AllOpen(g, GetTilesCovered(pos, radius))
  }

  // ---------------------------------------------------------------------------
  // Moving a unit between footprints

  /** Clears every listed cell whose occupant is `id`. */
  function Release(g: Grid, tiles: seq<Coord>, id: UnitId): (r: Grid)
    requires forall t :: t in tiles ==> InBounds(t)
    ensures forall c :: InBounds(c) ==>
      r[c] == if c in tiles && g[c].occupant == Some(id) then g[c].(occupant := None) else g[c]
  {
    if |tiles| == 0 then g
    else
      var t := tiles[0];
      var g' := if g[t].occupant == Some(id) then g[t := g[t].(occupant := None)] else g;
      Release(g', tiles[1..], id)
  }

  /** Marks every listed cell as held by `id`. */
  function Claim(g: Grid, tiles: seq<Coord>, id: UnitId): (r: Grid)
    requires forall t :: t in tiles ==> InBounds(t)
    ensures forall c :: InBounds(c) ==>
      r[c] == if c in tiles then g[c].(occupant := Some(id)) else g[c]
  {
    if |tiles| == 0 then g
    else
      var t := tiles[0];
      Claim(g[t := g[t].(occupant := Some(id))], tiles[1..], id)
  }

  /** A cell `id` may move into: walkable, and free or already its own. */
  predicate Claimable(g: Grid, t: Coord, id: UnitId)
    requires InBounds(t)
  {
    g[t].walkable && (g[t].occupant.None? || g[t].occupant == Some(id))
  }

  /** The validation scan of `PlaceUnit`. */
  function AllClaimable(g: Grid, tiles: seq<Coord>, id: UnitId): (r: bool)
    requires forall t :: t in tiles ==> InBounds(t)
    ensures r <==> forall t :: t in tiles ==> Claimable(g, t, id)
  {
    if |tiles| == 0 then true
    else Claimable(g, tiles[0], id) && AllClaimable(g, tiles[1..], id)
  }

  /**
   The state a move leaves behind. `thrown` marks a move that raised an
   exception after its effects: the closing log line reads the map cell at
   the anchor, which does not exist for an anchor off the map.
   */
  datatype Placement = Placement(grid: Grid, unit: Unit, placed: bool, thrown: bool)

  /**
   Moves `u` to anchor `pos`. The old footprint is released first; then the
   new footprint is validated; on success it is claimed and the anchor
   updated. On failure the released cells stay released. A successful move
   to an anchor off the map keeps its effects and then throws.
   */
  function PlaceUnit(g: Grid, u: Unit, pos: Coord): (r: Placement)
    ensures r.placed <==> forall c :: InFootprint(pos, u.data.radius, c) ==>
      g[c].walkable && (g[c].occupant.None? || g[c].occupant == Some(u.id))
    ensures r.thrown <==> r.placed && !InBounds(pos)
    ensures forall c :: InBounds(c) ==> r.grid[c].walkable == g[c].walkable
    ensures r.placed ==> r.unit == u.(currTile := pos)
    ensures r.placed ==> forall c :: InBounds(c) ==>
      r.grid[c].occupant ==
        if InFootprint(pos, u.data.radius, c) then Some(u.id)
        else if InFootprint(u.currTile, u.data.radius, c) && g[c].occupant == Some(u.id) then None
        else g[c].occupant
    ensures !r.placed ==> r.unit == u
    ensures !r.placed ==> forall c :: InBounds(c) ==>
      r.grid[c].occupant ==
        if InFootprint(u.currTile, u.data.radius, c) && g[c].occupant == Some(u.id) then None
        else g[c].occupant
  {
    var released := ReleaseFootprint(g, u);
    var newTiles := GetTilesCovered(pos, u.data.radius);
    if !AllClaimable(released, newTiles, u.id) then
      Placement(released, u, false, false)
    else
      Placement(ClaimFootprint(released, pos, u.data.radius, u.id), u.(currTile := pos), true, !InBounds(pos))
  }

  /** The first half of a move: the cells of `u`'s current footprint that it holds become free. */
  function ReleaseFootprint(g: Grid, u: Unit): (r: Grid)
    ensures forall c :: InBounds(c) ==> r[c].walkable == g[c].walkable
    ensures forall c :: InBounds(c) ==>
      r[c].occupant ==
        if InFootprint(u.currTile, u.data.radius, c) && g[c].occupant == Some(u.id) then None
        else g[c].occupant
  {
    Release(g, GetTilesCovered(u.currTile, u.data.radius), u.id)
  }

  /** The second half of a successful move: every cell of the footprint at `pos` is held by `id`. */
  function ClaimFootprint(g: Grid, pos: Coord, radius: int, id: UnitId): (r: Grid)
    ensures forall c :: InBounds(c) ==> r[c].walkable == g[c].walkable
    ensures forall c :: InBounds(c) ==>
      r[c].occupant == if InFootprint(pos, radius, c) then Some(id) else g[c].occupant
  {
    Claim(g, GetTilesCovered(pos, radius), id)
  }

  /** The cells holding `u` are exactly its current footprint. */
  ghost predicate Owns(g: Grid, u: Unit) {
    forall c :: InBounds(c) ==> (g[c].occupant == Some(u.id) <==> InFootprint(u.currTile, u.data.radius, c))
  }

  /** A successful move keeps the mover's ownership exact at its new anchor. */
  lemma PlaceUnitKeepsOwnership(g: Grid, u: Unit, pos: Coord)
    requires Owns(g, u)
    ensures PlaceUnit(g, u, pos).placed ==> Owns(PlaceUnit(g, u, pos).grid, PlaceUnit(g, u, pos).unit)
  {
  }

  /** A move, successful or not, never touches the cells of another unit. */
  lemma PlaceUnitSparesOthers(g: Grid, u: Unit, pos: Coord, v: Unit)
    requires Owns(g, v) && v.id != u.id
    ensures Owns(PlaceUnit(g, u, pos).grid, v)
    ensures forall c :: InBounds(c) && g[c].occupant == Some(v.id) ==> PlaceUnit(g, u, pos).grid[c] == g[c]
  {
  }

  /**
   A rejected move is not a no-op: the unit keeps its anchor, but none of
   its old footprint cells holds it any more.
   */
  lemma PlaceUnitFailureReleases(g: Grid, u: Unit, pos: Coord)
    requires Owns(g, u)
    requires !PlaceUnit(g, u, pos).placed
    ensures PlaceUnit(g, u, pos).unit.currTile == u.currTile
    ensures forall c :: InBounds(c) ==> PlaceUnit(g, u, pos).grid[c].occupant != Some(u.id)
    ensures InFootprint(u.currTile, u.data.radius, u.currTile) ==> !Owns(PlaceUnit(g, u, pos).grid, u)
  {
  }

  /** After a move, every occupied cell holds the mover or the unit it held before. */
  lemma PlaceUnitOccupants(g: Grid, u: Unit, pos: Coord)
    ensures PlaceUnit(g, u, pos).unit == u.(currTile := PlaceUnit(g, u, pos).unit.currTile)
    ensures forall c :: InBounds(c) && PlaceUnit(g, u, pos).grid[c].occupant.Some? ==>
      PlaceUnit(g, u, pos).grid[c].occupant == Some(u.id) || PlaceUnit(g, u, pos).grid[c].occupant == g[c].occupant
  {
  }

  // ---------------------------------------------------------------------------
  // The unit registry

  /**
   The map system's unit state: every unit object ever created (`units`),
   the members of the set `Units` in the order new units were added
   (`active`; the set's own enumeration reuses a removed unit's slot, which
   this order does not follow), the attackers whose
   deferred removal of their target is scheduled for the next frame
   (`pending`), and the next fresh id.
   */
  datatype World = World(
    grid: Grid,
    units: map<UnitId, Unit>,
    active: seq<UnitId>,
    pending: set<UnitId>,
    nextId: UnitId)

  ghost predicate Valid(w: World) {
    && (forall id :: id in w.units ==> id < w.nextId && w.units[id].id == id)
    && (forall i :: 0 <= i < |w.active| ==> w.active[i] in w.units)
    && Distinct(w.active)
    && (forall id :: id in w.units && w.units[id].target.Some? ==> w.units[id].target.value in w.units)
    && (forall c :: InBounds(c) && w.grid[c].occupant.Some? ==> w.grid[c].occupant.value in w.units)
  }

  predicate Distinct<T(==)>(s: seq<T>) {
    forall i, j :: 0 <= i < j < |s| ==> s[i] != s[j]
  }

  /** Placing a unit whose id holds no cell on an open footprint succeeds and claims exactly that footprint. */
  lemma PlaceOnOpenFootprint(g: Grid, u: Unit)
    requires IsTileOpen(g, u.currTile, u.data.radius)
    requires forall c :: InBounds(c) ==> g[c].occupant != Some(u.id)
    ensures PlaceUnit(g, u, u.currTile).placed
    ensures PlaceUnit(g, u, u.currTile).unit == u
    ensures Owns(PlaceUnit(g, u, u.currTile).grid, u)
    ensures forall c :: InBounds(c) && !InFootprint(u.currTile, u.data.radius, c) ==>
      PlaceUnit(g, u, u.currTile).grid[c] == g[c]
    ensures forall c :: InBounds(c) && InFootprint(u.currTile, u.data.radius, c) ==>
      PlaceUnit(g, u, u.currTile).grid[c] == g[c].(occupant := Some(u.id))
  {
  }

  /**
   The outcome of a creation: the state afterwards, the new unit's id when
   the call returns one, and whether the call threw instead of returning.
   */
  datatype Creation = Creation(world: World, created: Option<UnitId>, thrown: bool)

  /**
   Creates a unit at the tile under its visual, provided the footprint is
   open there; otherwise nothing changes and no unit is returned. The unit
   is registered before it is placed, so when the tile is off the map (its
   clipped footprint is then empty or open) the placement throws and the
   registered unit is left behind without being returned.
   */
  function CreateUnit(w: World, visualPos: Vec3, isPlayerOwned: bool, data: UnitData): (r: Creation)
    requires Valid(w)
    ensures Valid(r.world)
    ensures var pos := WorldToTileSpace(visualPos);
      && (r.created.Some? <==> IsTileOpen(w.grid, pos, data.radius) && InBounds(pos))
      && (r.thrown <==> IsTileOpen(w.grid, pos, data.radius) && !InBounds(pos))
    ensures !IsTileOpen(w.grid, WorldToTileSpace(visualPos), data.radius) ==> r.world == w
    ensures r.created.Some? ==> r.created.value == w.nextId
    ensures IsTileOpen(w.grid, WorldToTileSpace(visualPos), data.radius) ==>
      var id := w.nextId;
      var u := NewUnit(id, visualPos, isPlayerOwned, WorldToTileSpace(visualPos), data);
      && id !in w.units
      && r.world.units == w.units[id := u]
      && r.world.active == w.active + [id]
      && r.world.pending == w.pending
      && Owns(r.world.grid, u)
      && (forall c :: InBounds(c) && InFootprint(u.currTile, data.radius, c) ==>
            r.world.grid[c] == w.grid[c].(occupant := Some(id)))
      && (forall c :: InBounds(c) && !InFootprint(u.currTile, data.radius, c) ==> r.world.grid[c] == w.grid[c])
  {
    var pos := WorldToTileSpace(visualPos);
    if !IsTileOpen(w.grid, pos, data.radius) then
      Creation(w, None, false)
    else
      var id := w.nextId;
      var u := NewUnit(id, visualPos, isPlayerOwned, pos, data);
      PlaceOnOpenFootprint(w.grid, u);
      var p := PlaceUnit(w.grid, u, u.currTile);
      RegisterKeepsValid(w, u, p.grid);
      var w' := World(p.grid, w.units[id := u], w.active + [id], w.pending, w.nextId + 1);
      if p.thrown then Creation(w', None, true) else Creation(w', Some(id), false)
  }

  /**
   A radius-1 unit dropped off the map: its clipped footprint is empty, so
   the tile counts as open, the unit is registered, and the call throws.
   */
  lemma CreateUnitOffMapThrows(w: World, visualPos: Vec3, isPlayerOwned: bool, data: UnitData)
    requires Valid(w)
    requires data.radius == 1 && !InBounds(WorldToTileSpace(visualPos))
    ensures var r := CreateUnit(w, visualPos, isPlayerOwned, data);
      && r.thrown && r.created.None?
      && w.nextId in r.world.units && r.world.active == w.active + [w.nextId]
  {
    var pos := WorldToTileSpace(visualPos);
    assert forall c :: InFootprint(pos, 1, c) ==> c == pos;
  }

  lemma RegisterKeepsValid(w: World, u: Unit, g: Grid)
    requires Valid(w)
    requires u.id == w.nextId && u.target.None?
    requires forall c :: InBounds(c) && g[c].occupant.Some? ==>
      g[c].occupant == Some(u.id) || g[c].occupant == w.grid[c].occupant
    ensures Valid(World(g, w.units[u.id := u], w.active + [u.id], w.pending, w.nextId + 1))
  {
    var w' := World(g, w.units[u.id := u], w.active + [u.id], w.pending, w.nextId + 1);
    assert u.id !in w.active;
    forall i | 0 <= i < |w'.active|
      ensures w'.active[i] in w'.units
    {
      if i < |w.active| {
        assert w'.active[i] == w.active[i];
      }
    }
  }

  /**
   One attack by `attacker` on its target: the target takes the attacker's
   strength as damage; if that leaves it at or below zero health, the cells
   it still holds in its footprint are cleared and a removal is scheduled.
   The scheduled removal reads the attacker's target only when it runs, so
   it is the attacker that is recorded.
   */
  function AttackTarget(w: World, attacker: UnitId): (r: World)
    requires attacker in w.units
    requires w.units[attacker].target.Some? ==> w.units[attacker].target.value in w.units
    ensures w.units[attacker].target.None? ==> r == w
    ensures w.units[attacker].target.Some? ==>
      var tid := w.units[attacker].target.value;
      var t := w.units[tid];
      var hit := Damage(t, w.units[attacker].data.strength);
      && r.units == w.units[tid := hit]
      && r.active == w.active && r.nextId == w.nextId
      && (hit.currHealth > 0.0 ==> r.grid == w.grid && r.pending == w.pending)
      && (hit.currHealth <= 0.0 ==>
            && r.pending == w.pending + {attacker}
            && forall c :: InBounds(c) ==>
                 r.grid[c] == if InFootprint(t.currTile, t.data.radius, c) && w.grid[c].occupant == Some(tid)
                              then w.grid[c].(occupant := None) else w.grid[c])
  {
    match w.units[attacker].target
    case None => w
    case Some(tid) =>
      var hit := Damage(w.units[tid], w.units[attacker].data.strength);
      var units := w.units[tid := hit];
      if hit.currHealth <= 0.0 then
        var g := Release(w.grid, GetTilesCovered(hit.currTile, hit.data.radius), tid);
        w.(units := units, grid := g, pending := w.pending + {attacker})
      else
        w.(units := units)
  }

  /** An attack keeps the registry consistent; a defeated target no longer holds any cell. */
  lemma AttackTargetKeepsValid(w: World, attacker: UnitId)
    requires Valid(w) && attacker in w.units
    ensures Valid(AttackTarget(w, attacker))
    ensures w.units[attacker].target.Some? && Owns(w.grid, w.units[w.units[attacker].target.value]) ==>
      var tid := w.units[attacker].target.value;
      var r := AttackTarget(w, attacker);
      r.units[tid].currHealth <= 0.0 ==> forall c :: InBounds(c) ==> r.grid[c].occupant != Some(tid)
  {
  }

  /** The active units that survive a removal pass, in their original order. */
  function Survivors(active: seq<UnitId>, pending: set<UnitId>): (r: seq<UnitId>)
    ensures forall id :: id in r <==> id in active && id !in pending
    ensures |r| <= |active|
    ensures Distinct(active) ==> Distinct(r)
  {
    if |active| == 0 then []
    else if active[0] in pending then Survivors(active[1..], pending)
    else [active[0]] + Survivors(active[1..], pending)
  }

  /**
   A removal pass keeps the survivors' relative order: it works piecewise
   on any split of the list.
   */
  lemma {:induction false} SurvivorsAppend(a: seq<UnitId>, b: seq<UnitId>, pending: set<UnitId>)
    ensures Survivors(a + b, pending) == Survivors(a, pending) + Survivors(b, pending)
  {
    if |a| == 0 {
      assert a + b == b;
    } else {
      assert (a + b)[0] == a[0];
      assert (a + b)[1..] == a[1..] + b;
      SurvivorsAppend(a[1..], b, pending);
    }
  }

  /** The units the scheduled removals take out: the current target of every recorded attacker. */
  function RemovalTargets(w: World): (r: set<UnitId>)
    ensures forall t :: t in r <==> exists a :: a in w.pending && a in w.units && w.units[a].target == Some(t)
  {
    set a | a in w.pending && a in w.units && w.units[a].target.Some? :: w.units[a].target.value
  }

  /**
   The deferred `Units.Remove` calls, run at the next frame: each recorded
   attacker's target as it is now leaves the active set; an attacker with
   no target removes nothing, and removing a unit twice is harmless.
   */
  function FlushRemovals(w: World): (r: World)
    ensures r.grid == w.grid && r.units == w.units && r.nextId == w.nextId
    ensures r.pending == {}
    ensures forall id :: id in r.active <==>
      id in w.active && !exists a :: a in w.pending && a in w.units && w.units[a].target == Some(id)
  {
    w.(active := Survivors(w.active, RemovalTargets(w)), pending := {})
  }

  lemma FlushRemovalsKeepsValid(w: World)
    requires Valid(w)
    ensures Valid(FlushRemovals(w))
  {
    var r := FlushRemovals(w);
    forall i | 0 <= i < |r.active|
      ensures r.active[i] in r.units
    {
      assert r.active[i] in r.active;
    }
  }

  /** A second removal pass changes nothing. */
  lemma FlushRemovalsIdempotent(w: World)
    ensures FlushRemovals(FlushRemovals(w)) == FlushRemovals(w)
  {
    assert RemovalTargets(FlushRemovals(w)) == {};
    SurvivorsNone(Survivors(w.active, RemovalTargets(w)));
  }

  lemma {:induction false} SurvivorsNone(active: seq<UnitId>)
    ensures Survivors(active, {}) == active
  {
    if |active| > 0 {
      SurvivorsNone(active[1..]);
      assert active == [active[0]] + active[1..];
    }
  }
}
