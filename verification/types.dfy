/**
 The records of the core: a map tile, the designer-supplied unit data, and
 the unit itself with its state and damage rules.
 */
module Types {
  import opened Nullable
  import opened Space

  /** Identity of a unit object; two units are the same reference iff their ids agree. */
  type UnitId = nat

  datatype UnitState = Idle | Navigating | Attacking

  datatype UnitType = Character | Base

  type PositiveReal = r: real | r > 0.0 witness 1.0

  /** The per-unit-kind data asset: footprint radius and combat stats. */
  datatype UnitData = UnitData(
    unitType: UnitType,
    powerRequired: real,
    radius: int,
    defense: PositiveReal,
    attackSpeed: real,
    strength: real,
    moveSpeed: real)

  /** One grid cell; its coordinates are the key under which the grid stores it. */
  datatype Tile = Tile(walkable: bool, occupant: Option<UnitId>)

  datatype Unit = Unit(
    id: UnitId,
    visualPos: Vec3,
    isPlayerOwned: bool,
    currTile: Coord,
    currAttackTimer: real,
    target: Option<UnitId>,
    currentPathBuffer: seq<Coord>,
    currentSmoothedPath: Option<seq<Vec3>>,
    currentPathIndex: int,
    state: UnitState,
    currHealth: real,
    data: UnitData)

  const StartingHealth: real := 100.0

  /** A freshly constructed unit: idle, at full health, anchored at `pos`, with no target and no path. */
  function NewUnit(id: UnitId, visualPos: Vec3, isPlayerOwned: bool, pos: Coord, data: UnitData): (u: Unit)
    ensures u.id == id && u.visualPos == visualPos && u.isPlayerOwned == isPlayerOwned && u.data == data
    ensures u.state == Idle && u.currHealth == StartingHealth && u.currTile == pos
    ensures u.target.None? && u.currentSmoothedPath.None? && u.currentPathIndex == 0 && u.currAttackTimer == 0.0
    ensures |u.currentPathBuffer| == SizeX * SizeY
  {
    Unit(id, visualPos, isPlayerOwned, pos, 0.0, None, seq(SizeX * SizeY, _ => Coord(0, 0)),
         None, 0, Idle, StartingHealth, data)
  }

  datatype StateChange = StateChange(unit: Unit, changed: bool)

  /** Switch to `s`; reports whether the state actually changed. */
  function SetState(u: Unit, s: UnitState): (r: StateChange)
    ensures r.changed <==> s != u.state
    ensures r.unit.state == s
    ensures r.unit == u.(state := r.unit.state)
    ensures !r.changed ==> r.unit == u
  {
    if s == u.state then StateChange(u, false)
    else StateChange(u.(state := s), true)
  }

  /** Requesting the same state twice: the second request is a no-op that reports no change. */
  lemma SetStateIdempotent(u: Unit, s: UnitState)
    ensures SetState(SetState(u, s).unit, s) == StateChange(SetState(u, s).unit, false)
  {
  }

  /** Health loss from a hit of `amount`, scaled down by the unit's defense. */
  function Damage(u: Unit, amount: real): (v: Unit)
    ensures v == u.(currHealth := v.currHealth)
    ensures v.currHealth * u.data.defense == u.currHealth * u.data.defense - amount
  {
    u.(currHealth := u.currHealth - amount / u.data.defense)
  }

  /** A positive hit strictly lowers health; a non-negative one never raises it. */
  lemma DamageLowersHealth(u: Unit, amount: real)
    ensures amount > 0.0 ==> Damage(u, amount).currHealth < u.currHealth
    ensures amount >= 0.0 ==> Damage(u, amount).currHealth <= u.currHealth
  {
    var v := Damage(u, amount);
    assert (v.currHealth - u.currHealth) * u.data.defense == -amount;
  }

  /** Two hits take off exactly what one hit of their combined size does. */
  lemma DamageAdditive(u: Unit, a: real, b: real)
    ensures Damage(Damage(u, a), b) == Damage(u, a + b)
  {
    var d := u.data.defense;
    var v := Damage(Damage(u, a), b);
    var w := Damage(u, a + b);
    assert v.currHealth * d == w.currHealth * d;
  }
}
