/**
 The per-frame attack rule: a unit that has a target and is in the
 attacking state fires whenever its cooldown timer has run out, then
 restarts the timer from its attack speed; every such unit's timer runs
 down by the frame time. The frame time `dt` is a parameter.
 */
module UnitAttack {
  import opened Nullable
  import opened Types
  import opened Space
  import opened MapSystem

  /** Whether `u` takes part in the attack frame at all. */
  predicate Engaged(u: Unit) {
    u.target.Some? && u.state == Attacking
  }

  /** The timer a unit ends the frame with, given whether it fired. */
  function NextTimer(u: Unit, dt: real): (t: real)
    ensures u.currAttackTimer <= 0.0 ==> t == u.data.attackSpeed - dt
    ensures u.currAttackTimer > 0.0 ==> t == u.currAttackTimer - dt
  {
    (if u.currAttackTimer <= 0.0 then u.data.attackSpeed else u.currAttackTimer) - dt
  }

  /** One unit's turn of the attack frame. */
  function AttackTick(w: World, id: UnitId, dt: real): (r: World)
    requires Valid(w) && id in w.units
    ensures Valid(r)
    ensures r.active == w.active && r.nextId == w.nextId && r.units.Keys == w.units.Keys
    ensures w.pending <= r.pending
    ensures !Engaged(w.units[id]) ==> r == w
    ensures Engaged(w.units[id]) ==> r.units[id].currAttackTimer == NextTimer(w.units[id], dt)
    ensures Engaged(w.units[id]) && w.units[id].currAttackTimer > 0.0 ==>
      r == w.(units := w.units[id := w.units[id].(currAttackTimer := w.units[id].currAttackTimer - dt)])
    ensures Engaged(w.units[id]) && w.units[id].currAttackTimer <= 0.0 ==>
      var fired := AttackTarget(w, id);
      && r.grid == fired.grid && r.pending == fired.pending
      && r.units == fired.units[id := r.units[id]]
      && r.units[id] == fired.units[id].(currAttackTimer := r.units[id].currAttackTimer)
  {
    var u := w.units[id];
    if !Engaged(u) then w
    else if u.currAttackTimer <= 0.0 then
      AttackTargetKeepsValid(w, id);
      SetTimer(AttackTarget(w, id), id, u.data.attackSpeed - dt)
    else
      SetTimer(w, id, u.currAttackTimer - dt)
  }

  /** Restarts or runs down one unit's cooldown; the registry stays consistent. */
  function SetTimer(w: World, id: UnitId, t: real): (r: World)
    requires Valid(w) && id in w.units
    ensures Valid(r)
  {
    var r := w.(units := w.units[id := w.units[id].(currAttackTimer := t)]);
    assert forall i :: 0 <= i < |r.active| ==> r.active[i] in r.units by {
      forall i | 0 <= i < |r.active|
        ensures r.active[i] in r.units
      {
        assert w.active[i] in w.units;
      }
    }
    r
  }

  /**
   Only a unit whose timer has run out can hurt anyone: a turn with a
   positive timer changes no unit's health and no tile.
   */
  lemma NoFireWhileCooling(w: World, id: UnitId, dt: real)
    requires Valid(w) && id in w.units && w.units[id].currAttackTimer > 0.0
    ensures NoFire(w, id, dt)
  {
  }

  /**
   A unit that fires and then waits: with a frame time smaller than its
   attack speed, the very next turn does not fire again.
   */
  lemma CooldownAfterFiring(w: World, id: UnitId, dt: real)
    requires Valid(w) && id in w.units && Engaged(w.units[id]) && w.units[id].currAttackTimer <= 0.0
    requires dt < w.units[id].data.attackSpeed
    ensures AttackTick(w, id, dt).units[id].currAttackTimer > 0.0
    ensures NoFire(AttackTick(w, id, dt), id, dt)
  {
    var r := AttackTick(w, id, dt);
    NoFireWhileCooling(r, id, dt);
  }

  /** A turn of `id` in `w` leaves health, tiles and removals alone. */
  ghost predicate NoFire(w: World, id: UnitId, dt: real)
    requires Valid(w) && id in w.units
  {
    && AttackTick(w, id, dt).grid == w.grid
    && AttackTick(w, id, dt).pending == w.pending
    && forall o :: o in w.units ==> AttackTick(w, id, dt).units[o].currHealth == w.units[o].currHealth
  }

  /** A unit's part in the attack rule: what it aims at, whether it attacks, and its stats. */
  predicate SameRole(u: Unit, v: Unit) {
    u.target == v.target && u.state == v.state && u.data == v.data
  }

  /**
   A turn changes no unit's role, and no timer but the turn-taker's: firing
   only lowers the target's health.
   */
  lemma AttackTickFrame(w: World, id: UnitId, dt: real)
    requires Valid(w) && id in w.units
    ensures forall o :: o in w.units ==> SameRole(AttackTick(w, id, dt).units[o], w.units[o])
    ensures forall o :: o in w.units && o != id ==>
      AttackTick(w, id, dt).units[o].currAttackTimer == w.units[o].currAttackTimer
  {
    var u := w.units[id];
    if Engaged(u) && u.currAttackTimer <= 0.0 {
      var tid := u.target.value;
      assert AttackTarget(w, id).units == w.units[tid := Damage(w.units[tid], u.data.strength)];
    }
  }

  /** The timer `u` ends the attack frame with: run down if it took part, untouched otherwise. */
  function FrameTimer(u: Unit, active: bool, dt: real): (t: real)
    ensures active && Engaged(u) ==> t == NextTimer(u, dt)
    ensures !(active && Engaged(u)) ==> t == u.currAttackTimer
  {
    if active && Engaged(u) then NextTimer(u, dt) else u.currAttackTimer
  }

  /** `r` is `w` after the turns of the units in `done`, as far as roles and timers go. */
  ghost predicate Framed(w: World, r: World, done: seq<UnitId>, dt: real) {
    && r.units.Keys == w.units.Keys
    && (forall id :: id in w.units ==> SameRole(r.units[id], w.units[id]))
    && (forall id :: id in w.units ==> r.units[id].currAttackTimer == FrameTimer(w.units[id], id in done, dt))
  }

  /** One more turn, by a unit that has not had one, extends the frame. */
  lemma TurnExtendsFrame(w: World, r: World, done: seq<UnitId>, a: UnitId, dt: real)
    requires Valid(r) && a in w.units && a !in done
    requires Framed(w, r, done, dt)
    ensures Framed(w, AttackTick(r, a, dt), done + [a], dt)
  {
    AttackTickFrame(r, a, dt);
  }

  /** Whether `u` fires on its turn: it is engaged and its cooldown has run out. */
  predicate Fires(u: Unit) {
    Engaged(u) && u.currAttackTimer <= 0.0
  }

  /** Whether `u` fires at the unit `t` on its turn. */
  predicate Hits(u: Unit, t: UnitId) {
    Fires(u) && u.target == Some(t)
  }

  /** The health `t` loses to the units of `done` that fire at it: each strength over `t`'s defense. */
  function Loss(w: World, done: seq<UnitId>, t: UnitId): real
    requires t in w.units && forall a :: a in done ==> a in w.units
  {
    if |done| == 0 then 0.0
    else
      var a := done[|done| - 1];
      Loss(w, done[..|done| - 1], t) + (if Hits(w.units[a], t) then w.units[a].data.strength / w.units[t].data.defense else 0.0)
  }

  /** Whether some unit of `done` fires at `t`. */
  ghost predicate Targeted(w: World, done: seq<UnitId>, t: UnitId)
    requires forall a :: a in done ==> a in w.units
  {
    exists a :: a in done && Hits(w.units[a], t)
  }

  /** `v` is `u` with at most its health and its timer changed. */
  predicate Worn(v: Unit, u: Unit) {
    v == u.(currHealth := v.currHealth, currAttackTimer := v.currAttackTimer)
  }

  /**
   What one turn `r` of the unit `id` does to the units beyond timers: a
   firing unit lowers its target's health by its strength over the
   target's defense, and nothing else about any unit changes.
   */
  ghost predicate TickUnits(w: World, r: World, id: UnitId)
    requires id in w.units && r.units.Keys == w.units.Keys
  {
    && (forall t :: t in w.units ==>
          Worn(r.units[t], w.units[t]))
    && (forall t :: t in w.units && !Hits(w.units[id], t) ==> r.units[t].currHealth == w.units[t].currHealth)
    && (forall t :: t in w.units && Hits(w.units[id], t) ==>
          r.units[t].currHealth == w.units[t].currHealth - w.units[id].data.strength / w.units[t].data.defense)
  }

  /**
   What one turn `r` of the unit `id` does to cells and removals: only a
   firing unit frees cells, only cells its target held, and only it is
   scheduled; a target it leaves at no health holds none of its footprint
   cells, and the firing unit is scheduled.
   */
  ghost predicate TickCells(w: World, r: World, id: UnitId)
    requires id in w.units && r.units.Keys == w.units.Keys
  {
    && w.pending <= r.pending
    && (forall a :: a in r.pending ==> a in w.pending || (a == id && Fires(w.units[id])))
    && (forall c :: InBounds(c) ==>
          || r.grid[c] == w.grid[c]
          || (&& Fires(w.units[id]) && w.grid[c].occupant == w.units[id].target
              && r.grid[c] == w.grid[c].(occupant := None)))
    && (forall t :: t in w.units && Hits(w.units[id], t) && r.units[t].currHealth <= 0.0 ==>
          && id in r.pending
          && forall c :: InBounds(c) && InFootprint(w.units[t].currTile, w.units[t].data.radius, c) && w.grid[c].occupant == Some(t) ==>
               r.grid[c].occupant.None?)
  }

  /** One turn's effect on the units, by the three branches of the turn. */
  lemma AttackTickUnits(w: World, id: UnitId, dt: real)
    requires Valid(w) && id in w.units
    ensures AttackTick(w, id, dt).units.Keys == w.units.Keys
    ensures TickUnits(w, AttackTick(w, id, dt), id)
  {
    if Fires(w.units[id]) {
      FiringUnits(w, id, dt);
    } else {
      QuietUnits(w, id, dt);
    }
  }

  /** A turn that does not fire only runs down the turn-taker's timer. */
  lemma QuietUnits(w: World, id: UnitId, dt: real)
    requires Valid(w) && id in w.units && !Fires(w.units[id])
    ensures AttackTick(w, id, dt).units.Keys == w.units.Keys
    ensures TickUnits(w, AttackTick(w, id, dt), id)
  {
    var u := w.units[id];
    var r := AttackTick(w, id, dt);
    if Engaged(u) {
      assert r.units == w.units[id := u.(currAttackTimer := u.currAttackTimer - dt)];
    }
  }

  /** A turn that fires damages the target and restarts the turn-taker's timer. */
  lemma FiringUnits(w: World, id: UnitId, dt: real)
    requires Valid(w) && id in w.units && Fires(w.units[id])
    ensures AttackTick(w, id, dt).units.Keys == w.units.Keys
    ensures TickUnits(w, AttackTick(w, id, dt), id)
  {
    forall t | t in w.units
      ensures Worn(AttackTick(w, id, dt).units[t], w.units[t])
      ensures !Hits(w.units[id], t) ==> AttackTick(w, id, dt).units[t].currHealth == w.units[t].currHealth
      ensures Hits(w.units[id], t) ==>
        AttackTick(w, id, dt).units[t].currHealth == w.units[t].currHealth - w.units[id].data.strength / w.units[t].data.defense
    {
      FiringUnitAt(w, id, dt, t);
    }
  }

  /** What a firing turn does to one unit `t`. */
  lemma FiringUnitAt(w: World, id: UnitId, dt: real, t: UnitId)
    requires Valid(w) && id in w.units && Fires(w.units[id]) && t in w.units
    ensures t in AttackTick(w, id, dt).units
    ensures Worn(AttackTick(w, id, dt).units[t], w.units[t])
    ensures w.units[id].target != Some(t) ==> AttackTick(w, id, dt).units[t].currHealth == w.units[t].currHealth
    ensures w.units[id].target == Some(t) ==>
      AttackTick(w, id, dt).units[t].currHealth == w.units[t].currHealth - w.units[id].data.strength / w.units[t].data.defense
  {
    var u := w.units[id];
    var r := AttackTick(w, id, dt);
    var tid := u.target.value;
    var fired := AttackTarget(w, id);
    assert fired.units == w.units[tid := Damage(w.units[tid], u.data.strength)];
    assert r.units[t] == if t == id then fired.units[t].(currAttackTimer := r.units[t].currAttackTimer) else fired.units[t];
  }

  /** One turn's effect on cells and removals, by the three branches of the turn. */
  lemma AttackTickCells(w: World, id: UnitId, dt: real)
    requires Valid(w) && id in w.units
    ensures AttackTick(w, id, dt).units.Keys == w.units.Keys
    ensures TickCells(w, AttackTick(w, id, dt), id)
  {
    if Fires(w.units[id]) {
      FiringCells(w, id, dt);
    } else {
      QuietCells(w, id, dt);
    }
  }

  /** A turn that does not fire leaves cells and removals alone. */
  lemma QuietCells(w: World, id: UnitId, dt: real)
    requires Valid(w) && id in w.units && !Fires(w.units[id])
    ensures AttackTick(w, id, dt).grid == w.grid && AttackTick(w, id, dt).pending == w.pending
  {
  }

  /** A turn that fires frees only its target's cells, and schedules itself when the target is left at no health. */
  lemma FiringCells(w: World, id: UnitId, dt: real)
    requires Valid(w) && id in w.units && Fires(w.units[id])
    ensures AttackTick(w, id, dt).units.Keys == w.units.Keys
    ensures TickCells(w, AttackTick(w, id, dt), id)
  {
    var u := w.units[id];
    var r := AttackTick(w, id, dt);
    var tid := u.target.value;
    var fired := AttackTarget(w, id);
    assert r.grid == fired.grid && r.pending == fired.pending;
    assert r.units[tid].currHealth == fired.units[tid].currHealth;
  }

  /** Every unit of `w` is still in `r`, with at most its health and timer changed. */
  ghost predicate WornAll(w: World, r: World) {
    && r.units.Keys == w.units.Keys
    && forall t :: t in w.units ==> Worn(r.units[t], w.units[t])
  }

  /** `r` carries the health lost to the turns of `done`: each unit is down its `Loss`. */
  ghost predicate Dealt(w: World, r: World, done: seq<UnitId>)
    requires forall a :: a in done ==> a in w.units
  {
    && WornAll(w, r)
    && (forall t :: t in w.units ==> r.units[t].currHealth == w.units[t].currHealth - Loss(w, done, t))
    && (forall t :: t in w.units && !Targeted(w, done, t) ==> r.units[t].currHealth == w.units[t].currHealth)
  }

  /**
   The turns of `done` only free cells held by units they fired at, and
   only schedule removals for units that fired.
   */
  ghost predicate Freed(w: World, r: World, done: seq<UnitId>)
    requires forall a :: a in done ==> a in w.units
  {
    && (forall a :: a in r.pending ==> a in w.pending || (a in done && Fires(w.units[a])))
    && (forall c :: InBounds(c) ==>
          || r.grid[c] == w.grid[c]
          || (&& w.grid[c].occupant.Some? && Targeted(w, done, w.grid[c].occupant.value)
              && r.grid[c] == w.grid[c].(occupant := None)))
  }

  /**
   A unit the turns of `done` fired at and left at no health holds none of
   its footprint cells, and one of its attackers is scheduled for removal.
   */
  ghost predicate Buried(w: World, r: World, done: seq<UnitId>)
    requires forall a :: a in done ==> a in w.units
    requires r.units.Keys == w.units.Keys
  {
    forall t :: t in w.units && Targeted(w, done, t) && r.units[t].currHealth <= 0.0 ==>
      && (exists a :: a in done && a in r.pending && Hits(w.units[a], t))
      && (forall c :: InBounds(c) && InFootprint(w.units[t].currTile, w.units[t].data.radius, c) && w.grid[c].occupant == Some(t) ==>
            r.grid[c].occupant.None?)
  }

  /** Appending a unit to `done` adds its own loss at `t`, if it fires at `t`. */
  lemma LossStep(w: World, done: seq<UnitId>, a: UnitId, t: UnitId)
    requires a in w.units && t in w.units && forall b :: b in done ==> b in w.units
    ensures Loss(w, done + [a], t)
      == Loss(w, done, t) + (if Hits(w.units[a], t) then w.units[a].data.strength / w.units[t].data.defense else 0.0)
    ensures Targeted(w, done + [a], t) <==> Targeted(w, done, t) || Hits(w.units[a], t)
  {
    var done' := done + [a];
    assert done'[..|done'| - 1] == done;
    TargetedStep(w, done, a, t);
  }

  /** Appending a unit to `done` makes `t` targeted exactly when it was or the new unit fires at it. */
  lemma TargetedStep(w: World, done: seq<UnitId>, a: UnitId, t: UnitId)
    requires a in w.units && forall b :: b in done ==> b in w.units
    ensures Targeted(w, done + [a], t) <==> Targeted(w, done, t) || Hits(w.units[a], t)
  {
    var done' := done + [a];
    if Targeted(w, done', t) && !Hits(w.units[a], t) {
      var b :| b in done' && Hits(w.units[b], t);
      assert b in done;
    }
    if Targeted(w, done, t) {
      var b :| b in done && Hits(w.units[b], t);
      assert b in done';
    }
    if Hits(w.units[a], t) {
      assert a in done';
    }
  }

  /** The turn `a` has not taken yet fires, and at whom, as its frame-start record says. */
  lemma PendingTurnHits(w: World, r: World, done: seq<UnitId>, a: UnitId, dt: real)
    requires a in w.units && a !in done && Framed(w, r, done, dt)
    ensures r.units[a].currAttackTimer == w.units[a].currAttackTimer && r.units[a].data == w.units[a].data
    ensures Fires(r.units[a]) == Fires(w.units[a])
    ensures forall t :: Hits(r.units[a], t) == Hits(w.units[a], t)
  {
  }

  /** One more turn adds its loss to the health ledger. */
  lemma TurnExtendsDealt(w: World, r: World, r': World, done: seq<UnitId>, a: UnitId)
    requires a in w.units && forall b :: b in done ==> b in w.units
    requires Dealt(w, r, done)
    requires forall t :: Hits(r.units[a], t) == Hits(w.units[a], t)
    requires r.units[a].data == w.units[a].data
    requires r'.units.Keys == r.units.Keys && TickUnits(r, r', a)
    ensures Dealt(w, r', done + [a])
  {
    forall t | t in w.units
      ensures Worn(r'.units[t], w.units[t])
      ensures r'.units[t].currHealth == w.units[t].currHealth - Loss(w, done + [a], t)
      ensures !Targeted(w, done + [a], t) ==> r'.units[t].currHealth == w.units[t].currHealth
    {
      LossStep(w, done, a, t);
      DealtAt(w.units[t], r.units[t], r'.units[t], Hits(w.units[a], t), w.units[a].data.strength,
              Loss(w, done, t), Targeted(w, done, t));
    }
  }

  /**
   The ledger of one unit `u`, worn to `v` with loss `s`, then worn to
   `v'` by a turn that hits it (with `strength`) or not.
   */
  lemma DealtAt(u: Unit, v: Unit, v': Unit, hit: bool, strength: real, s: real, targeted: bool)
    requires Worn(v, u) && Worn(v', v)
    requires v.currHealth == u.currHealth - s
    requires !targeted ==> v.currHealth == u.currHealth
    requires hit ==> v'.currHealth == v.currHealth - strength / v.data.defense
    requires !hit ==> v'.currHealth == v.currHealth
    ensures Worn(v', u)
    ensures v'.currHealth == u.currHealth - (s + if hit then strength / u.data.defense else 0.0)
    ensures !(targeted || hit) ==> v'.currHealth == u.currHealth
  {
    assert v.data == u.data;
  }

  /** One more turn frees only its target's cells and schedules only itself. */
  lemma TurnExtendsFreed(w: World, r: World, r': World, done: seq<UnitId>, a: UnitId)
    requires a in w.units && forall b :: b in done ==> b in w.units
    requires Freed(w, r, done) && a in r.units
    requires Fires(r.units[a]) == Fires(w.units[a]) && forall t :: Hits(r.units[a], t) == Hits(w.units[a], t)
    requires r'.units.Keys == r.units.Keys && TickCells(r, r', a)
    ensures Freed(w, r', done + [a])
  {
    forall c | InBounds(c)
      ensures || r'.grid[c] == w.grid[c]
              || (&& w.grid[c].occupant.Some? && Targeted(w, done + [a], w.grid[c].occupant.value)
                  && r'.grid[c] == w.grid[c].(occupant := None))
    {
      if w.grid[c].occupant.Some? {
        TargetedStep(w, done, a, w.grid[c].occupant.value);
      }
    }
    assert a in done + [a];
    forall b | b in done
      ensures b in done + [a]
    {
    }
  }

  /** One more turn keeps the dead buried and buries its own victim. */
  lemma TurnExtendsBuried(w: World, r: World, r': World, done: seq<UnitId>, a: UnitId)
    requires a in w.units && a !in done && forall b :: b in done ==> b in w.units
    requires WornAll(w, r) && Freed(w, r, done) && Buried(w, r, done)
    requires forall t :: Hits(r.units[a], t) == Hits(w.units[a], t)
    requires r'.units.Keys == r.units.Keys && TickUnits(r, r', a) && TickCells(r, r', a)
    ensures Buried(w, r', done + [a])
  {
    forall t | t in w.units && Targeted(w, done + [a], t) && r'.units[t].currHealth <= 0.0
      ensures exists b :: b in done + [a] && b in r'.pending && Hits(w.units[b], t)
      ensures forall c :: InBounds(c) && InFootprint(w.units[t].currTile, w.units[t].data.radius, c) && w.grid[c].occupant == Some(t) ==>
                r'.grid[c].occupant.None?
    {
      LossStep(w, done, a, t);
      if Hits(w.units[a], t) {
        KillerBuries(w, r, r', done, a, t);
      } else {
        SurvivorStaysBuried(w, r, r', done, a, t);
      }
    }
  }

  /** A turn that fires at `t` and leaves it at no health buries it. */
  lemma KillerBuries(w: World, r: World, r': World, done: seq<UnitId>, a: UnitId, t: UnitId)
    requires a in w.units && t in w.units && forall b :: b in done ==> b in w.units
    requires WornAll(w, r) && Freed(w, r, done)
    requires r'.units.Keys == r.units.Keys && TickCells(r, r', a)
    requires Hits(r.units[a], t) && Hits(w.units[a], t) && r'.units[t].currHealth <= 0.0
    ensures exists b :: b in done + [a] && b in r'.pending && Hits(w.units[b], t)
    ensures forall c :: InBounds(c) && InFootprint(w.units[t].currTile, w.units[t].data.radius, c) && w.grid[c].occupant == Some(t) ==>
              r'.grid[c].occupant.None?
  {
    assert a in done + [a] && a in r'.pending;
    assert r.units[t].currTile == w.units[t].currTile && r.units[t].data == w.units[t].data;
  }

  /** A turn that does not fire at `t` leaves a buried `t` buried. */
  lemma SurvivorStaysBuried(w: World, r: World, r': World, done: seq<UnitId>, a: UnitId, t: UnitId)
    requires a in w.units && t in w.units && forall b :: b in done ==> b in w.units
    requires WornAll(w, r) && Buried(w, r, done)
    requires r'.units.Keys == r.units.Keys && TickUnits(r, r', a) && TickCells(r, r', a)
    requires !Hits(r.units[a], t) && Targeted(w, done, t) && r'.units[t].currHealth <= 0.0
    ensures exists b :: b in done + [a] && b in r'.pending && Hits(w.units[b], t)
    ensures forall c :: InBounds(c) && InFootprint(w.units[t].currTile, w.units[t].data.radius, c) && w.grid[c].occupant == Some(t) ==>
              r'.grid[c].occupant.None?
  {
    assert r.units[t].currHealth <= 0.0;
    var b :| b in done && b in r.pending && Hits(w.units[b], t);
    assert b in done + [a] && b in r'.pending;
  }

  /** A frame in which no active unit fires leaves every health, cell and schedule alone. */
  lemma QuietFrame(w: World, r: World)
    requires forall a :: a in w.active ==> a in w.units
    requires forall i :: 0 <= i < |w.active| ==> !Fires(w.units[w.active[i]])
    requires Dealt(w, r, w.active) && Freed(w, r, w.active) && w.pending <= r.pending && r.grid.Keys == w.grid.Keys
    ensures r.grid == w.grid && r.pending == w.pending
    ensures forall id :: id in w.units ==> r.units[id].currHealth == w.units[id].currHealth
  {
    forall a | a in w.active
      ensures !Fires(w.units[a])
    {
      var i :| 0 <= i < |w.active| && w.active[i] == a;
    }
  }

  /** `r` is `w` after the turns of `done`: timers, roles, health, cells and removals. */
  ghost predicate Ledger(w: World, r: World, done: seq<UnitId>, dt: real)
    requires forall a :: a in done ==> a in w.units
  {
    Framed(w, r, done, dt) && Dealt(w, r, done) && Freed(w, r, done) && Buried(w, r, done)
  }

  /** The attack frame: every active unit takes its turn, in iteration order. */
  method Update(w: World, dt: real) returns (r: World)
    requires Valid(w)
    ensures Valid(r)
    ensures r.active == w.active && r.nextId == w.nextId && r.units.Keys == w.units.Keys
    ensures w.pending <= r.pending
    ensures forall id :: id in w.units ==> SameRole(r.units[id], w.units[id])
    ensures forall id :: id in w.units ==>
      r.units[id].currAttackTimer == FrameTimer(w.units[id], id in w.active, dt)
    ensures Dealt(w, r, w.active) && Freed(w, r, w.active) && Buried(w, r, w.active)
    ensures (forall i :: 0 <= i < |w.active| ==> !Fires(w.units[w.active[i]])) ==>
      && r.grid == w.grid && r.pending == w.pending
      && forall id :: id in w.units ==> r.units[id].currHealth == w.units[id].currHealth
    ensures (forall i :: 0 <= i < |w.active| ==> !Engaged(w.units[w.active[i]])) ==> r == w
  {
    r := RunTurns(w, dt);
    FrameEnds(w, r, dt);
  }

  /** The loop of the attack frame: the active units' turns, one after another. */
  method RunTurns(w: World, dt: real) returns (r: World)
    requires Valid(w)
    ensures Valid(r)
    ensures r.active == w.active && r.nextId == w.nextId && w.pending <= r.pending
    ensures Ledger(w, r, w.active[..|w.active|], dt)
    ensures (forall i :: 0 <= i < |w.active| ==> !Engaged(w.units[w.active[i]])) ==> r == w
  {
    r := w;
    LedgerStarts(w, dt);
    for i := 0 to |w.active|
      invariant Valid(r)
      invariant r.active == w.active && r.nextId == w.nextId
      invariant w.pending <= r.pending
      invariant Ledger(w, r, w.active[..i], dt)
      invariant (forall k :: 0 <= k < |w.active| ==> !Engaged(w.units[w.active[k]])) ==> r == w
    {
      TakeAttackTurn(w, r, i, dt);
      r := AttackTick(r, w.active[i], dt);
    }
  }

  /** Before any turn the ledger is empty: nothing has been lost, freed or scheduled. */
  lemma LedgerStarts(w: World, dt: real)
    requires Valid(w)
    ensures forall a :: a in w.active[..0] ==> a in w.units
    ensures Ledger(w, w, w.active[..0], dt)
  {
    assert w.active[..0] == [];
    forall t | t in w.units
      ensures !Targeted(w, [], t)
    {
    }
  }

  /** At the end of the loop the ledger covers all active units, and a frame without fire is quiet. */
  lemma FrameEnds(w: World, r: World, dt: real)
    requires Valid(w) && w.pending <= r.pending
    requires forall a :: a in w.active[..|w.active|] ==> a in w.units
    requires Ledger(w, r, w.active[..|w.active|], dt)
    ensures forall id :: id in w.units ==> SameRole(r.units[id], w.units[id])
    ensures forall id :: id in w.units ==>
      r.units[id].currAttackTimer == FrameTimer(w.units[id], id in w.active, dt)
    ensures Dealt(w, r, w.active) && Freed(w, r, w.active) && Buried(w, r, w.active)
    ensures (forall i :: 0 <= i < |w.active| ==> !Fires(w.units[w.active[i]])) ==>
      && r.grid == w.grid && r.pending == w.pending
      && forall id :: id in w.units ==> r.units[id].currHealth == w.units[id].currHealth
  {
    assert w.active[..|w.active|] == w.active;
    if forall i :: 0 <= i < |w.active| ==> !Fires(w.units[w.active[i]]) {
      QuietFrame(w, r);
    }
  }

  /** The loop step of the attack frame: the turn of the unit at position `i` extends every ledger. */
  lemma TakeAttackTurn(w: World, r: World, i: nat, dt: real)
    requires Valid(w) && Valid(r) && i < |w.active|
    requires Ledger(w, r, w.active[..i], dt)
    ensures Valid(AttackTick(r, w.active[i], dt))
    ensures AttackTick(r, w.active[i], dt).active == r.active && AttackTick(r, w.active[i], dt).nextId == r.nextId
    ensures r.pending <= AttackTick(r, w.active[i], dt).pending
    ensures Ledger(w, AttackTick(r, w.active[i], dt), w.active[..i + 1], dt)
    ensures !Engaged(w.units[w.active[i]]) ==> AttackTick(r, w.active[i], dt) == r
  {
    var a := w.active[i];
    var done := w.active[..i];
    NextInOrder(w.active, i);
    assert forall b :: b in done ==> b in w.units;
    var r' := AttackTick(r, a, dt);
    PendingTurnHits(w, r, done, a, dt);
    TurnExtendsFrame(w, r, done, a, dt);
    AttackTickUnits(r, a, dt);
    AttackTickCells(r, a, dt);
    TurnExtendsDealt(w, r, r', done, a);
    TurnExtendsFreed(w, r, r', done, a);
    TurnExtendsBuried(w, r, r', done, a);
  }

  /** In a list without repeats, the element at `i` is new to the prefix before it and extends it. */
  lemma NextInOrder(s: seq<UnitId>, i: nat)
    requires Distinct(s) && i < |s|
    ensures s[i] !in s[..i]
    ensures s[..i + 1] == s[..i] + [s[i]]
  {
    assert s[i] !in s[..i] by {
      forall k | 0 <= k < i
        ensures s[..i][k] != s[i]
      {
        assert s[..i][k] == s[k];
      }
    }
  }
}
