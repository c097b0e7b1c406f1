# Tower-defense battlefield core in Dafny

This project models the core of a small Unity tower-defense game. Units of
two sides stand on a 9 × 15 tile grid. Each unit occupies a disk-shaped
footprint of tiles, finds the nearest enemy, plans a path to it with A*,
smooths that path with a Catmull-Rom spline, and attacks on a cooldown. A
power bar pays for new units.

The model is written in pure functions over immutable values. The search
and the per-frame loops are methods with loop invariants.

- **Grid.** The C# `Tile[SizeX, SizeY]` array is a map from in-bounds
  coordinates to tiles (`MapSystem.Grid`).
- **Units.** Unit objects are records identified by a `UnitId`.
- **Registry.** `MapSystem.World` holds the unit registry:
  - every unit object created so far (`units`);
  - the `Units` hash set as a list of its members (`active`), new units appended; see "Left out" for how this differs from the hash set's enumeration order after a removal;
  - the removals scheduled for the next frame (`pending`);
  - the next fresh identity (`nextId`).
- **Arithmetic.** Floating point is modelled by exact reals.

Modules, one per source concern:

- `Nullable`: `Option`, the model of a C# null reference.
- `Space`: the grid constants, tile and world coordinates, and the two affine maps between tile space and world space. It also has the engine's `RoundToInt` (round half to even) and the squared tile distance.
- `Types`: tiles, unit data, units, and the unit's state and damage rules.
- `MapSystem`: map generation (border rule), the footprint, the occupancy check, moving a unit between footprints, unit creation, attacks, and deferred removal.
- `Pathfinder`: the A* search. It is proved to terminate, to return only simple orthogonal walks from start to goal, and to fail only when no walk exists.
- `PathSmoothing`: the Catmull-Rom spline over reals.
- `UnitAI`: target selection and the re-path decision of the AI frame.
- `UnitAttack`: cooldown gating of attacks.
- `Powerbar`: spend guard, fill step and button rule of the power bar.

## Model

| member | source | states |
|---|---|---|
| Space.RoundToInt | Assets/Scripts/Systems/MapSystem.cs:209-210 | The result is an integer within one half of the input, and an exact half goes to the even neighbour. |
| Space.RoundToNearest | Assets/Scripts/Systems/MapSystem.cs:209-210 | A value strictly within one half of an integer rounds to that integer. |
| Space.TileWorldRoundTrip | Assets/Scripts/Systems/MapSystem.cs:207-219 | Mapping a tile to world space (at any height) and back gives the same tile, because both grid sizes are odd. |
| Space.WorldToTileSnaps | Assets/Scripts/Systems/MapSystem.cs:207-212 | Every world point closer than half a tile, in x and in z, to a tile's centre maps to that tile. |
| Space.DistanceSquared | Assets/Scripts/Systems/MapSystem.cs:221-226 | The squared tile distance is never negative and is zero exactly when the tiles coincide. |
| Space.DistanceSquaredSymmetric | Assets/Scripts/Systems/MapSystem.cs:221-226 | The squared tile distance does not depend on argument order. |
| Types.NewUnit | Assets/Scripts/Types/Unit.cs:25-36 | A new unit is idle, at health 100, anchored at the given tile, and has no target, no path, index 0 and timer 0. Its path buffer has SizeX × SizeY entries. |
| Types.SetState | Assets/Scripts/Types/Unit.cs:38-47 | The result reports a change exactly when the requested state differs. Afterwards the state is the requested one and nothing else changes. |
| Types.SetStateIdempotent | Assets/Scripts/Types/Unit.cs:38-47 | Requesting the same state a second time changes nothing and reports no change. |
| Types.Damage | Assets/Scripts/Types/Unit.cs:49-52 | Only health changes, and health times defense drops by exactly the hit amount. |
| Types.DamageLowersHealth | Assets/Scripts/Types/Unit.cs:49-52 | A positive hit strictly lowers health; a non-negative hit never raises it. |
| Types.DamageAdditive | Assets/Scripts/Types/Unit.cs:49-52 | Two hits equal one hit of their combined amount. |
| MapSystem.GenerateMap | Assets/Scripts/Systems/MapSystem.cs:43-76 | Border tiles are unwalkable. An interior tile is walkable exactly when the random draw did not block it. No tile is occupied. |
| MapSystem.CoveredColumn | Assets/Scripts/Systems/MapSystem.cs:102-111 | One footprint column holds exactly the on-map cells of that column inside the disk, in increasing y. |
| MapSystem.CoveredColumns | Assets/Scripts/Systems/MapSystem.cs:100-112 | The remaining columns hold exactly the on-map disk cells from the given column on, in x-then-y order. |
| MapSystem.GetTilesCovered | Assets/Scripts/Systems/MapSystem.cs:96-114 | A cell is listed exactly when it is on the map, both offsets lie strictly between −r and r, and dx² + dy² < r². The list is in x-then-y order and repeats nothing. |
| MapSystem.TilesCoveredSmallRadius | Assets/Scripts/Systems/MapSystem.cs:96-114 | Radius 1 covers just the anchor (when on the map); radius 0 or less covers nothing. |
| MapSystem.TilesCoveredInBounds | Assets/Scripts/Systems/MapSystem.cs:106-109 | Every covered cell is on the map, so the bounds test of IsTileOpen can never fail. |
| MapSystem.AllOpen | Assets/Scripts/Systems/MapSystem.cs:196-204 | The scan succeeds exactly when every listed tile is on the map, walkable and unoccupied. |
| MapSystem.IsTileOpen | Assets/Scripts/Systems/MapSystem.cs:194-205 | True exactly when every footprint cell is walkable and held by no unit at all, the asking unit included. |
| MapSystem.Release | Assets/Scripts/Systems/MapSystem.cs:121-125 | Every listed cell held by the unit becomes free; every other cell is unchanged. |
| MapSystem.Claim | Assets/Scripts/Systems/MapSystem.cs:136-137 | Every listed cell becomes held by the unit; every other cell is unchanged. |
| MapSystem.AllClaimable | Assets/Scripts/Systems/MapSystem.cs:127-134 | Validation passes exactly when every listed cell is walkable and either free or already the unit's own. |
| MapSystem.ReleaseFootprint | Assets/Scripts/Systems/MapSystem.cs:119-125 | The unit's current-footprint cells that hold it become free; walkability and every other occupant are unchanged. |
| MapSystem.ClaimFootprint | Assets/Scripts/Systems/MapSystem.cs:136-137 | Exactly the footprint cells at the new anchor hold the unit; walkability and all other cells are unchanged. |
| MapSystem.PlaceUnit | Assets/Scripts/Systems/MapSystem.cs:116-141 | Success happens exactly when every new footprint cell is walkable and free or the unit's own. On success the new footprint holds the unit, its own old cells are freed, and the anchor moves. On failure the anchor stays but the old cells are freed anyway. Walkability never changes. The call throws exactly when it succeeds for an anchor off the map: the closing log line reads the missing map cell, after the claim and the anchor update have happened. |
| MapSystem.PlaceUnitKeepsOwnership | Assets/Scripts/Systems/MapSystem.cs:116-141 | If the unit held exactly its footprint before a successful move, it holds exactly its new footprint afterwards. |
| MapSystem.PlaceUnitSparesOthers | Assets/Scripts/Systems/MapSystem.cs:121-137 | A move never changes a cell held by another unit, and that unit still holds exactly its footprint. |
| MapSystem.PlaceUnitFailureReleases | Assets/Scripts/Systems/MapSystem.cs:121-134 | After a rejected move the anchor is unchanged, but no cell holds the unit any more; a rejected move is not a no-op. |
| MapSystem.PlaceUnitOccupants | Assets/Scripts/Systems/MapSystem.cs:121-139 | After any move, every occupied cell holds the mover or its previous occupant, and only the mover's anchor changes. |
| MapSystem.PlaceOnOpenFootprint | Assets/Scripts/Systems/MapSystem.cs:147-157 | Placing a unit that holds no cell on an open footprint succeeds and claims exactly that footprint. |
| MapSystem.CreateUnit | Assets/Scripts/Systems/MapSystem.cs:143-160 | When the footprint under the visual is not open, nothing changes and no unit is returned. Otherwise exactly one fresh unit, with constructor defaults, is registered. It holds exactly its footprint: each footprint cell is the old cell with the new occupant, and every other cell is unchanged. The new unit is returned when its tile is on the map. For a tile off the map the call throws instead, leaving the unit registered. The new unit is appended at the end of `active`, which matches the hash set's enumeration until a unit is created after a removal (see "Left out"). The registry stays consistent. |
| MapSystem.CreateUnitOffMapThrows | Assets/Scripts/Systems/MapSystem.cs:145-157 | A radius-1 unit dropped off the map counts as open, is registered, and makes the call throw without returning it. |
| MapSystem.RegisterKeepsValid | Assets/Scripts/Systems/MapSystem.cs:153-157 | Registering a fresh target-less unit whose only new cells are its own keeps the registry consistent. |
| MapSystem.AttackTarget | Assets/Scripts/Systems/MapSystem.cs:162-192 | Without a target nothing changes. Otherwise only the target is damaged. If its health drops to zero or below, exactly the footprint cells it still holds are freed, and a removal is scheduled that records the attacker. |
| MapSystem.AttackTargetKeepsValid | Assets/Scripts/Systems/MapSystem.cs:170-178 | An attack keeps the registry consistent, and a defeated target that held its footprint holds no cell afterwards. |
| MapSystem.Survivors | Assets/Scripts/Systems/MapSystem.cs:185-190 | The survivors are exactly the active units not scheduled for removal, with no repetition introduced. |
| MapSystem.SurvivorsAppend | Assets/Scripts/Systems/MapSystem.cs:185-190 | Removal works piecewise on any split of the list, so the survivors keep their relative order. |
| MapSystem.RemovalTargets | Assets/Scripts/Systems/MapSystem.cs:185-190 | The units to remove are exactly the current targets of the recorded attackers. |
| MapSystem.FlushRemovals | Assets/Scripts/Systems/MapSystem.cs:185-190 | The deferred removals take out of the active set exactly the units that recorded attackers target when the removals run. This need not be the unit that was defeated. The schedule is emptied and nothing else changes. |
| MapSystem.FlushRemovalsKeepsValid | Assets/Scripts/Systems/MapSystem.cs:185-190 | The deferred removals keep the registry consistent. |
| MapSystem.FlushRemovalsIdempotent | Assets/Scripts/Systems/MapSystem.cs:185-190 | Running the removals twice is the same as running them once. |
| Pathfinder.Heuristic | Assets/Scripts/Helpers/Pathfinder.cs:62-63 | The Manhattan heuristic is never negative and is zero exactly at the goal. |
| Pathfinder.HeuristicAdmissible | Assets/Scripts/Helpers/Pathfinder.cs:62-63 | No orthogonal chain to the goal is shorter than the heuristic says. |
| Pathfinder.DirectionIsAdjacent | Assets/Scripts/Helpers/Pathfinder.cs:42-45 | Each of the four direction offsets moves exactly one orthogonal unit step. |
| Pathfinder.AdjacentIsDirection | Assets/Scripts/Helpers/Pathfinder.cs:18 | Every orthogonal unit step is one of the four direction offsets. |
| Pathfinder.ReconstructPath | Assets/Scripts/Helpers/Pathfinder.cs:65-75 | The reconstructed path is non-empty and ends at the node's own tile. |
| Pathfinder.ReconstructPathShape | Assets/Scripts/Helpers/Pathfinder.cs:65-75 | The reconstructed path starts at the start and ends at the node's tile. It is a walk over walkable on-map tiles and has exactly cost + 1 tiles. |
| Pathfinder.ReconstructPathStable | Assets/Scripts/Helpers/Pathfinder.cs:65-75 | Creating more nodes never changes the path of an existing node. |
| Pathfinder.SelectMin | Assets/Scripts/Helpers/Pathfinder.cs:25-35 | The chosen open entry is the sorted set's minimum: no entry has lower priority, or equal priority and an earlier insertion count. |
| Pathfinder.Expand | Assets/Scripts/Helpers/Pathfinder.cs:42-57 | At most four children are pushed. Each is one walkable on-map step away, one deeper, never a closed tile, and prioritised by cost plus heuristic. Every such neighbour is pushed. |
| Pathfinder.StepKeepsArena | Assets/Scripts/Helpers/Pathfinder.cs:40-57 | After an expansion every node still links one walkable step to an earlier parent, one cost deeper. |
| Pathfinder.StepKeepsCosts | Assets/Scripts/Helpers/Pathfinder.cs:32-57 | No node is deeper than the closed set is large, which bounds the search. |
| Pathfinder.StepKeepsPaths | Assets/Scripts/Helpers/Pathfinder.cs:40-57 | Every node's path repeats no tile, and its parent's path lies in the closed set. |
| Pathfinder.PushedPathSimple | Assets/Scripts/Helpers/Pathfinder.cs:51-56 | A child pushed onto a closed, repetition-free path, with a tile that is not closed, has a repetition-free path. |
| Pathfinder.StepKeepsFrontier | Assets/Scripts/Helpers/Pathfinder.cs:34-57 | Every walkable on-map neighbour of a closed tile is closed or waiting in the open list. |
| Pathfinder.StepLowersWeight | Assets/Scripts/Helpers/Pathfinder.cs:32-58 | Replacing the popped entry by at most four deeper children strictly lowers the loop's termination measure. |
| Pathfinder.SearchStep | Assets/Scripts/Helpers/Pathfinder.cs:32-58 | One pop-close-expand round keeps the whole search invariant and lowers the termination measure. |
| Pathfinder.WalkStaysInside | Assets/Scripts/Helpers/Pathfinder.cs:47-52 | A walk that starts in a set closed under walkable neighbours never leaves it. |
| Pathfinder.WalkIgnoresOccupants | Assets/Scripts/Helpers/Pathfinder.cs:47-52 | Two maps with the same walkability have the same reachable pairs, whatever units stand on them. |
| Pathfinder.FindPath | Assets/Scripts/Helpers/Pathfinder.cs:20-60 | A returned path starts at start and ends at goal. It moves one orthogonal step at a time over walkable on-map tiles and never revisits a tile. Start equal to goal gives that single tile. No path is returned only when no walk from start reaches goal. |
| PathSmoothing.BlendingWeights | Assets/Scripts/Helpers/PathSmoothingUtil.cs:33-42 | The cubic is a weighted sum of the four control values, and the four weights sum to one for every t. |
| PathSmoothing.CurveInterpolatesEnds | Assets/Scripts/Helpers/PathSmoothingUtil.cs:36-41 | At t = 0 the curve is at p1, and at t = 1 it is at p2. |
| PathSmoothing.ConstantCurve | Assets/Scripts/Helpers/PathSmoothingUtil.cs:33-42 | Four equal control points give that point for every t. |
| PathSmoothing.CatmullRom1Translates | Assets/Scripts/Helpers/PathSmoothingUtil.cs:36-41 | Shifting all four control values by v shifts each coordinate of the curve by v. |
| PathSmoothing.CurveTranslates | Assets/Scripts/Helpers/PathSmoothingUtil.cs:33-42 | Shifting all four control points by a vector shifts the curve by that vector. |
| PathSmoothing.WindowClamped | Assets/Scripts/Helpers/PathSmoothingUtil.cs:17-20 | The inner window points are the segment's ends. The outer ones are the neighbours, clamped to the first and last point at the path's ends. |
| PathSmoothing.SampleAtKnots | Assets/Scripts/Helpers/PathSmoothingUtil.cs:22-25 | Sample 0 of segment i is point i, and sample sub would be point i + 1. |
| PathSmoothing.SegmentsJoin | Assets/Scripts/Helpers/PathSmoothingUtil.cs:15-27 | Consecutive segments meet: one step past a segment's last sample is the next segment's first. |
| PathSmoothing.ConstantSample | Assets/Scripts/Helpers/PathSmoothingUtil.cs:17-25 | On a constant path every sample is that constant. |
| PathSmoothing.SegmentSamples | Assets/Scripts/Helpers/PathSmoothingUtil.cs:22-27 | A segment gives sub samples (none when sub ≤ 0); sample j is the curve at j / sub. |
| PathSmoothing.SegmentsLength | Assets/Scripts/Helpers/PathSmoothingUtil.cs:15-28 | The first n segments give n · sub samples. |
| PathSmoothing.SegmentsIndex | Assets/Scripts/Helpers/PathSmoothingUtil.cs:15-28 | Sample j of segment i lands at position i · sub + j. |
| PathSmoothing.SegmentsConstant | Assets/Scripts/Helpers/PathSmoothingUtil.cs:15-28 | On a constant path all samples of all segments are that constant. |
| PathSmoothing.AllSamplesPlaced | Assets/Scripts/Helpers/PathSmoothingUtil.cs:15-29 | In the final output, sample j of segment i sits at position i · sub + j, before the closing point. |
| PathSmoothing.SplineShape | Assets/Scripts/Helpers/PathSmoothingUtil.cs:15-29 | The output has (n − 1) · sub + 1 points and ends at the last input point. It starts at the first point when sub > 0, and a constant input gives a constant output. |
| PathSmoothing.CatmullRomSpline | Assets/Scripts/Helpers/PathSmoothingUtil.cs:9-31 | Fewer than two points come back unchanged. Otherwise there are (n − 1) · sub + 1 points: sample j of segment i at position i · sub + j, then the last input point. The first output is the first input when sub > 0, and a constant path smooths to itself. |
| UnitAI.FindTarget | Assets/Scripts/Systems/UnitAISystem.cs:81-101 | Only the unit's target is overwritten. A target is found exactly when some other active unit of the other side is closer than Int32.MaxValue. The target is never the unit itself and is on the other side. It is the nearest such unit, and the first in `active` order among equals. |
| UnitAI.LiftPath | Assets/Scripts/Systems/UnitAISystem.cs:46-51 | Lifting keeps the length, and every lifted point maps back to its tile. |
| UnitAI.UpdateUnit | Assets/Scripts/Systems/UnitAISystem.cs:26-55 | Non-characters are skipped. A character's target is set exactly when an enemy candidate exists, and it is the nearest one. Without a target only the target changes. With one, the rest of the turn is as `FollowTarget` says: the unit moves as `PlaceUnit` moves it when its visual left its tile, and the turn throws exactly when that move throws. Otherwise a unit that needs a path holds a fresh path to its target's anchor exactly when a walk of at least two tiles leads there, and keeps its old path if not. Other units are untouched and the registry stays consistent. On the grid, walkability is kept, a cell changes occupant only between nobody and the unit, and a unit whose anchor changed holds every on-map cell of its new footprint. |
| UnitAI.FollowTarget | Assets/Scripts/Systems/UnitAISystem.cs:34-55 | A unit that is still on its tile and has a path is left alone. Otherwise only its anchor, path and index may change. When the visual left the anchor's tile, the grid and anchor are those `PlaceUnit` produces, and the turn throws exactly when it does. Without a throw, a fresh path from the anchor to the target's anchor is installed exactly when a walk of at least two tiles leads there. Walkability is kept; a cell changes occupant only between nobody and the unit; a unit whose anchor changed holds every on-map cell of its new footprint. |
| UnitAI.FollowedIgnoresTarget | Assets/Scripts/Systems/UnitAISystem.cs:34-55 | The outcome of the planning half does not depend on the target the record held before the turn. |
| UnitAI.PlaceUnitIgnoresTarget | Assets/Scripts/Systems/MapSystem.cs:116-141 | A move's grid, anchor and throw do not depend on the mover's target. |
| UnitAI.ReplanIsFollowed | Assets/Scripts/Systems/UnitAISystem.cs:38-54 | Relocating without a throw and then planning yields the promised planning outcome. |
| UnitAI.Relocate | Assets/Scripts/Systems/UnitAISystem.cs:34-39 | When the visual left the anchor's tile, the grid, record and throw are exactly those of `PlaceUnit` at the visual's tile; otherwise nothing moves and nothing throws. Walkability is kept, and the only new occupant is the unit itself. A cell changes occupant only between nobody and the unit, and after a move the unit holds every on-map cell of its footprint at the new anchor. |
| UnitAI.ReplanUnit | Assets/Scripts/Systems/UnitAISystem.cs:41-54 | Only the path and its index change. They change exactly when the anchor differs from the goal and a walk leads there. The new path then restarts at index 0 and runs from the anchor's centre to the goal's centre. |
| UnitAI.PlanSmoothPath | Assets/Scripts/Systems/UnitAISystem.cs:41-53 | A path is adopted exactly when start differs from goal and a walk leads from one to the other. An adopted path has at least six points and runs from the start's centre to the goal's centre. |
| UnitAI.ChoiceAimsRight | Assets/Scripts/Systems/UnitAISystem.cs:81-101 | A target chosen mid-frame is an active unit of the other side. With a bounded distance, one is chosen exactly when such a unit exists, judged against the frame's starting world. |
| UnitAI.TurnExtends | Assets/Scripts/Systems/UnitAISystem.cs:26-55 | A further unit's turn keeps every earlier unit's outcome, including what the earlier turns did to the grid, and adds its own. |
| UnitAI.TurnExtendsMoved | Assets/Scripts/Systems/UnitAISystem.cs:34-39 | A further character's move keeps the grid record of the frame: walkability is kept, a changed cell went between nobody and characters that had a turn, and every unit that moved holds its new footprint, since the new turn touches only cells that were empty or its own. |
| UnitAI.MovedWiden | Assets/Scripts/Systems/UnitAISystem.cs:26-55 | The grid record of a prefix of the turns holds for any list of turns that contains it. |
| UnitAI.TurnedPrefix | Assets/Scripts/Systems/UnitAISystem.cs:26-78 | After the turns up to some position, the later units are unchanged and the earlier characters aim right. |
| UnitAI.TakeTurn | Assets/Scripts/Systems/UnitAISystem.cs:26-55 | The turn of the next unit in iteration order extends the frame. |
| UnitAI.Update | Assets/Scripts/Systems/UnitAISystem.cs:21-79 | The AI frame keeps the registry consistent, changes no unit's identity set or removal schedule, and changes each record in at most its target, anchor, path and path index. Inactive units and non-characters are unchanged. Without a throw, every active character holds an active enemy as target, or none; with a bounded distance it holds one exactly when an enemy exists. A `PlaceUnit` throw ends the frame, and the units after the throwing one keep their records. Thrown or not, the frame keeps every cell's walkability; a cell whose occupant changed was empty or held by an active character before and is empty or held by an active character after; and a unit whose anchor changed is an active character holding every on-map cell of its footprint at the new anchor. The out-of-range throw of the movement half (lines 65-68) is not modelled, so "without a throw" means without a `PlaceUnit` throw. |
| UnitAttack.AttackTick | Assets/Scripts/Systems/UnitAttackSystem.cs:19-34 | A unit without a target or not attacking is skipped. With time left on its timer, only the timer drops by dt. Otherwise it attacks, and the rest of the world is the attack's result with its timer at attack speed − dt. |
| UnitAttack.NoFireWhileCooling | Assets/Scripts/Systems/UnitAttackSystem.cs:24-28 | A turn with a positive timer changes no health, no tile and no removal schedule. |
| UnitAttack.CooldownAfterFiring | Assets/Scripts/Systems/UnitAttackSystem.cs:24-33 | After firing with dt below the attack speed, the timer is positive, so the next turn does not fire. |
| UnitAttack.AttackTickFrame | Assets/Scripts/Systems/UnitAttackSystem.cs:19-34 | A turn changes no unit's target, state or stats, and no timer but the turn-taker's. |
| UnitAttack.TurnExtendsFrame | Assets/Scripts/Systems/UnitAttackSystem.cs:17-35 | A turn by a unit that has not had one yet runs down its own timer and keeps every other timer and every role. |
| UnitAttack.Update | Assets/Scripts/Systems/UnitAttackSystem.cs:17-35 | The attack frame keeps the registry consistent. No unit's target, state or stats change. Each active engaged unit ends with its timer restarted from attack speed, if it fired, or run down, less dt. Every other timer is unchanged. A unit fires exactly when it is active, engaged and its timer had run out at the frame's start. Each unit ends the frame down the sum, over the units that fired at it, of their strength over its defense, and a unit nobody fired at keeps its health (`Dealt`). Only cells held by a unit someone fired at are freed, and only units that fired are scheduled (`Freed`). A unit fired at and left at no health holds none of its footprint cells, and one of its attackers is scheduled (`Buried`). A frame in which nobody fires changes no health, cell or schedule; one in which nobody is engaged changes nothing. |
| UnitAttack.RunTurns | Assets/Scripts/Systems/UnitAttackSystem.cs:19-34 | The loop over the active units leaves the timer, health, cell and removal ledger of all their turns, and changes nothing when none is engaged. |
| UnitAttack.TakeAttackTurn | Assets/Scripts/Systems/UnitAttackSystem.cs:19-34 | The turn of the next unit in iteration order extends the ledger of the turns before it. |
| UnitAttack.FrameEnds | Assets/Scripts/Systems/UnitAttackSystem.cs:17-35 | The ledger of all turns gives the frame's promises, and a frame without fire leaves health, cells and removals unchanged. |
| UnitAttack.QuietFrame | Assets/Scripts/Systems/UnitAttackSystem.cs:24-33 | When no active unit fires, the ledger implies that health, cells and removals are unchanged. |
| UnitAttack.AttackTickUnits | Assets/Scripts/Systems/UnitAttackSystem.cs:19-34 | A turn changes each unit in at most health and timer. Only the target of a firing unit loses health, by the shooter's strength over the target's defense. |
| UnitAttack.FiringUnitAt | Assets/Scripts/Systems/MapSystem.cs:162-170 | A firing turn lowers the target's health by strength over defense and leaves every other unit's health alone. |
| UnitAttack.AttackTickCells | Assets/Scripts/Systems/MapSystem.cs:170-190 | A turn only frees cells held by the firing unit's target, and schedules only the firing unit. A target left at no health loses all its footprint cells, and the firing unit is scheduled. |
| UnitAttack.LossStep | Assets/Scripts/Systems/UnitAttackSystem.cs:19-34 | One more turn adds exactly its own strength over the target's defense to the target's loss, and makes a unit targeted exactly when it fires at it. |
| UnitAttack.TurnExtendsDealt | Assets/Scripts/Systems/UnitAttackSystem.cs:19-34 | One more turn keeps the health ledger: every unit stays down exactly its accumulated loss. |
| UnitAttack.TurnExtendsFreed | Assets/Scripts/Systems/MapSystem.cs:172-190 | One more turn frees only cells of units fired at, and schedules only units that fired. |
| UnitAttack.TurnExtendsBuried | Assets/Scripts/Systems/MapSystem.cs:170-190 | One more turn keeps every dead target without cells and with a scheduled attacker, and buries its own victim. |
| UnitAttack.KillerBuries | Assets/Scripts/Systems/MapSystem.cs:170-190 | A turn that leaves its target at no health frees the target's footprint cells and schedules itself. |
| UnitAttack.SurvivorStaysBuried | Assets/Scripts/Systems/MapSystem.cs:170-190 | A turn that does not fire at a dead target keeps it without cells and keeps its attacker scheduled. |
| Powerbar.UsePower | Assets/Scripts/Systems/PowerbarSystem.cs:37-49 | The spend is granted exactly when the new value stays within [0, 1]; then the value drops by amount / 100. A refused spend leaves the value alone. |
| Powerbar.UsePowerKeepsRange | Assets/Scripts/Systems/PowerbarSystem.cs:41-46 | A bar within [0, 1] stays within [0, 1] whether the spend is granted or refused. |
| Powerbar.UsePowerRefund | Assets/Scripts/Systems/PowerbarSystem.cs:37-49 | A granted spend followed by a spend of the negated amount restores the bar, and that second spend is granted. |
| Powerbar.ButtonInteractable | Assets/Scripts/Systems/PowerbarSystem.cs:26-33 | A button is enabled exactly when the bar in percent reaches the unit's power cost. |
| Powerbar.InteractableIffAffordable | Assets/Scripts/Systems/PowerbarSystem.cs:26-49 | For an in-range bar and a non-negative cost, a button is enabled exactly when buying that unit would be granted. |
| Powerbar.Fill | Assets/Scripts/Systems/PowerbarSystem.cs:35 | One fill step adds the smaller of FillRate · dt and 1: it adds one of the two and exceeds neither. It never lowers the bar for dt ≥ 0. |
| Powerbar.FillKeepsButtonsEnabled | Assets/Scripts/Systems/PowerbarSystem.cs:30-35 | Filling never disables a button that was enabled. |

## Left out

- Asset loading and release, GameObject and sprite creation, audio, and the `UniTask` initialisation chains are engine I/O. They have no effect on the modelled state.
- The `System.Random` draw in `GenerateMap` is replaced by the set of interior tiles it blocked, which is a parameter.
- `Debug.LogError`, `Debug.DrawLine` and the `Debug.Assert` on odd sizes produce output only, and the odd sizes are constants here. Most `Debug.Log` calls produce output only too. The exception is the log line that closes `PlaceUnit`: it reads the map cell at the anchor and throws for an anchor off the map. That throw is modelled (`thrown` in `MapSystem.PlaceUnit`, `MapSystem.CreateUnit` and the AI frame).
- The deferred `Units.Remove` after `UniTask.Yield` is modelled as the `pending` set of attackers plus `FlushRemovals`. The engine's frame scheduling is not modelled, so the caller decides when the removals run relative to the next frame's systems.
- Exceptions are modelled only as a `thrown` flag. The state left at the throw is kept; Unity's logging of the exception and the frames that follow are not modelled.
- The movement half of the AI frame is not modelled: the end-of-path check, advancing the path index within 0.001 of a waypoint, and `Vector3.MoveTowards`. It is continuous float motion driven by the frame clock.
- `DistanceBetween_TileSpace`, a rounded float square root, is an arbitrary function parameter of `UnitAI.FindTarget`.
- Floating point is exact real arithmetic. Rounding, NaN and infinity are not modelled, so `Defense` is a positive real: the engine's division by a zero defense would give infinity.
- Time (`Time.deltaTime`) is a parameter `dt`.
- Pathfinder.FindPath: the path is not proved shortest. The returned path and failure are characterised instead.
- Powerbar: the slider's own clamping of its value belongs to the UI library and is not modelled.
- The placement, spawn, base, UI, health-bar, animation and audio systems are presentation and input glue around the modelled core.
- UnitAI.Update: the promise that a character gets a target exactly when an enemy exists is stated only for a distance that stays below Int32.MaxValue. For other distances, each turn's own condition is in `UnitAI.UpdateUnit`; it is judged against anchors that earlier turns of the frame may have moved.
- MapSystem.CreateUnit: appends the new unit to `active`. The `Units` hash set reuses the slot a removed unit freed, so after a removal a new unit is enumerated where that unit was, not last. A removal alone leaves the other units in their slots, so the model's order matches the hash set's until the first creation after a removal. Both tie-breaks that read this order, the nearest-target choice in `UnitAI.FindTarget` and the order of turns in both frame updates, can differ from the program once that happens. The hash set's slot layout is a library implementation detail.
- UnitAI.Update: the movement half can throw too, and that throw is not modelled. At UnitAISystem.cs lines 65-68, a unit at the last waypoint (index `Count - 1`) and within 0.001 of it has its index advanced to `Count`. The next read, `CurrentPath[Count]`, throws and ends the frame. This is reachable for a unit that moved tiles and kept its old path because `FindPath` gave no path or a one-tile path (lines 43-44). The frame's "without a throw" promises cover only `PlaceUnit`'s throw, so they also cover frames the program ends early at this point; in such a frame the later units never choose a target.
- UnitAI.UpdateUnit: plans with the three-argument `Pathfinder.FindPath`. The call site passes the unit as an extra first argument that no overload accepts, and the unit is dropped.
- Field names the AI and attack code use but `Unit` does not declare are read as the declared fields:
  - `unit.UnitType` is `data.unitType`;
  - `unit.CurrentPath` is `currentSmoothedPath`;
  - `unit.Stats.AttackSpeed` is `data.attackSpeed`;
  - `unit.Visual.transform.position` is `visualPos`.
- `Tile` keeps only walkability and occupant. Its coordinates are the grid key. The GameObject argument, which the map generator omits, is left out.
- The `UnitState` and `UnitType` enums are declared outside the modelled files. They are modelled as `Idle | Navigating | Attacking` and `Character | Base`.

Three behaviours of the code are easy to miss:

- `PlaceUnit` is not atomic. A rejected move has already released the unit's old cells (`MapSystem.PlaceUnitFailureReleases`).
- The search is 4-connected with unit step cost and the Manhattan heuristic. It has no diagonal moves, no node cap, no footprint test for neighbours and no closest-approach fallback, and it returns null when the goal is unreachable.
- The AI never changes a unit's state. The attack cooldown restarts at `AttackSpeed` seconds, so `AttackSpeed` acts as a period rather than a rate.
