# Wizard side-scroller: collision detection and controllers, in Dafny

This project models the gameplay core of a small 2D side-scroller. A wizard
(the player) runs along a scrolling level, hacks at ravens, and is killed by
falling fireballs. Fireballs also knock ravens out of the sky. The model
covers three scripts.

- **The game controller** reads the per-frame input into a key-status table.
  It gathers the player, the ravens and the fireballs (player first), clears
  the collision list, and runs a sweep-and-prune broad phase.
  - Each object's box is projected onto X. While Hack is down, the player's
    interval is stretched by its hack range on the side given by
    `lookDirection`.
  - Zero-width intervals are dropped.
  - The endpoints are sorted by an insertion sort that never moves index 0.
  - Minima are pushed onto an active list. A maximum removes its object's
    entries from that list, then tests the object against every entry still
    active.
  - That test is a closed-box AABB check. While Hack is down it stretches the
    player's box on the side its sprite faces (`flipX`).
- **The enemy controller** spawns ravens and fireballs into fixed-size pools
  that overwrite the oldest slot, gated by a per-kind rate. It moves every
  raven hit by a fireball to a dying list, once. It prunes that list each
  frame.
- **The player controller** gates its input on being alive and on its action
  timers. It keeps the animation flags, moves the scroller within the level's
  clamp range, reacts to collisions (death or a landed hack), and enforces the
  spell cooldown.

The model is organised by module.
- `Geometry`: entities, projections, boxes, the narrow phase and the clamp.
- `EndPoints`: building the endpoint list.
- `EndpointSort`: the insertion sort, specified as a function and proved
  sorted, a permutation and stable.
- `SweepPrune`: the sweep as a left fold, with its invariant.
- `Detector`: the end-to-end theorems about the broad phase.
- `Game`: the `GameController` class, whose methods are proved equal to those
  functions.
- `Enemies`: the `EnemyController` class, its pools and the dying list.
- `Player`: the `PlayerController` class.
- `Wrappers` and `Seqs`: an option type, and the position of an element in a sequence.

Some behaviours of the code are worth knowing before reading the model.
- **Touching intervals.** Touching X intervals are not always reported, and
  whether they are depends on the order in which the objects were appended.
  The sort's strict `>` keeps an earlier object's maximum ahead of a later
  object's equal minimum. Take a frame of just two touching boxes, neither of
  them the player. Appended left to right, the pair is never tested
  (`Detector.TouchingNotReportedWhenFirstCloses`). Appended right to left, it
  is tested (`Detector.TouchingTestedWhenFirstStaysActive`).
- **Facing.** The broad phase reads `lookDirection == 1`, but the narrow phase
  reads `!flipX`. The model keeps them as two independent inputs.
- **Removal from the active list.** The removal loop skips the entry that
  slides into a removed entry's place (`SweepPrune.RemoveById`). With one
  minimum per object, this removes exactly the closing object.

## Model

| member | source | states |
|---|---|---|
| Geometry.Extension | Assets/Scripts/GameController.cs:201-207 | the stretch is the hack range for the player while Hack is down and zero otherwise; it is never negative |
| Geometry.ProjectX | Assets/Scripts/GameController.cs:200-211 | a non-player, or a player without Hack, projects to its raw X extent; otherwise exactly one side grows by exactly the hack range, the right side when `lookDirection == 1` and the left side otherwise |
| Geometry.IncludedIsProper | Assets/Scripts/GameController.cs:212-217 | an object that survives the zero-width purge has a proper interval (min < max) |
| Geometry.HackBox | Assets/Scripts/GameController.cs:293-298 | the narrow-phase player box keeps its Y extent; exactly one X side moves, the right one when `!flipX` and the left one otherwise; the width grows by exactly the hack range; with a non-negative range the box only grows |
| Geometry.Overlap | Assets/Scripts/GameController.cs:321-324 | defines the closed-box test: boxes overlap unless strictly separated on X or on Y, so touching edges overlap |
| Geometry.Intersects | Assets/Scripts/GameController.cs:289-327 | a hit needs the raw Y extents to overlap; without Hack the test is exactly the closed raw-box overlap |
| Geometry.HackReachFacingRight | Assets/Scripts/GameController.cs:289-327 | with Hack down and the sprite facing right, the player hits a non-player, in either argument order, exactly when their Y extents overlap and the object lies between the player's left edge and the hack range past its right edge |
| Geometry.HackReachFacingLeft | Assets/Scripts/GameController.cs:289-327 | the mirror image for a flipped sprite: the object must lie between the hack range before the player's left edge and its right edge |
| Geometry.HackMissesBehind | Assets/Scripts/GameController.cs:293-311 | with Hack down, a non-player strictly behind the side the sprite faces is never hit, in either argument order |
| Geometry.IntersectsSymmetric | Assets/Scripts/GameController.cs:293-319 | the narrow phase does not depend on argument order unless both objects are players while Hack is down |
| Geometry.RawOverlapIntersects | Assets/Scripts/GameController.cs:289-327 | the hack stretch only grows a box: raw overlap always gives a hit |
| Geometry.SeparatedOnXNoHit | Assets/Scripts/GameController.cs:321-324 | boxes strictly separated on X never hit, in either order, when no stretch applies |
| Geometry.ScrollBounds | Assets/Scripts/GameController.cs:77-81 | the scroll range is symmetric about 0, and it is non-empty exactly when the tiled length, less one tile, is at least twice the padding |
| Geometry.Included | Assets/Scripts/GameController.cs:210-215 | defines the purge test: an object takes part in the sweep unless its projected minimum equals its maximum |
| Geometry.Clamp | Assets/Scripts/GameController.cs:73-91 | the result lies in the range when the range is non-empty; a position inside is kept; one left of it maps to the left bound and one right of it to the right bound |
| Geometry.ClampIdempotent | Assets/Scripts/GameController.cs:73-91 | clamping twice is clamping once |
| EndPoints.Endpoints | Assets/Scripts/GameController.cs:200-218 | the list is (min, max) pairs, one pair per surviving object, whose values are that object's projected bounds; every endpoint's object is in the frame and survives the purge |
| EndPoints.EndpointsOf | Assets/Scripts/GameController.cs:210-217 | defines one object's contribution: its min and max endpoints in that order, or nothing when the two values are equal |
| EndPoints.EndpointsComplete | Assets/Scripts/GameController.cs:200-218 | every object that survives the purge contributes both its min and its max endpoint |
| EndPoints.EndpointValue | Assets/Scripts/GameController.cs:210-211 | an endpoint's value is its object's projected lower bound if it is a min, and its upper bound if it is a max |
| EndPoints.FirstIsMin | Assets/Scripts/GameController.cs:210-216 | a non-empty endpoint list starts with a minimum |
| EndPoints.KeyCountAtMostOne | Assets/Scripts/GameController.cs:200-218 | with distinct instance ids, each id has at most one min and one max endpoint, and an id not in the frame has none |
| EndPoints.BuildEndpoints | Assets/Scripts/GameController.cs:197-218 | the building loop produces exactly `Endpoints` |
| EndpointSort.Insert | Assets/Scripts/GameController.cs:276-283 | defines one pass of the inner loop as a value: the key goes after every element whose value is not greater than its own |
| EndpointSort.InsertionSort | Assets/Scripts/GameController.cs:271-284 | defines the outer loop as a value: each element in turn is inserted into the sorted prefix |
| EndpointSort.InsertMultiset | Assets/Scripts/GameController.cs:276-283 | inserting a key adds exactly that key |
| EndpointSort.InsertSorted | Assets/Scripts/GameController.cs:276-283 | inserting into a sorted run keeps it sorted |
| EndpointSort.InsertStable | Assets/Scripts/GameController.cs:277 | the strict `>` puts the key after every equal value already placed |
| EndpointSort.InsertionSortCorrect | Assets/Scripts/GameController.cs:271-284 | the sorted part is sorted and a permutation of its input |
| EndpointSort.InsertionSortStable | Assets/Scripts/GameController.cs:271-284 | among endpoints with equal value, the input order is kept |
| EndpointSort.InsertionSortKeyCount | Assets/Scripts/GameController.cs:271-284 | sorting keeps how often each (id, min/max) key occurs |
| EndpointSort.SortValuesSpecCorrect | Assets/Scripts/GameController.cs:265-287 | the result is a permutation that keeps index 0 in place; the rest is sorted and stable |
| EndpointSort.ShiftIntoPlace | Assets/Scripts/GameController.cs:274-283 | one pass of the inner loop inserts element i into positions 1..i and leaves index 0 and the tail alone |
| EndpointSort.SortValues | Assets/Scripts/GameController.cs:265-287 | the sorting method computes exactly `SortValuesSpec` |
| EndpointSort.SortValuesSpec | Assets/Scripts/GameController.cs:265-287 | defines the sort as a value: index 0 stays where it is and the rest is insertion-sorted by value |
| SweepPrune.RemoveById | Assets/Scripts/GameController.cs:234-236 | defines the removal loop as a value: a matching entry is dropped and the entry after it is kept unexamined |
| SweepPrune.Tests | Assets/Scripts/GameController.cs:239-259 | defines the narrow-phase loop as a value: one collision per active entry that passes `Intersects`, in list order |
| SweepPrune.Step | Assets/Scripts/GameController.cs:224-259 | defines one endpoint's handling: a minimum is pushed; a maximum removes its object and then tests it against the rest |
| SweepPrune.Run | Assets/Scripts/GameController.cs:221-261 | defines the sweep as a left fold of `Step` over the sorted endpoints |
| SweepPrune.RemoveByIdKeeps | Assets/Scripts/GameController.cs:234-236 | removal only removes entries, and never removes an entry of another object |
| SweepPrune.RemoveByIdUnique | Assets/Scripts/GameController.cs:234-236 | with one entry per object, removal keeps ids unique and leaves no entry of the closing object |
| SweepPrune.TestsCorrect | Assets/Scripts/GameController.cs:239-259 | each reported pair is (closing object, an active object) and passes the narrow phase; every active object that passes is reported; with unique ids no pair is reported twice |
| SweepPrune.StepOpens | Assets/Scripts/GameController.cs:227-229 | pushing a minimum keeps the sweep invariant |
| SweepPrune.StepCloses | Assets/Scripts/GameController.cs:232-259 | closing an object keeps the sweep invariant: the active set is the opened-but-not-closed objects, and every reported pair hits and is new |
| SweepPrune.RunInvariant | Assets/Scripts/GameController.cs:223-261 | over any well-ordered endpoint list the whole sweep keeps the invariant |
| SweepPrune.FoundGrows | Assets/Scripts/GameController.cs:223-261 | collisions are only ever appended |
| SweepPrune.TestedAtClose | Assets/Scripts/GameController.cs:238-259 | an object still active when another closes, and that hits it, is reported |
| Detector.SortedEndpoints | Assets/Scripts/GameController.cs:197-220 | the sorted list is well ordered (each min before its max), starts with a min, is sorted after index 0 and has the same endpoints |
| Detector.Detect | Assets/Scripts/GameController.cs:195-263 | defines the detector as a value: project, sort, then sweep |
| Detector.SortedMinBeforeMax | Assets/Scripts/GameController.cs:265-287 | after the sort, each object's minimum still comes before its maximum |
| Detector.OpenAtClose | Assets/Scripts/GameController.cs:223-259 | an object whose minimum lies before position k and whose maximum lies after it is on the active list when the sweep reaches k |
| Detector.DetectSound | Assets/Scripts/GameController.cs:195-263 | every reported collision is between two distinct surviving objects of the frame that pass the narrow phase, and no pair is reported twice |
| Detector.DegenerateNeverReported | Assets/Scripts/GameController.cs:212-217 | an object with a zero-width interval is never in a collision |
| Detector.TestedWhenFirstCloses | Assets/Scripts/GameController.cs:223-259 | when an object closes while another that opened strictly earlier is still active, and they hit, the pair is reported |
| Detector.DetectReportsOverlap | Assets/Scripts/GameController.cs:195-263 | two surviving objects whose projected intervals overlap strictly (more than touching), and that pass the narrow phase, are reported in one order or the other |
| Detector.TouchingSortedAFirst | Assets/Scripts/GameController.cs:265-287 | in a frame of just two touching non-player boxes appended left to right, the endpoints sort as min A, max A, min B, max B |
| Detector.TouchingSortedBFirst | Assets/Scripts/GameController.cs:265-287 | in a frame of just these two boxes appended right to left, they sort as min B, min A, max A, max B |
| Detector.TouchingNotReportedWhenFirstCloses | Assets/Scripts/GameController.cs:223-259 | in a frame of just two touching non-player boxes appended left to right, nothing is reported |
| Detector.TouchingTestedWhenFirstStaysActive | Assets/Scripts/GameController.cs:223-259 | in a frame of just these two boxes appended right to left, the pair is reported exactly when it passes the narrow phase |
| Game.StatusTable | Assets/Scripts/GameController.cs:131-138 | defines the startup table as a value: each mapping adds its type if missing, then binds the type's key |
| Game.StatusTableEntries | Assets/Scripts/GameController.cs:131-138 | the table has an entry for exactly the mapped control types, all with status false |
| Game.StatusTableBindsLastKey | Assets/Scripts/GameController.cs:132-138 | a type mapped several times keeps the key of its last mapping |
| Game.Refreshed | Assets/Scripts/GameController.cs:113-117 | defines the key scan as a value: every entry keeps its key, and its status becomes whether that key went down this frame |
| Game.InputOf | Assets/Scripts/GameController.cs:98-106 | an unmapped type is never down; a mapped one reports its status |
| Game.RefreshedInput | Assets/Scripts/GameController.cs:108-118 | refreshing keeps the mapped types; a type is down afterwards exactly when it is mapped and its key went down this frame |
| Game.RemoveStep | Assets/Scripts/GameController.cs:234-236 | one pass of the removal loop, removing or keeping the entry at the index, keeps the loop's relation to `RemoveById` |
| Game.RemoveClosing | Assets/Scripts/GameController.cs:234-236 | the removal loop computes exactly `RemoveById`, skipping included |
| Game.GameController.constructor | Assets/Scripts/GameController.cs:121-141 | the table is built from the mappings; axes, moves and collisions start at zero or empty |
| Game.GameController.ClampPos | Assets/Scripts/GameController.cs:73-91 | when the tiled length, less one tile, is at least twice the padding, every result lies in the controller's scroll range; a position already inside it is kept |
| Game.GameController.UpdateInput | Assets/Scripts/GameController.cs:108-118 | the axes become this frame's raw axes; each mapped status becomes "its key went down"; only the input fields may change |
| Game.GameController.GetAxis | Assets/Scripts/GameController.cs:93-96 | reads the stored raw axis, X or Y |
| Game.GameController.GetInput | Assets/Scripts/GameController.cs:98-106 | a control is down when it has an entry in the table and that entry's status is set; an unmapped control is never down |
| Game.GameController.TestActive | Assets/Scripts/GameController.cs:239-259 | the closing object's hits against the active list are appended to the collisions |
| Game.GameController.Visit | Assets/Scripts/GameController.cs:224-259 | one endpoint performs exactly one step of the sweep on the active list and the collisions |
| Game.GameController.Sweep | Assets/Scripts/GameController.cs:221-261 | the loop appends exactly the sweep's collisions |
| Game.GameController.SweepAndPrune | Assets/Scripts/GameController.cs:195-263 | the collisions grow by exactly `Detect` of the objects, with Hack read from the controller's table |
| Game.GameController.Update | Assets/Scripts/GameController.cs:144-168 | after refreshing input, quit is requested exactly when Quit is mapped and its key went down; the collision list is exactly `Detect` of player, ravens and fireballs in that order; the moves are unchanged |
| Enemies.NextIndex | Assets/Scripts/EnemyController.cs:74-77 | the slot index advances by one while that stays below the pool size and wraps to 0 otherwise, so it stays in range |
| Enemies.IndexAfterWraps | Assets/Scripts/EnemyController.cs:74-77 | after k ≤ capacity spawns the index is index + k, less the capacity once it would leave the pool |
| Enemies.IndexAfterPeriod | Assets/Scripts/EnemyController.cs:74-77 | within one round the index returns to its start exactly after capacity spawns, so every slot is overwritten only once per round |
| Enemies.RateAllows | Assets/Scripts/EnemyController.cs:85 | defines the rate gate: the time since the last spawn exceeds `1 / rate`, and a zero rate never opens it |
| Enemies.RateGate | Assets/Scripts/EnemyController.cs:85 | a zero rate never spawns, a positive rate waits, a negative rate always spawns, and once open the gate stays open as time passes |
| Enemies.SpawnInPool | Assets/Scripts/EnemyController.cs:45-80 | the slot at the index gets the new enemy; its previous occupant is destroyed unless its object is already gone; the index advances with wrap; the timer resets |
| Enemies.RavenOf | Assets/Scripts/EnemyController.cs:154 | the raven of a raven-fireball collision is one of its two objects and is the raven |
| Enemies.MarkDying | Assets/Scripts/EnemyController.cs:143-173 | defines the marking loop as a value: each raven-fireball collision lists its raven, retagged as dead, unless it is listed already |
| Enemies.RavenAndFireball | Assets/Scripts/EnemyController.cs:147-151 | defines which collisions the enemy controller looks at: one raven and one fireball, in either order |
| Enemies.MarkDyingCorrect | Assets/Scripts/EnemyController.cs:143-173 | the dying list only grows at its end and never lists a raven twice; every raven hit by a fireball ends up in it, retagged as dead; every new entry comes from such a collision |
| Enemies.IsInList | Assets/Scripts/EnemyController.cs:156-164 | the early-exit search finds an id exactly when it is listed |
| Enemies.Without | Assets/Scripts/EnemyController.cs:190-212 | defines filtering as a value: the entries whose id is not in the set, in order, for both the gone ravens and the landed ones |
| Enemies.WithoutCorrect | Assets/Scripts/EnemyController.cs:190-212 | filtering keeps exactly the entries whose id is not removed; kept plus removed is the whole list |
| Enemies.WithoutDistinct | Assets/Scripts/EnemyController.cs:190-212 | filtering a list without repeated ids gives a list without repeated ids |
| Enemies.PruneLanded | Assets/Scripts/EnemyController.cs:195-211 | the loop with `i -= 1` keeps exactly the airborne ravens, in order, and stops exactly the landed ones |
| Enemies.MarkLoop | Assets/Scripts/EnemyController.cs:145-172 | the marking loop computes exactly `MarkDying` |
| Enemies.EnemyController.constructor | Assets/Scripts/EnemyController.cs:116-123 | both pools start empty with their configured capacities, and indices and timers start at 0 |
| Enemies.EnemyController.SpawnEnemy | Assets/Scripts/EnemyController.cs:82-113 | when the gate is open, a raven or fireball goes into its own pool, destroying the slot's previous occupant unless it is already gone, and the timer resets; otherwise nothing changes |
| Enemies.EnemyController.HandleCollisions | Assets/Scripts/EnemyController.cs:143-173 | the dying list becomes `MarkDying` of the collisions; pools, indices and timers are unchanged |
| Enemies.EnemyController.KillRavens | Assets/Scripts/EnemyController.cs:190-212 | destroyed ravens are dropped, then landed ravens are stopped and dropped; the airborne ones stay, in order |
| Enemies.EnemyController.Update | Assets/Scripts/EnemyController.cs:126-141 | both timers advance and gate one spawn each, with the pool and destroyed-occupant effects above; then the dying list is marked and pruned, and the landed ravens are the ones stopped |
| Player.Sign | Assets/Scripts/PlayerController.cs:281 | the sign is ±1 and is positive exactly for non-negative arguments |
| Player.HackLands | Assets/Scripts/PlayerController.cs:280-285 | defines when a hack lands: Hack is down, both axes are 0, and the wizard faces the side the collider is on |
| Player.React | Assets/Scripts/PlayerController.cs:260-295 | defines the collision reaction as a value: skip collisions without the wizard; a fireball kills it and ends the scan; a landed hack destroys the collider and ends it; anything else kills it and the scan goes on |
| Player.ReactIgnoresOthers | Assets/Scripts/PlayerController.cs:262-264 | collisions that do not involve the player change nothing |
| Player.ReactConsequence | Assets/Scripts/PlayerController.cs:260-295 | death is sticky, and any collision with the player ends with the player dead or a collider destroyed |
| Player.ReactDestroysOnlyWhenHackLands | Assets/Scripts/PlayerController.cs:276-289 | a destroyed object is a non-fireball collider of a collision with the player that the hack lands on: Hack down, both axes 0, facing the collider's side |
| Player.ReactWithoutHack | Assets/Scripts/PlayerController.cs:268-292 | without Hack, or while moving, any collision with the player kills it and destroys nothing |
| Player.Countdown | Assets/Scripts/PlayerController.cs:208-213 | a timer never rises, and one at or below 0 stays put |
| Player.CooldownHolds | Assets/Scripts/PlayerController.cs:211-213 | a cooldown set to t stays positive, and so blocks the next cast, until frames adding up to t have passed |
| Player.PlayerController.constructor | Assets/Scripts/PlayerController.cs:39-69 | the wizard starts alive, looking right, with all timers 0 and no action flags |
| Player.PlayerController.SetAnimState | Assets/Scripts/PlayerController.cs:83-146 | Die, or being dead already, makes the player dead; the sprite turns with the move; standing still plays a pending cast before a pending hack and clears only the flag it played |
| Player.PlayerController.Move | Assets/Scripts/PlayerController.cs:244-258 | the player's total move grows by the move; the scroller becomes the clamp of that total; the look direction becomes x; the controller's input and collisions are untouched |
| Player.PlayerController.HandleCollisions | Assets/Scripts/PlayerController.cs:260-295 | the loop with early returns computes exactly `React` over the controller's collisions, and changes only the death flag |
| Player.PlayerController.CastSpell | Assets/Scripts/PlayerController.cs:302-309 | the cooldown restarts at the spell cooldown, the cast timer at 0.66, and the cast flag is set |
| Player.PlayerController.Tick | Assets/Scripts/PlayerController.cs:198-213 | a jump starts only on the ground; a hack restarts the hack timer; a cast starts exactly when the cooldown has run out; each timer runs down while positive |
| Player.PlayerController.MoveAndCollide | Assets/Scripts/PlayerController.cs:184-195 | on the gated axes: death is sticky; the sprite turns with the move; standing still consumes a pending cast, or else a pending hack; a non-zero move grows the total, clamps the scroller and sets the look direction, and a zero move changes none of them; with collisions the result is `React` on the flags after the animation state, and without them nothing is destroyed; a destroyed collider means Hack was down and both axes were 0 |
| Player.PlayerController.Update | Assets/Scripts/PlayerController.cs:161-214 | death is sticky; a dead player reads no input and a busy one no movement; the facing, the action flags, the move, the collision reaction, the jump, the hack timer and the cast cooldown each follow from those gated inputs |

## Left out

- Engine calls are not modelled: finding objects by tag, component lookup, `Instantiate`, `Destroy`, instance ids and `Random.Range`. Objects are values with an id, a tag and a box. A new enemy's id is a parameter. A destroyed object is returned as an id. The player's hack range, `lookDirection` and `flipX` reach the game controller as parameters of its `Update`.
- Unity's "destroyed object compares equal to null" is modelled by a set `gone` of the ids whose objects were destroyed elsewhere (by the wizard's hack or spell). The enemy `Update` passes it to `SpawnEnemy` and `SpawnInPool`, which do not destroy a slot's occupant whose id is in it, and to `KillRavens`, which drops those dying ravens. A pool slot is never emptied: it is `Empty` only before its first spawn.
- Only the X component of positions and moves is modelled, since the scroll and the move are horizontal. Vertical motion, gravity, the jump impulse and all `FixedUpdate` physics are left out. Whether the wizard or a raven stands on the ground is an input.
- Single-precision floats are modelled as exact reals. Unity's approximate vector comparison for `move != Vector3.zero` is modelled as exact comparison of the X component.
- The Animator triggers are not modelled. Only the flags they read and write are: `SetAnimState` returns which attack animation it plays. The sprite's `flipX` is a field of the player.
- `Application.Quit` and the object renames are not modelled. `Update` returns the quit request as a flag.
- The spell's area effect in `CastSpell` is not modelled: the distance test against every raven and fireball. Only its cooldown bookkeeping is.
- `Enemies.EnemyController.HandleCollisions`: the live retag of a raven to `DeadRaven` is not modelled, and neither is freezing its animation. The retagged copy is stored in the dying list. Within one frame's collision list, the retag only affects the "already listed" check, which the model performs on the list.
- Spawn positions, rotations and headings are not modelled. Neither are the parallax scroller or sounds.
- `Enemies.EnemyController.constructor` requires both pool capacities to be at least 1, because a pool of size 0 would fail on its first index.
- `Game.GameController.SweepAndPrune` requires a non-negative hack range. The range is an editor setting with a positive default.
- The input devices are parameters: the raw axes and the set of keys that went down this frame. The frame time is a parameter. Where each collider lies relative to the wizard is a function parameter.
