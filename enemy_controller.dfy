/**
 * The enemy controller: two fixed-capacity round-robin pools (ravens and
 * fireballs) filled under a rate gate, and the list of dying ravens, filled
 * from raven-fireball collisions and pruned once a raven has landed.
 *
 * A game object is identified by its instance id; a pool slot either holds
 * one or is empty.  Whether a destroyed object is gone and whether a dying
 * raven has reached the ground are inputs of the frame.
 */
module Enemies {
  import opened Wrappers
  import opened Geometry
  import opened SweepPrune
  import opened Seqs

  /** A pool slot: the object it holds, or nothing. */
  datatype Slot = Empty | Holds(id: int)

  /** A raven hit by a fireball, falling until it lands. */
  datatype DyingRaven = DyingRaven(instanceId: int, raven: Entity)

  // ---------------------------------------------------------------------
  // Round-robin pools

  /** The pool index after a spawn: one further, back to 0 at the capacity. */
  function NextIndex(index: int, maxObjs: int): (next: int)
    ensures 0 <= index < maxObjs ==> 0 <= next < maxObjs
    ensures next == 0 || next == index + 1
    ensures index + 1 < maxObjs ==> next == index + 1
    ensures index + 1 >= maxObjs ==> next == 0
  {
    if index + 1 >= maxObjs then 0 else index + 1
  }

  /** The pool index after `k` spawns. */
  function IndexAfter(index: int, k: nat, maxObjs: int): int
    decreases k
  {
    if k == 0 then index else NextIndex(IndexAfter(index, k - 1, maxObjs), maxObjs)
  }

  /** The pool is used round-robin: over up to `maxObjs` spawns the index
      walks up from where it was and wraps past the end exactly once. */
  lemma {:induction false} IndexAfterWraps(index: int, k: nat, maxObjs: int)
    requires 0 <= index < maxObjs && k <= maxObjs
    ensures IndexAfter(index, k, maxObjs) == if index + k < maxObjs then index + k else index + k - maxObjs
    decreases k
  {
    if k > 0 {
      IndexAfterWraps(index, k - 1, maxObjs);
    }
  }

  /** A slot is reused only after every other slot has been: the index is
      back where it was after exactly `maxObjs` spawns, and not before. */
  lemma IndexAfterPeriod(index: int, k: nat, maxObjs: int)
    requires 0 <= index < maxObjs && 0 < k <= maxObjs
    ensures IndexAfter(index, k, maxObjs) == index <==> k == maxObjs
  {
    IndexAfterWraps(index, k, maxObjs);
  }

  /** The rate gate: a spawn may happen once the time since the last one
      exceeds `1 / rate`.  A rate of 0 makes the bound infinite, so nothing
      is ever spawned. */
  predicate RateAllows(timer: real, rate: real) {
    rate != 0.0 && timer > 1.0 / rate
  }

  /** A rate of 0 never opens the gate; a positive rate keeps it shut
      until some time has passed; a negative rate never shuts it; and once
      open, it stays open as time goes on. */
  lemma RateGate(timer: real, later: real, rate: real)
    ensures rate == 0.0 ==> !RateAllows(timer, rate)
    ensures rate > 0.0 && timer <= 0.0 ==> !RateAllows(timer, rate)
    ensures rate < 0.0 && timer >= 0.0 ==> RateAllows(timer, rate)
    ensures RateAllows(timer, rate) && timer <= later ==> RateAllows(later, rate)
  {
  }

  /** Spawn into a pool: the previous occupant of the slot at `index` is
      destroyed unless its object is already gone (`gone` holds the ids of
      objects destroyed elsewhere, which compare equal to null), the new
      enemy takes the slot, the index advances round-robin and the rate
      timer restarts. */
  method SpawnInPool(pool: array<Slot>, index: int, maxObjs: int, enemy: int, gone: set<int>)
      returns (destroyed: Option<int>, nextIndex: int, timer: real)
    requires 0 <= index < pool.Length
    modifies pool
    ensures pool[..] == old(pool[..])[index := Holds(enemy)]
    ensures destroyed == if old(pool[index]).Holds? && old(pool[index]).id !in gone
                         then Some(old(pool[index]).id) else None
    ensures nextIndex == NextIndex(index, maxObjs)
    ensures timer == 0.0
  {
    timer := 0.0;
    destroyed := None;
    if pool[index].Holds? && pool[index].id !in gone {
      destroyed := Some(pool[index].id);
    }
    pool[index] := Holds(enemy);
    nextIndex := index + 1;
    if nextIndex >= maxObjs {
      nextIndex := 0;
    }
  }

  // ---------------------------------------------------------------------
  // Dying ravens

  function DyingIds(dying: seq<DyingRaven>): set<int> {
    set d | d in dying :: d.instanceId
  }

  /** No raven is listed twice. */
  predicate DistinctDying(dying: seq<DyingRaven>) {
    forall i, j :: 0 <= i < j < |dying| ==> dying[i].instanceId != dying[j].instanceId
  }

  /** A collision between exactly one raven and one fireball, in either order. */
  predicate RavenAndFireball(c: Collision) {
    (c.go1.tag == Raven && c.go2.tag == Fireball) || (c.go1.tag == Fireball && c.go2.tag == Raven)
  }

  /** The raven of a raven-fireball collision. */
  function RavenOf(c: Collision): (raven: Entity)
    requires RavenAndFireball(c)
    ensures raven.tag == Raven && (raven == c.go1 || raven == c.go2)
  {
    if c.go1.tag == Raven then c.go1 else c.go2
  }

  /** The entries the raven-fireball collisions of `cols` may add: each
      such raven, retagged as dead. */
  function Candidates(cols: seq<Collision>): set<DyingRaven> {
    set c | c in cols && RavenAndFireball(c) :: DyingRaven(RavenOf(c).id, RavenOf(c).(tag := DeadRaven))
  }

  /** The dying list after the collisions `cols`, one after another: each
      raven hit by a fireball is listed once, retagged as dead. */
  function MarkDying(dying: seq<DyingRaven>, cols: seq<Collision>): seq<DyingRaven>
    decreases |cols|
  {
    if cols == [] then dying
    else
      var d := MarkDying(dying, cols[..|cols| - 1]);
      var c := cols[|cols| - 1];
      if !RavenAndFireball(c) || RavenOf(c).id in DyingIds(d) then d
      else d + [DyingRaven(RavenOf(c).id, RavenOf(c).(tag := DeadRaven))]
  }

  /** Marking only appends, keeps the list free of duplicates, and lists
      exactly the ravens already listed and those hit by a fireball. */
  lemma {:induction false} MarkDyingCorrect(dying: seq<DyingRaven>, cols: seq<Collision>)
    requires DistinctDying(dying)
    ensures dying <= MarkDying(dying, cols)
    ensures DistinctDying(MarkDying(dying, cols))
    ensures forall c :: c in cols && RavenAndFireball(c) ==> RavenOf(c).id in DyingIds(MarkDying(dying, cols))
    ensures forall d :: d in MarkDying(dying, cols)[|dying|..] ==> d in Candidates(cols)
    decreases |cols|
  {
    if cols != [] {
      var init, c := cols[..|cols| - 1], cols[|cols| - 1];
      MarkDyingCorrect(dying, init);
      var d := MarkDying(dying, init);
      var result := MarkDying(dying, cols);
      assert forall x :: x in init ==> x in cols;
      if RavenAndFireball(c) && RavenOf(c).id !in DyingIds(d) {
        forall i, j | 0 <= i < j < |result| ensures result[i].instanceId != result[j].instanceId {
          if j == |d| {
            assert result[i] in d;
          }
        }
        assert result[|d|].instanceId in DyingIds(result);
      }
      forall x | x in cols && RavenAndFireball(x) ensures RavenOf(x).id in DyingIds(result) {
        if x != c {
          assert x in init;
        }
      }
      assert Candidates(init) <= Candidates(cols);
      forall x | x in result[|dying|..] ensures x in Candidates(cols) {
        var i :| |dying| <= i < |result| && result[i] == x;
        if i < |d| {
          assert x in d[|dying|..];
        }
      }
    }
  }

  /** The search of the dying list for a raven, stopping at the first match. */
  method IsInList(dying: seq<DyingRaven>, id: int) returns (found: bool)
    ensures found <==> id in DyingIds(dying)
  {
    found := false;
    var k := 0;
    while k < |dying|
      invariant 0 <= k <= |dying|
      invariant id !in DyingIds(dying[..k])
    {
      if dying[k].instanceId == id {
        found := true;
        assert dying[k] in dying;
        return;
      }
      assert dying[..k + 1] == dying[..k] + [dying[k]];
      k := k + 1;
    }
    assert dying[..k] == dying;
  }

  /** The entries whose instance id is not in `out`, in order. */
  function Without(dying: seq<DyingRaven>, out: set<int>): seq<DyingRaven>
    decreases |dying|
  {
    if dying == [] then []
    else Without(dying[..|dying| - 1], out)
         + (if dying[|dying| - 1].instanceId in out then [] else [dying[|dying| - 1]])
  }

  /** The instance ids of the entries whose id is in `out`, in order. */
  function IdsIn(dying: seq<DyingRaven>, out: set<int>): seq<int>
    decreases |dying|
  {
    if dying == [] then []
    else IdsIn(dying[..|dying| - 1], out)
         + (if dying[|dying| - 1].instanceId in out then [dying[|dying| - 1].instanceId] else [])
  }

  /** Dropping entries keeps exactly those whose id is not dropped, and
      every entry is either kept or has its id collected. */
  lemma {:induction false} WithoutCorrect(dying: seq<DyingRaven>, out: set<int>)
    ensures forall d :: d in Without(dying, out) <==> d in dying && d.instanceId !in out
    ensures |Without(dying, out)| + |IdsIn(dying, out)| == |dying|
    decreases |dying|
  {
    if dying != [] {
      var init := dying[..|dying| - 1];
      WithoutCorrect(init, out);
      assert forall d :: d in dying <==> d in init || d == dying[|dying| - 1];
    }
  }

  /** Dropping entries keeps the list free of duplicates. */
  lemma {:induction false} WithoutDistinct(dying: seq<DyingRaven>, out: set<int>)
    requires DistinctDying(dying)
    ensures DistinctDying(Without(dying, out))
    decreases |dying|
  {
    if dying != [] {
      var init, last := dying[..|dying| - 1], dying[|dying| - 1];
      assert DistinctDying(init);
      WithoutDistinct(init, out);
      if last.instanceId !in out {
        var w := Without(dying, out);
        forall i, j | 0 <= i < j < |w| ensures w[i].instanceId != w[j].instanceId {
          if j == |w| - 1 {
            WithoutCorrect(init, out);
            var k := IndexOf(init, w[i]);
            assert dying[k] == w[i];
          }
        }
      }
    }
  }

  /** `Without` and `IdsIn` distribute over a split of the list. */
  lemma {:induction false} WithoutAppend(s: seq<DyingRaven>, t: seq<DyingRaven>, out: set<int>)
    ensures Without(s + t, out) == Without(s, out) + Without(t, out)
    ensures IdsIn(s + t, out) == IdsIn(s, out) + IdsIn(t, out)
    decreases |t|
  {
    if t == [] {
      assert s + t == s;
    } else {
      assert (s + t)[..|s + t| - 1] == s + t[..|t| - 1];
      WithoutAppend(s, t[..|t| - 1], out);
    }
  }

  /** One more entry of the list: it is kept or its id collected. */
  lemma WithoutSnoc(alive: seq<DyingRaven>, k: int, out: set<int>)
    requires 0 <= k < |alive|
    ensures Without(alive[..k + 1], out)
         == Without(alive[..k], out) + (if alive[k].instanceId in out then [] else [alive[k]])
    ensures IdsIn(alive[..k + 1], out)
         == IdsIn(alive[..k], out) + (if alive[k].instanceId in out then [alive[k].instanceId] else [])
  {
    assert alive[..k + 1][..k] == alive[..k];
  }

  /** The list `prev` followed by the entries of `s` from `k` on, seen
      around its entry at `|prev|`. */
  lemma SplitAt(prev: seq<DyingRaven>, s: seq<DyingRaven>, k: int)
    requires 0 <= k < |s|
    ensures (prev + s[k..])[|prev|] == s[k]
    ensures prev + s[k..] == prev + [s[k]] + s[k + 1..]
    ensures (prev + s[k..])[..|prev|] + (prev + s[k..])[|prev| + 1..] == prev + s[k + 1..]
  {
    assert s[k..] == [s[k]] + s[k + 1..];
  }

  /** The pruning loop over the dying ravens: a grounded raven is stopped
      and removed, and the index steps back so that the entry sliding into
      its place is examined next; an airborne raven stays. */
  method PruneLanded(alive: seq<DyingRaven>, grounded: set<int>) returns (airborne: seq<DyingRaven>, stopped: seq<int>)
    ensures airborne == Without(alive, grounded)
    ensures stopped == IdsIn(alive, grounded)
  {
    airborne := alive;
    stopped := [];
    ghost var k := 0;
    var i := 0;
    while i < |airborne|
      invariant 0 <= k <= |alive|
      invariant i == |Without(alive[..k], grounded)|
      invariant airborne == Without(alive[..k], grounded) + alive[k..]
      invariant stopped == IdsIn(alive[..k], grounded)
      decreases |alive| - k
    {
      ghost var prev := Without(alive[..k], grounded);
      SplitAt(prev, alive, k);
      WithoutSnoc(alive, k, grounded);
      var raven := airborne[i];
      k := k + 1;
      if raven.instanceId !in grounded {
        i := i + 1;
        continue;
      }
      stopped := stopped + [raven.instanceId];
      airborne := airborne[..i] + airborne[i + 1..];
      // after a removal the index stays put: the entry that slid into
      // the removed one's place is the next one looked at
    }
    assert alive[..k] == alive;
  }

  /** The marking loop over the frame's collisions: skip a collision that
      is not raven-fireball, skip a raven already listed, else list it as
      dead. */
  method MarkLoop(dying: seq<DyingRaven>, collisions: seq<Collision>) returns (list: seq<DyingRaven>)
    ensures list == MarkDying(dying, collisions)
  {
    list := dying;
    var n := 0;
    while n < |collisions|
      invariant 0 <= n <= |collisions|
      invariant list == MarkDying(dying, collisions[..n])
    {
      var col := collisions[n];
      assert collisions[..n + 1][..n] == collisions[..n];
      var ravenAndFireball := col.go1.tag == Raven && col.go2.tag == Fireball;
      var fireballAndRaven := col.go1.tag == Fireball && col.go2.tag == Raven;
      if ravenAndFireball || fireballAndRaven {
        var raven := if col.go1.tag == Raven then col.go1 else col.go2;
        var isInList := IsInList(list, raven.id);
        if !isInList {
          list := list + [DyingRaven(raven.id, raven.(tag := DeadRaven))];
        }
      }
      n := n + 1;
    }
    assert collisions[..n] == collisions;
  }

  class EnemyController {
    var ravenArray: array<Slot>
    var ravenIndex: int
    var fireArray: array<Slot>
    var fireIndex: int
    /** Time since the last raven and the last fireball spawn. */
    var ravenTime: real
    var fireTime: real
    const maxRavens: int
    const ravenRate: real
    const maxFireballs: int
    const fireballRate: real
    var dyingRavens: seq<DyingRaven>

    ghost predicate Valid()
      reads this
    {
      && ravenArray != fireArray
      && ravenArray.Length == maxRavens && fireArray.Length == maxFireballs
      && 0 <= ravenIndex < maxRavens && 0 <= fireIndex < maxFireballs
      && DistinctDying(dyingRavens)
    }

    /** Start: two empty pools of the configured capacities. */
    constructor (maxRavens: int, ravenRate: real, maxFireballs: int, fireballRate: real)
      requires maxRavens >= 1 && maxFireballs >= 1
      ensures Valid() && fresh(ravenArray) && fresh(fireArray)
      ensures this.maxRavens == maxRavens && this.ravenRate == ravenRate
      ensures this.maxFireballs == maxFireballs && this.fireballRate == fireballRate
      ensures forall k :: 0 <= k < ravenArray.Length ==> ravenArray[k] == Empty
      ensures forall k :: 0 <= k < fireArray.Length ==> fireArray[k] == Empty
      ensures ravenIndex == 0 && fireIndex == 0 && ravenTime == 0.0 && fireTime == 0.0
      ensures dyingRavens == []
    {
      this.maxRavens := maxRavens;
      this.ravenRate := ravenRate;
      this.maxFireballs := maxFireballs;
      this.fireballRate := fireballRate;
      ravenArray := new Slot[maxRavens](_ => Empty);
      fireArray := new Slot[maxFireballs](_ => Empty);
      ravenIndex, fireIndex := 0, 0;
      ravenTime, fireTime := 0.0, 0.0;
      dyingRavens := [];
    }

    /** The gated spawn of one kind of enemy, with its own timer and rate:
        when the gate is closed nothing changes; when it is open a raven
        (or fireball) goes into the raven (or fireball) pool and the timer
        restarts.  Any other kind spawns nothing. */
    method SpawnEnemy(kind: Tag, timer: real, rate: real, newId: int, gone: set<int>)
        returns (timerAfter: real, destroyed: Option<int>)
      requires Valid()
      modifies this`ravenIndex, this`fireIndex, ravenArray, fireArray
      ensures Valid()
      ensures var spawnRaven := RateAllows(timer, rate) && kind == Raven;
        && ravenArray[..] == (if spawnRaven then old(ravenArray[..])[old(ravenIndex) := Holds(newId)] else old(ravenArray[..]))
        && ravenIndex == (if spawnRaven then NextIndex(old(ravenIndex), maxRavens) else old(ravenIndex))
      ensures var spawnFire := RateAllows(timer, rate) && kind == Fireball;
        && fireArray[..] == (if spawnFire then old(fireArray[..])[old(fireIndex) := Holds(newId)] else old(fireArray[..]))
        && fireIndex == (if spawnFire then NextIndex(old(fireIndex), maxFireballs) else old(fireIndex))
      ensures timerAfter == if RateAllows(timer, rate) && (kind == Raven || kind == Fireball) then 0.0 else timer
      // the enemy that held the overwritten slot is destroyed
      ensures destroyed == if RateAllows(timer, rate) && kind == Raven && old(ravenArray[ravenIndex]).Holds?
                              && old(ravenArray[ravenIndex]).id !in gone
                           then Some(old(ravenArray[ravenIndex]).id)
                           else if RateAllows(timer, rate) && kind == Fireball && old(fireArray[fireIndex]).Holds?
                              && old(fireArray[fireIndex]).id !in gone
                           then Some(old(fireArray[fireIndex]).id)
                           else None
    {
      timerAfter := timer;
      destroyed := None;
      // a zero rate makes the bound infinite: the gate stays closed
      if rate != 0.0 && timer > 1.0 / rate {
        if kind == Raven {
          destroyed, ravenIndex, timerAfter := SpawnInPool(ravenArray, ravenIndex, maxRavens, newId, gone);
        }
        if kind == Fireball {
          destroyed, fireIndex, timerAfter := SpawnInPool(fireArray, fireIndex, maxFireballs, newId, gone);
        }
      }
    }

    /** Every raven hit by a fireball joins the dying list, once. */
    method HandleCollisions(collisions: seq<Collision>)
      requires Valid()
      modifies this`dyingRavens
      ensures Valid()
      ensures dyingRavens == MarkDying(old(dyingRavens), collisions)
    {
      MarkDyingCorrect(dyingRavens, collisions);
      dyingRavens := MarkLoop(dyingRavens, collisions);
    }

    /** Drop the dying ravens whose object is gone, then stop and drop those
        that have landed; the airborne ones stay, in order. */
    method KillRavens(gone: set<int>, grounded: set<int>) returns (stopped: seq<int>)
      requires Valid()
      modifies this`dyingRavens
      ensures Valid()
      ensures dyingRavens == Without(Without(old(dyingRavens), gone), grounded)
      ensures stopped == IdsIn(Without(old(dyingRavens), gone), grounded)
    {
      var alive := Without(dyingRavens, gone);
      WithoutDistinct(dyingRavens, gone);
      WithoutDistinct(alive, grounded);
      var airborne;
      airborne, stopped := PruneLanded(alive, grounded);
      dyingRavens := airborne;
    }

    /** One frame: advance both timers, try a raven and a fireball spawn,
        mark the ravens hit this frame, then prune the dying list.  `gone`
        holds the ids of the objects destroyed elsewhere (by the wizard's
        hack or spell), which the pools and the dying list treat as null. */
    method Update(deltaTime: real, newRavenId: int, newFireballId: int, collisions: seq<Collision>,
                  gone: set<int>, grounded: set<int>)
        returns (destroyedRaven: Option<int>, destroyedFireball: Option<int>, stopped: seq<int>)
      requires Valid()
      modifies this, ravenArray, fireArray
      ensures Valid()
      ensures ravenArray == old(ravenArray) && fireArray == old(fireArray)
      ensures ravenTime == if RateAllows(old(ravenTime) + deltaTime, ravenRate) then 0.0 else old(ravenTime) + deltaTime
      ensures fireTime == if RateAllows(old(fireTime) + deltaTime, fireballRate) then 0.0 else old(fireTime) + deltaTime
      ensures var spawn := RateAllows(old(ravenTime) + deltaTime, ravenRate);
        && ravenArray[..] == (if spawn then old(ravenArray[..])[old(ravenIndex) := Holds(newRavenId)] else old(ravenArray[..]))
        && ravenIndex == (if spawn then NextIndex(old(ravenIndex), maxRavens) else old(ravenIndex))
        && destroyedRaven == (if spawn && old(ravenArray[ravenIndex]).Holds? && old(ravenArray[ravenIndex]).id !in gone
                              then Some(old(ravenArray[ravenIndex]).id) else None)
      ensures var spawn := RateAllows(old(fireTime) + deltaTime, fireballRate);
        && fireArray[..] == (if spawn then old(fireArray[..])[old(fireIndex) := Holds(newFireballId)] else old(fireArray[..]))
        && fireIndex == (if spawn then NextIndex(old(fireIndex), maxFireballs) else old(fireIndex))
        && destroyedFireball == (if spawn && old(fireArray[fireIndex]).Holds? && old(fireArray[fireIndex]).id !in gone
                                 then Some(old(fireArray[fireIndex]).id) else None)
      ensures var marked := MarkDying(old(dyingRavens), collisions);
        && dyingRavens == Without(Without(marked, gone), grounded)
        && stopped == IdsIn(Without(marked, gone), grounded)
    {
      ravenTime := ravenTime + deltaTime;
      fireTime := fireTime + deltaTime;
      ravenTime, destroyedRaven := SpawnEnemy(Raven, ravenTime, ravenRate, newRavenId, gone);
      fireTime, destroyedFireball := SpawnEnemy(Fireball, fireTime, fireballRate, newFireballId, gone);
      if |collisions| > 0 {
        HandleCollisions(collisions);
      }
      stopped := KillRavens(gone, grounded);
    }
  }
}
