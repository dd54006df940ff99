/**
 * The sweep of sweep-and-prune: endpoints are visited in sorted order; a
 * minimum opens its entity's interval (appends it to the active list); a
 * maximum first removes its entity from the active list and then runs the
 * narrow-phase test between the closing entity and every entity still
 * active, recording each hit as a collision (closing entity first).
 *
 * The functions here describe the sweep one endpoint at a time; the loop
 * that runs it, appending to the game controller's collision list, is
 * `Game.GameController.SweepAndPrune`.
 */
module SweepPrune {
  import opened Geometry
  import opened EndPoints
  import opened EndpointSort

  /** A reported pair of intersecting game objects. */
  datatype Collision = Collision(go1: Entity, go2: Entity)

  /** The state of the sweep: the active list and the collisions found. */
  datatype SweepState = SweepState(active: seq<EndPoint>, found: seq<Collision>)

  /** No two endpoints of `s` belong to the same instance id. */
  predicate UniqueIds(s: seq<EndPoint>) {
    forall i, j :: 0 <= i < j < |s| ==> s[i].ent.id != s[j].ent.id
  }

  function Ids(s: seq<EndPoint>): set<int> {
    set x | x in s :: x.ent.id
  }

  function Ents(s: seq<EndPoint>): set<Entity> {
    set x | x in s :: x.ent
  }

  /** Instance ids whose minimum (`isMin`) or maximum (`!isMin`) endpoint is in `s`. */
  function KindIds(s: seq<EndPoint>, isMin: bool): set<int> {
    set x | x in s && x.isMin == isMin :: x.ent.id
  }

  /** The same unordered pair of objects. */
  predicate SamePair(a: Collision, b: Collision) {
    (a.go1 == b.go1 && a.go2 == b.go2) || (a.go1 == b.go2 && a.go2 == b.go1)
  }

  /** Each unordered pair of objects is reported at most once. */
  predicate PairsDistinct(cs: seq<Collision>) {
    forall i, j :: 0 <= i < j < |cs| ==> !SamePair(cs[i], cs[j])
  }

  /** The loop that removes the closing entity from the active list: it
      scans upward and removes every entry with the id, but the entry that
      slides into a removed entry's place is not looked at. */
  function RemoveById(active: seq<EndPoint>, id: int): seq<EndPoint>
    decreases |active|
  {
    if active == [] then []
    else if active[0].ent.id == id then
      if |active| == 1 then [] else [active[1]] + RemoveById(active[2..], id)
    else [active[0]] + RemoveById(active[1..], id)
  }

  /** Removal only removes, and never removes an entry of another entity. */
  lemma {:induction false} RemoveByIdKeeps(active: seq<EndPoint>, id: int)
    ensures forall x :: x in RemoveById(active, id) ==> x in active
    ensures forall x :: x in active && x.ent.id != id ==> x in RemoveById(active, id)
    decreases |active|
  {
    if active == [] {
    } else if active[0].ent.id == id {
      if |active| > 1 {
        RemoveByIdKeeps(active[2..], id);
        assert active == [active[0], active[1]] + active[2..];
      }
    } else {
      RemoveByIdKeeps(active[1..], id);
      assert active == [active[0]] + active[1..];
    }
  }

  /** Prepending an entry of a new id keeps the ids unique. */
  lemma UniqueCons(x: EndPoint, s: seq<EndPoint>)
    requires UniqueIds(s) && x.ent.id !in Ids(s)
    ensures UniqueIds([x] + s)
  {
    var t := [x] + s;
    forall i, j | 0 <= i < j < |t| ensures t[i].ent.id != t[j].ent.id {
      if i == 0 {
        assert t[j] == s[j - 1];
      } else {
        assert t[i] == s[i - 1] && t[j] == s[j - 1];
      }
    }
  }

  /** With one entry per entity, removal removes exactly the closing entity. */
  lemma {:induction false} RemoveByIdUnique(active: seq<EndPoint>, id: int)
    requires UniqueIds(active)
    ensures UniqueIds(RemoveById(active, id)) && id !in Ids(RemoveById(active, id))
    decreases |active|
  {
    if active == [] {
    } else if active[0].ent.id == id {
      if |active| > 1 {
        var tail := active[2..];
        assert UniqueIds(tail) by {
          forall i, j | 0 <= i < j < |tail| ensures tail[i].ent.id != tail[j].ent.id {
            assert tail[i] == active[i + 2] && tail[j] == active[j + 2];
          }
        }
        RemoveByIdUnique(tail, id);
        RemoveByIdKeeps(tail, id);
        assert active[1].ent.id != id;
        assert active[1].ent.id !in Ids(RemoveById(tail, id)) by {
          forall x | x in RemoveById(tail, id) ensures x.ent.id != active[1].ent.id {
            var k :| 0 <= k < |tail| && tail[k] == x;
            assert active[k + 2] == x;
          }
        }
        UniqueCons(active[1], RemoveById(tail, id));
      }
    } else {
      var tail := active[1..];
      assert UniqueIds(tail) by {
        forall i, j | 0 <= i < j < |tail| ensures tail[i].ent.id != tail[j].ent.id {
          assert tail[i] == active[i + 1] && tail[j] == active[j + 1];
        }
      }
      RemoveByIdUnique(tail, id);
      RemoveByIdKeeps(tail, id);
      assert active[0].ent.id !in Ids(RemoveById(tail, id)) by {
        forall x | x in RemoveById(tail, id) ensures x.ent.id != active[0].ent.id {
          var k :| 0 <= k < |tail| && tail[k] == x;
          assert active[k + 1] == x;
        }
      }
      UniqueCons(active[0], RemoveById(tail, id));
    }
  }

  /** The narrow-phase tests run when `item` closes, in active-list order. */
  function Tests(item: EndPoint, active: seq<EndPoint>, r: Reach): seq<Collision>
    decreases |active|
  {
    if active == [] then []
    else
      var last := active[|active| - 1];
      Tests(item, active[..|active| - 1], r)
        + (if Intersects(item.ent, last.ent, r) then [Collision(item.ent, last.ent)] else [])
  }

  /** Every hit pairs the closing entity with an active one and passed the
      test; every active entity that passes the test is reported; and with
      one entry per entity, no pair is reported twice. */
  lemma {:induction false} TestsCorrect(item: EndPoint, active: seq<EndPoint>, r: Reach)
    ensures forall c :: c in Tests(item, active, r) ==>
      c.go1 == item.ent && c.go2 in Ents(active) && Intersects(c.go1, c.go2, r)
    ensures forall x :: x in active && Intersects(item.ent, x.ent, r) ==> Collision(item.ent, x.ent) in Tests(item, active, r)
    ensures UniqueIds(active) ==> PairsDistinct(Tests(item, active, r))
    decreases |active|
  {
    if active != [] {
      var init, last := active[..|active| - 1], active[|active| - 1];
      TestsCorrect(item, init, r);
      assert forall x :: x in active ==> x in init || x == last;
      assert UniqueIds(active) ==> UniqueIds(init) && last.ent.id !in Ids(init);
      assert Ents(init) <= Ents(active);
    }
  }

  /** One iteration of the sweep loop. */
  function Step(st: SweepState, item: EndPoint, r: Reach): SweepState {
    if item.isMin then SweepState(st.active + [item], st.found)
    else
      var rest := RemoveById(st.active, item.ent.id);
      SweepState(rest, st.found + Tests(item, rest, r))
  }

  /** The sweep over the endpoints `eps`, from an empty active list and no
      collisions. */
  function Run(eps: seq<EndPoint>, r: Reach): SweepState
    decreases |eps|
  {
    if eps == [] then SweepState([], [])
    else Step(Run(eps[..|eps| - 1], r), eps[|eps| - 1], r)
  }

  /** The sweep over one more endpoint of a list takes one more step. */
  lemma RunPrefixStep(eps: seq<EndPoint>, i: int, r: Reach)
    requires 0 <= i < |eps|
    ensures Run(eps[..i + 1], r) == Step(Run(eps[..i], r), eps[i], r)
  {
    assert eps[..i + 1][..i] == eps[..i];
  }

  /** What the sweep relies on in its input: each instance id has at most
      one minimum and at most one maximum, and a minimum precedes the
      maximum of the same id. */
  predicate WellOrdered(eps: seq<EndPoint>) {
    && (forall i, j :: 0 <= i < j < |eps| && eps[i].isMin == eps[j].isMin ==> eps[i].ent.id != eps[j].ent.id)
    && (forall i, j ::
          (0 <= i < |eps| && 0 <= j < |eps| && eps[i].isMin && !eps[j].isMin && eps[i].ent.id == eps[j].ent.id)
          ==> i < j)
  }

  lemma KindIdsSnoc(s: seq<EndPoint>, x: EndPoint, isMin: bool)
    ensures KindIds(s + [x], isMin) == KindIds(s, isMin) + (if x.isMin == isMin then {x.ent.id} else {})
  {
    assert forall y :: y in s + [x] <==> y in s || y == x;
  }

  /** In a well-ordered list, an id is among the kind's ids of a prefix only
      if its endpoint of that kind lies in the prefix. */
  lemma KindIdsPrefix(eps: seq<EndPoint>, k: int, j: int)
    requires WellOrdered(eps) && 0 <= k <= j < |eps|
    ensures eps[j].ent.id !in KindIds(eps[..k], eps[j].isMin)
  {
  }

  lemma KindIdsAt(eps: seq<EndPoint>, k: int, i: int)
    requires 0 <= i < k <= |eps|
    ensures eps[i].ent.id in KindIds(eps[..k], eps[i].isMin)
  {
    assert eps[..k][i] == eps[i];
  }

  /** The invariant the sweep keeps after the endpoints `done`: the active
      list holds exactly the entities opened and not yet closed, once each;
      every collision found pairs a closed entity with a different one that
      passed the narrow-phase test, and no pair is found twice. */
  ghost predicate SweepInvariant(done: seq<EndPoint>, st: SweepState, r: Reach) {
    && (forall x :: x in st.active ==> x in done && x.isMin)
    && UniqueIds(st.active)
    && Ids(st.active) == KindIds(done, true) - KindIds(done, false)
    && (forall c :: c in st.found ==>
          && c.go1.id in KindIds(done, false) && c.go1.id != c.go2.id
          && c.go1 in Ents(done) && c.go2 in Ents(done)
          && Intersects(c.go1, c.go2, r))
    && PairsDistinct(st.found)
  }

  /** A minimum endpoint keeps the invariant. */
  lemma StepOpens(p: seq<EndPoint>, item: EndPoint, st: SweepState, r: Reach)
    requires WellOrdered(p + [item]) && item.isMin
    requires SweepInvariant(p, st, r)
    ensures SweepInvariant(p + [item], Step(st, item, r), r)
  {
    var eps := p + [item];
    var n := |eps|;
    assert eps[..n - 1] == p;
    KindIdsSnoc(p, item, true);
    KindIdsSnoc(p, item, false);
    KindIdsPrefix(eps, n - 1, n - 1);
    assert Ents(p) <= Ents(eps);
    // the maximum of this id, if any, comes later
    assert item.ent.id !in KindIds(p, false);
    assert Ids(st.active + [item]) == Ids(st.active) + {item.ent.id};
  }

  /** Closing an entity keeps the description of the active list. */
  lemma StepClosesActive(p: seq<EndPoint>, item: EndPoint, st: SweepState, r: Reach)
    requires WellOrdered(p + [item]) && !item.isMin
    requires SweepInvariant(p, st, r)
    ensures var rest := RemoveById(st.active, item.ent.id);
      && (forall x :: x in rest ==> x in p + [item] && x.isMin)
      && UniqueIds(rest)
      && Ids(rest) == KindIds(p + [item], true) - KindIds(p + [item], false)
      && Ids(rest) <= Ids(st.active)
      && Ents(rest) <= Ents(p)
  {
    var eps := p + [item];
    KindIdsSnoc(p, item, true);
    KindIdsSnoc(p, item, false);
    var rest := RemoveById(st.active, item.ent.id);
    RemoveByIdKeeps(st.active, item.ent.id);
    RemoveByIdUnique(st.active, item.ent.id);
    assert Ids(rest) == Ids(st.active) - {item.ent.id};
  }

  /** Appending hits that pair a fresh closing entity with active entities
      keeps every pair distinct. */
  lemma AppendFreshPairs(found: seq<Collision>, hits: seq<Collision>, closing: Entity, closed: set<int>, open: set<int>)
    requires PairsDistinct(found) && PairsDistinct(hits)
    requires forall c :: c in found ==> c.go1.id in closed
    requires closing.id !in closed && open !! closed
    requires forall c :: c in hits ==> c.go1 == closing && c.go2.id in open
    ensures PairsDistinct(found + hits)
  {
    var all := found + hits;
    forall i, j | 0 <= i < j < |all| ensures !SamePair(all[i], all[j]) {
      if i < |found| && j >= |found| {
        assert all[j] in hits;
        assert all[i] in found;
      } else if i >= |found| {
        assert all[i] == hits[i - |found|];
        assert all[j] == hits[j - |found|];
      }
    }
  }

  /** The tests run when an entity closes add only fresh pairs. */
  lemma StepCloses(p: seq<EndPoint>, item: EndPoint, st: SweepState, r: Reach)
    requires WellOrdered(p + [item]) && !item.isMin
    requires SweepInvariant(p, st, r)
    ensures SweepInvariant(p + [item], Step(st, item, r), r)
  {
    var eps := p + [item];
    var n := |eps|;
    assert eps[..n - 1] == p;
    KindIdsPrefix(eps, n - 1, n - 1);
    KindIdsSnoc(p, item, false);
    StepClosesActive(p, item, st, r);
    var rest := RemoveById(st.active, item.ent.id);
    var hits := Tests(item, rest, r);
    TestsCorrect(item, rest, r);
    assert Ents(p) <= Ents(eps);
    forall c | c in hits ensures c.go2.id in Ids(rest) {
      var x :| x in rest && x.ent == c.go2;
    }
    AppendFreshPairs(st.found, hits, item.ent, KindIds(p, false), Ids(st.active));
  }

  lemma {:induction false} RunInvariant(eps: seq<EndPoint>, r: Reach)
    requires WellOrdered(eps)
    ensures SweepInvariant(eps, Run(eps, r), r)
    decreases |eps|
  {
    if eps != [] {
      var p, item := eps[..|eps| - 1], eps[|eps| - 1];
      assert eps == p + [item];
      assert WellOrdered(p);
      RunInvariant(p, r);
      if item.isMin {
        StepOpens(p, item, Run(p, r), r);
      } else {
        StepCloses(p, item, Run(p, r), r);
      }
    }
  }

  /** Collisions found over a prefix of the endpoints stay found. */
  lemma {:induction false} FoundGrows(eps: seq<EndPoint>, k: int, r: Reach)
    requires 0 <= k <= |eps|
    ensures Run(eps[..k], r).found <= Run(eps, r).found
    decreases |eps|
  {
    if k < |eps| {
      var p := eps[..|eps| - 1];
      assert eps[..k] == p[..k];
      FoundGrows(p, k, r);
    } else {
      assert eps[..k] == eps;
    }
  }

  /** When an entity closes, every entity on the active list other than
      itself is tested, and reported if the test passes. */
  lemma TestedAtClose(eps: seq<EndPoint>, r: Reach, k: int, m: EndPoint)
    requires 0 <= k < |eps| && !eps[k].isMin
    requires m in Run(eps[..k], r).active && m.ent.id != eps[k].ent.id
    requires Intersects(eps[k].ent, m.ent, r)
    ensures Collision(eps[k].ent, m.ent) in Run(eps, r).found
  {
    assert eps[..k + 1][..k] == eps[..k];
    var st := Run(eps[..k], r);
    RemoveByIdKeeps(st.active, eps[k].ent.id);
    TestsCorrect(eps[k], RemoveById(st.active, eps[k].ent.id), r);
    FoundGrows(eps, k + 1, r);
  }
}
