/**
 * The whole per-frame detector as one function of the frame's entities, and
 * what it guarantees: project, sort (index 0 untouched), sweep.
 */
module Detector {
  import opened Geometry
  import opened EndPoints
  import opened EndpointSort
  import opened SweepPrune
  import opened Seqs

  /** The collisions the detector reports for the entities `es`, in order. */
  function Detect(es: seq<Entity>, r: Reach): seq<Collision>
    requires r.hackRange >= 0.0
  {
    Run(SortValuesSpec(Endpoints(es, r)), r).found
  }

  lemma SameIdSameEntity(es: seq<Entity>, a: Entity, b: Entity)
    requires DistinctIds(es) && a in es && b in es && a.id == b.id
    ensures a == b
  {
    var i :| 0 <= i < |es| && es[i] == a;
    var j :| 0 <= j < |es| && es[j] == b;
    assert i == j;
  }

  /** Sorting keeps the endpoints of the frame, no more and no fewer. */
  lemma SortedSameMembers(src: seq<EndPoint>)
    ensures forall x :: x in SortValuesSpec(src) <==> x in src
  {
    var eps := SortValuesSpec(src);
    SortValuesSpecCorrect(src);
    forall x ensures x in eps <==> x in src {
      assert x in eps <==> x in multiset(eps);
      assert x in src <==> x in multiset(src);
    }
  }

  /** After sorting, no id has two minima or two maxima. */
  lemma SortedKindsDistinct(es: seq<Entity>, r: Reach)
    requires r.hackRange >= 0.0 && DistinctIds(es)
    ensures var eps := SortValuesSpec(Endpoints(es, r));
      forall i, j :: 0 <= i < j < |eps| && eps[i].isMin == eps[j].isMin ==> eps[i].ent.id != eps[j].ent.id
  {
    var src := Endpoints(es, r);
    var eps := SortValuesSpec(src);
    SortValuesSpecCorrect(src);
    forall i, j | 0 <= i < j < |eps| && eps[i].isMin == eps[j].isMin
      ensures eps[i].ent.id != eps[j].ent.id
    {
      if eps[i].ent.id == eps[j].ent.id {
        KeyCountTwo(eps, i, j);
        KeyCountAtMostOne(es, r, eps[i].ent.id, eps[i].isMin);
      }
    }
  }

  /** The shape of the sorted list: as long as its input, index 0 in place,
      sorted after it. */
  lemma SortedShape(src: seq<EndPoint>)
    ensures |SortValuesSpec(src)| == |src|
    ensures src != [] ==> SortValuesSpec(src)[0] == src[0] && Sorted(SortValuesSpec(src)[1..])
  {
    SortValuesSpecCorrect(src);
  }

  /** An entity's minimum endpoint lies strictly below its maximum one. */
  lemma MinBelowMax(es: seq<Entity>, r: Reach, x: EndPoint, y: EndPoint)
    requires r.hackRange >= 0.0 && AllWellFormed(es) && DistinctIds(es)
    requires x in Endpoints(es, r) && y in Endpoints(es, r)
    requires x.isMin && !y.isMin && x.ent.id == y.ent.id
    ensures x.value < y.value
  {
    SameIdSameEntity(es, x.ent, y.ent);
    EndpointValue(es, r, x);
    EndpointValue(es, r, y);
    IncludedIsProper(x.ent, r);
  }

  /** In a list sorted after index 0, a strictly smaller value at a later
      index than 0 cannot follow a larger one. */
  lemma SortedOrder(eps: seq<EndPoint>, i: int, j: int)
    requires 0 <= i < |eps| && 0 < j < |eps| && Sorted(eps[1..])
    requires eps[i].value < eps[j].value
    ensures i < j
  {
    if i != 0 {
      assert eps[1..][i - 1] == eps[i] && eps[1..][j - 1] == eps[j];
    }
  }

  /** A minimum and the maximum of the same id, after sorting: the minimum
      comes first, because its value is strictly smaller. */
  lemma MinBeforeMaxAt(es: seq<Entity>, r: Reach, i: int, j: int)
    requires r.hackRange >= 0.0 && AllWellFormed(es) && DistinctIds(es)
    requires var eps := SortValuesSpec(Endpoints(es, r));
      && 0 <= i < |eps| && 0 <= j < |eps|
      && eps[i].isMin && !eps[j].isMin && eps[i].ent.id == eps[j].ent.id
    ensures i < j
  {
    var src := Endpoints(es, r);
    var eps := SortValuesSpec(src);
    SortedShape(src);
    SortedSameMembers(src);
    MinBelowMax(es, r, eps[i], eps[j]);
    assert j != 0 by {
      FirstIsMin(es, r);
    }
    SortedOrder(eps, i, j);
  }

  /** After sorting, each minimum still comes before the maximum of its id. */
  lemma SortedMinBeforeMax(es: seq<Entity>, r: Reach)
    requires r.hackRange >= 0.0 && AllWellFormed(es) && DistinctIds(es)
    ensures var eps := SortValuesSpec(Endpoints(es, r));
      forall i, j :: 0 <= i < |eps| && 0 <= j < |eps| && eps[i].isMin && !eps[j].isMin && eps[i].ent.id == eps[j].ent.id
        ==> i < j
  {
    var eps := SortValuesSpec(Endpoints(es, r));
    forall i, j | 0 <= i < |eps| && 0 <= j < |eps| && eps[i].isMin && !eps[j].isMin && eps[i].ent.id == eps[j].ent.id
      ensures i < j
    {
      MinBeforeMaxAt(es, r, i, j);
    }
  }

  /** The sorted endpoint list of a frame is what the sweep relies on: one
      minimum and one maximum per included entity, the minimum first; it
      starts with a minimum, and is sorted after index 0. */
  lemma SortedEndpoints(es: seq<Entity>, r: Reach)
    requires r.hackRange >= 0.0 && AllWellFormed(es) && DistinctIds(es)
    ensures var eps := SortValuesSpec(Endpoints(es, r));
      && WellOrdered(eps)
      && (eps != [] ==> eps[0].isMin && Sorted(eps[1..]))
      && (forall x :: x in eps <==> x in Endpoints(es, r))
  {
    var src := Endpoints(es, r);
    SortValuesSpecCorrect(src);
    if src != [] {
      FirstIsMin(es, r);
    }
    SortedSameMembers(src);
    SortedKindsDistinct(es, r);
    SortedMinBeforeMax(es, r);
  }

  /** The sorted endpoints belong to included entities of the frame. */
  lemma SortedEnts(es: seq<Entity>, r: Reach)
    requires r.hackRange >= 0.0
    ensures forall e :: e in Ents(SortValuesSpec(Endpoints(es, r))) ==> e in es && Included(e, r)
  {
    var src := Endpoints(es, r);
    var eps := SortValuesSpec(src);
    SortValuesSpecCorrect(src);
    forall e | e in Ents(eps) ensures e in es && Included(e, r) {
      var x :| x in eps && x.ent == e;
      assert x in multiset(eps);
      assert x in src;
    }
  }

  /** Every reported collision pairs two different included entities of the
      frame that pass the narrow-phase test, and no unordered pair is
      reported twice.  In particular an entity whose projection is a point
      is never reported. */
  lemma DetectSound(es: seq<Entity>, r: Reach)
    requires r.hackRange >= 0.0 && AllWellFormed(es) && DistinctIds(es)
    ensures forall c :: c in Detect(es, r) ==>
      && c.go1 in es && c.go2 in es
      && Included(c.go1, r) && Included(c.go2, r)
      && c.go1.id != c.go2.id
      && Intersects(c.go1, c.go2, r)
    ensures PairsDistinct(Detect(es, r))
  {
    var eps := SortValuesSpec(Endpoints(es, r));
    SortedEndpoints(es, r);
    RunInvariant(eps, r);
    SortedEnts(es, r);
  }

  /** An entity whose projected interval is a single point appears in no
      reported collision. */
  lemma DegenerateNeverReported(es: seq<Entity>, r: Reach, e: Entity)
    requires r.hackRange >= 0.0 && AllWellFormed(es) && DistinctIds(es)
    requires !Included(e, r)
    ensures forall c :: c in Detect(es, r) ==> c.go1 != e && c.go2 != e
  {
    DetectSound(es, r);
  }

  /** An entity that opened before index `k` and closes after it is on the
      active list when the sweep reaches `k`. */
  lemma OpenAtClose(eps: seq<EndPoint>, r: Reach, iq: int, k: int, jq: int)
    requires WellOrdered(eps) && 0 <= iq < k < jq < |eps|
    requires eps[iq].isMin && !eps[jq].isMin && eps[iq].ent.id == eps[jq].ent.id
    ensures eps[iq] in Run(eps[..k], r).active
  {
    var done := eps[..k];
    assert WellOrdered(done);
    RunInvariant(done, r);
    KindIdsAt(eps, k, iq);
    KindIdsPrefix(eps, k, jq);
    var id := eps[iq].ent.id;
    assert id in Ids(Run(done, r).active);
    var m :| m in Run(done, r).active && m.ent.id == id;
    var t := IndexOf(done, m);
    assert eps[t] == m && m.isMin;
  }

  /** The sweep's core step: when `p` closes before `q` does and `q` opened
      before `p`'s maximum value, `q` is on the active list at that moment
      and the pair is tested. */
  lemma TestedWhenFirstCloses(eps: seq<EndPoint>, r: Reach, iq: int, jp: int, jq: int)
    requires WellOrdered(eps) && eps != [] && eps[0].isMin && Sorted(eps[1..])
    requires 0 <= iq < |eps| && 0 <= jp < jq < |eps|
    requires eps[iq].isMin && !eps[jp].isMin && !eps[jq].isMin
    requires eps[iq].ent == eps[jq].ent && eps[jp].ent.id != eps[jq].ent.id
    requires eps[iq].value < eps[jp].value
    requires Intersects(eps[jp].ent, eps[iq].ent, r)
    ensures Collision(eps[jp].ent, eps[iq].ent) in Run(eps, r).found
  {
    SortedOrder(eps, iq, jp);
    OpenAtClose(eps, r, iq, jp, jq);
    TestedAtClose(eps, r, jp, eps[iq]);
  }

  /** Two different included entities whose projected X intervals overlap
      strictly are always tested against each other, so when they pass the
      narrow-phase test the pair is reported, in one order or the other. */
  lemma DetectReportsOverlap(es: seq<Entity>, r: Reach, p: Entity, q: Entity)
    requires r.hackRange >= 0.0 && AllWellFormed(es) && DistinctIds(es)
    requires p in es && q in es && p.id != q.id && Included(p, r) && Included(q, r)
    requires ProjectX(p, r).lo < ProjectX(q, r).hi && ProjectX(q, r).lo < ProjectX(p, r).hi
    requires !(r.hack && p.tag == Player && q.tag == Player)
    requires Intersects(p, q, r)
    ensures Collision(p, q) in Detect(es, r) || Collision(q, p) in Detect(es, r)
  {
    var eps := SortValuesSpec(Endpoints(es, r));
    SortedEndpoints(es, r);
    EndpointsComplete(es, r, p);
    EndpointsComplete(es, r, q);
    var ip := IndexOf(eps, EndPoint(ProjectX(p, r).lo, true, p));
    var jp := IndexOf(eps, EndPoint(ProjectX(p, r).hi, false, p));
    var iq := IndexOf(eps, EndPoint(ProjectX(q, r).lo, true, q));
    var jq := IndexOf(eps, EndPoint(ProjectX(q, r).hi, false, q));
    IntersectsSymmetric(p, q, r);
    if jp < jq {
      TestedWhenFirstCloses(eps, r, iq, jp, jq);
    } else {
      assert jp != jq;
      TestedWhenFirstCloses(eps, r, ip, jq, jp);
    }
  }

  lemma RunSnoc(eps: seq<EndPoint>, x: EndPoint, r: Reach)
    ensures Run(eps + [x], r) == Step(Run(eps, r), x, r)
  {
    assert (eps + [x])[..|eps|] == eps;
  }

  /** The sweep over four endpoints, one step after another. */
  lemma RunFour(x1: EndPoint, x2: EndPoint, x3: EndPoint, x4: EndPoint, r: Reach)
    ensures Run([x1, x2, x3, x4], r)
         == Step(Step(Step(Step(SweepState([], []), x1, r), x2, r), x3, r), x4, r)
  {
    var e0: seq<EndPoint> := [];
    var e1 := e0 + [x1];
    var e2 := e1 + [x2];
    var e3 := e2 + [x3];
    var e4 := e3 + [x4];
    RunSnoc(e0, x1, r);
    RunSnoc(e1, x2, r);
    RunSnoc(e2, x3, r);
    RunSnoc(e3, x4, r);
    assert e4 == [x1, x2, x3, x4];
  }

  /** The endpoint sort of four endpoints: the first stays, the other three
      are inserted one by one. */
  lemma SortFour(x1: EndPoint, x2: EndPoint, x3: EndPoint, x4: EndPoint)
    ensures SortValuesSpec([x1, x2, x3, x4]) == [x1] + Insert(Insert([x2], x3), x4)
  {
    var rest := [x2, x3, x4];
    assert [x1, x2, x3, x4][1..] == rest;
    assert rest[..2] == [x2, x3] && [x2, x3][..1] == [x2] && [x2][..0] == [];
    assert InsertionSort([x2]) == Insert(InsertionSort([]), x2) == [x2];
    assert InsertionSort([x2, x3]) == Insert(InsertionSort([x2]), x3);
    assert InsertionSort(rest) == Insert(InsertionSort([x2, x3]), x4);
  }

  lemma EndpointsTwo(a: Entity, b: Entity, r: Reach)
    requires r.hackRange >= 0.0
    ensures Endpoints([a, b], r) == EndpointsOf(a, r) + EndpointsOf(b, r)
  {
    assert [a, b][..1] == [a] && [a][..0] == [];
    assert Endpoints([a], r) == Endpoints([], r) + EndpointsOf(a, r);
    assert Endpoints([a, b], r) == Endpoints([a], r) + EndpointsOf(b, r);
  }

  function MinOf(e: Entity): EndPoint { EndPoint(e.minX, true, e) }
  function MaxOf(e: Entity): EndPoint { EndPoint(e.maxX, false, e) }

  /** Two boxes, neither of them the player, that touch on X: `a`'s right
      edge is `b`'s left edge. */
  predicate Touching(a: Entity, b: Entity) {
    && a.tag != Player && b.tag != Player && a.id != b.id
    && a.minX < a.maxX && a.maxX == b.minX && b.minX < b.maxX
  }

  /** A non-player box of positive width contributes its raw minimum and
      maximum. */
  lemma EndpointsOfPlain(e: Entity, r: Reach)
    requires r.hackRange >= 0.0 && e.tag != Player && e.minX < e.maxX
    ensures EndpointsOf(e, r) == [MinOf(e), MaxOf(e)]
  {
    assert ProjectX(e, r) == Interval(e.minX, e.maxX);
  }

  lemma TouchingEndpoints(a: Entity, b: Entity, r: Reach)
    requires r.hackRange >= 0.0 && Touching(a, b)
    ensures Endpoints([a, b], r) == [MinOf(a), MaxOf(a), MinOf(b), MaxOf(b)]
    ensures Endpoints([b, a], r) == [MinOf(b), MaxOf(b), MinOf(a), MaxOf(a)]
  {
    EndpointsTwo(a, b, r);
    EndpointsTwo(b, a, r);
    EndpointsOfPlain(a, r);
    EndpointsOfPlain(b, r);
  }

  /** `b`'s minimum ties with `a`'s maximum and goes after it. */
  lemma InsertTouchingAFirst(a: Entity, b: Entity)
    requires Touching(a, b)
    ensures Insert(Insert([MaxOf(a)], MinOf(b)), MaxOf(b)) == [MaxOf(a), MinOf(b), MaxOf(b)]
  {
    assert Insert([MaxOf(a)], MinOf(b)) == [MaxOf(a), MinOf(b)];
  }

  /** `a`'s interval lies inside `b`'s extent to the right of `b`'s minimum. */
  lemma InsertTouchingBFirst(a: Entity, b: Entity)
    requires Touching(a, b)
    ensures Insert(Insert([MaxOf(b)], MinOf(a)), MaxOf(a)) == [MinOf(a), MaxOf(a), MaxOf(b)]
  {
    assert [MaxOf(b)][..0] == [];
    assert Insert([MaxOf(b)], MinOf(a)) == [MinOf(a), MaxOf(b)];
    assert [MinOf(a), MaxOf(b)][..1] == [MinOf(a)];
    assert Insert([MinOf(a)], MaxOf(a)) == [MinOf(a), MaxOf(a)];
  }

  lemma TouchingSortedAFirst(a: Entity, b: Entity, r: Reach)
    requires r.hackRange >= 0.0 && Touching(a, b)
    ensures SortValuesSpec(Endpoints([a, b], r)) == [MinOf(a), MaxOf(a), MinOf(b), MaxOf(b)]
  {
    TouchingEndpoints(a, b, r);
    SortFour(MinOf(a), MaxOf(a), MinOf(b), MaxOf(b));
    InsertTouchingAFirst(a, b);
  }

  lemma TouchingSortedBFirst(a: Entity, b: Entity, r: Reach)
    requires r.hackRange >= 0.0 && Touching(a, b)
    ensures SortValuesSpec(Endpoints([b, a], r)) == [MinOf(b), MinOf(a), MaxOf(a), MaxOf(b)]
  {
    TouchingEndpoints(a, b, r);
    SortFour(MinOf(b), MaxOf(b), MinOf(a), MaxOf(a));
    InsertTouchingBFirst(a, b);
  }

  /** With `a` first, `a`'s maximum and `b`'s minimum tie and keep input
      order, so `a` closes before `b` opens: the pair is never tested, even
      when the narrow-phase test would accept it. */
  lemma TouchingNotReportedWhenFirstCloses(a: Entity, b: Entity, r: Reach)
    requires r.hackRange >= 0.0 && Touching(a, b)
    ensures Detect([a, b], r) == []
  {
    TouchingSortedAFirst(a, b, r);
    RunFour(MinOf(a), MaxOf(a), MinOf(b), MaxOf(b), r);
    var s1 := Step(SweepState([], []), MinOf(a), r);
    assert s1 == SweepState([MinOf(a)], []);
    var s2 := Step(s1, MaxOf(a), r);
    assert RemoveById([MinOf(a)], a.id) == [];
    assert s2 == SweepState([], []);
    var s3 := Step(s2, MinOf(b), r);
    assert s3 == SweepState([MinOf(b)], []);
    assert RemoveById([MinOf(b)], b.id) == [];
  }

  /** `a` closes while `b` is still active: `b` stays, and the pair is
      tested. */
  lemma TouchingClosesInside(a: Entity, b: Entity, r: Reach)
    requires a.id != b.id
    ensures Step(SweepState([MinOf(b), MinOf(a)], []), MaxOf(a), r)
         == SweepState([MinOf(b)], if Intersects(a, b, r) then [Collision(a, b)] else [])
  {
    assert RemoveById([MinOf(b), MinOf(a)], a.id) == [MinOf(b)] by {
      assert [MinOf(b), MinOf(a)][1..] == [MinOf(a)];
    }
    assert [MinOf(b)][..0] == [];
    assert Tests(MaxOf(a), [MinOf(b)], r) == if Intersects(a, b, r) then [Collision(a, b)] else [];
  }

  /** The sweep of `b`'s minimum, then `a`'s interval, then `b`'s maximum. */
  lemma TouchingStepsBFirst(a: Entity, b: Entity, r: Reach)
    requires a.id != b.id
    ensures Step(Step(Step(Step(SweepState([], []), MinOf(b), r), MinOf(a), r), MaxOf(a), r), MaxOf(b), r).found
         == if Intersects(a, b, r) then [Collision(a, b)] else []
  {
    assert Step(SweepState([], []), MinOf(b), r) == SweepState([MinOf(b)], []);
    assert Step(SweepState([MinOf(b)], []), MinOf(a), r) == SweepState([MinOf(b), MinOf(a)], []);
    TouchingClosesInside(a, b, r);
  }

  /** With `b` first, `b`'s minimum stays at index 0 although its value is
      larger, `a` opens and closes while `b` is active, and the pair is
      tested. */
  lemma TouchingTestedWhenFirstStaysActive(a: Entity, b: Entity, r: Reach)
    requires r.hackRange >= 0.0 && Touching(a, b)
    ensures Detect([b, a], r) == if Intersects(a, b, r) then [Collision(a, b)] else []
  {
    TouchingSortedBFirst(a, b, r);
    RunFour(MinOf(b), MinOf(a), MaxOf(a), MaxOf(b), r);
    TouchingStepsBFirst(a, b, r);
  }
}
