/**
 * Endpoint projection: each entity of the frame becomes a minimum and a
 * maximum endpoint on the X axis, unless its projected interval is a point.
 */
module EndPoints {
  import opened Geometry

  /** One end of an entity's projected X interval. */
  datatype EndPoint = EndPoint(value: real, isMin: bool, ent: Entity)

  /** No two entities of the frame share an instance id. */
  predicate DistinctIds(es: seq<Entity>) {
    forall i, j :: 0 <= i < j < |es| ==> es[i].id != es[j].id
  }

  predicate AllWellFormed(es: seq<Entity>) {
    forall e :: e in es ==> WellFormed(e)
  }

  /** The endpoints one entity contributes: none when its interval is a
      point, otherwise its minimum followed by its maximum. */
  function EndpointsOf(e: Entity, r: Reach): seq<EndPoint>
    requires r.hackRange >= 0.0
  {
    var iv := ProjectX(e, r);
    if iv.lo != iv.hi then [EndPoint(iv.lo, true, e), EndPoint(iv.hi, false, e)] else []
  }

  /** The unsorted endpoint list of a frame, built in entity order. */
  function Endpoints(es: seq<Entity>, r: Reach): (eps: seq<EndPoint>)
    requires r.hackRange >= 0.0
    // endpoints come in (minimum, maximum) pairs of one included entity
    ensures |eps| % 2 == 0
    ensures forall k :: 0 <= k < |eps| / 2 ==>
      && eps[2 * k].isMin && !eps[2 * k + 1].isMin
      && eps[2 * k].ent == eps[2 * k + 1].ent
      && eps[2 * k].value == ProjectX(eps[2 * k].ent, r).lo
      && eps[2 * k + 1].value == ProjectX(eps[2 * k].ent, r).hi
    // every endpoint belongs to an included entity of the frame
    ensures forall x :: x in eps ==> x.ent in es && Included(x.ent, r)
    decreases |es|
  {
    if es == [] then []
    else
      var init := Endpoints(es[..|es| - 1], r);
      var last := es[|es| - 1];
      assert forall x :: x in es[..|es| - 1] ==> x in es;
      init + EndpointsOf(last, r)
  }

  /** Every included entity of the frame has both of its endpoints in the list. */
  lemma {:induction false} EndpointsComplete(es: seq<Entity>, r: Reach, e: Entity)
    requires r.hackRange >= 0.0
    requires e in es && Included(e, r)
    ensures EndPoint(ProjectX(e, r).lo, true, e) in Endpoints(es, r)
    ensures EndPoint(ProjectX(e, r).hi, false, e) in Endpoints(es, r)
    decreases |es|
  {
    if es[|es| - 1] != e {
      assert e in es[..|es| - 1] by {
        var i :| 0 <= i < |es| && es[i] == e;
        assert es[..|es| - 1][i] == e;
      }
      EndpointsComplete(es[..|es| - 1], r, e);
    }
  }

  /** An endpoint carries the matching bound of its entity's projection. */
  lemma EndpointValue(es: seq<Entity>, r: Reach, x: EndPoint)
    requires r.hackRange >= 0.0
    requires x in Endpoints(es, r)
    ensures x.value == if x.isMin then ProjectX(x.ent, r).lo else ProjectX(x.ent, r).hi
  {
    var eps := Endpoints(es, r);
    var i :| 0 <= i < |eps| && eps[i] == x;
    var k := i / 2;
    assert i == 2 * k || i == 2 * k + 1;
  }

  /** The first endpoint of a non-empty list is a minimum. */
  lemma FirstIsMin(es: seq<Entity>, r: Reach)
    requires r.hackRange >= 0.0
    requires |Endpoints(es, r)| > 0
    ensures Endpoints(es, r)[0].isMin
  {
    var eps := Endpoints(es, r);
    assert eps[2 * 0].isMin;
  }

  /** The loop of the sweep that builds the unsorted list. */
  method BuildEndpoints(es: seq<Entity>, r: Reach) returns (unsorted: seq<EndPoint>)
    requires r.hackRange >= 0.0
    ensures unsorted == Endpoints(es, r)
  {
    unsorted := [];
    var n := 0;
    while n < |es|
      invariant 0 <= n <= |es|
      invariant unsorted == Endpoints(es[..n], r)
    {
      var go := es[n];
      var iv := ProjectX(go, r);
      var xMin := EndPoint(iv.lo, true, go);
      var xMax := EndPoint(iv.hi, false, go);
      if xMin.value != xMax.value {
        unsorted := unsorted + [xMin, xMax];
      }
      assert es[..n + 1][..n] == es[..n];
      n := n + 1;
    }
    assert es[..n] == es;
  }

  /** How many endpoints of kind `isMin` carry instance id `id`. */
  function KeyCount(s: seq<EndPoint>, id: int, isMin: bool): nat
    decreases |s|
  {
    if s == [] then 0
    else KeyCount(s[..|s| - 1], id, isMin)
         + (if s[|s| - 1].ent.id == id && s[|s| - 1].isMin == isMin then 1 else 0)
  }

  lemma {:induction false} KeyCountAppend(s: seq<EndPoint>, t: seq<EndPoint>, id: int, isMin: bool)
    ensures KeyCount(s + t, id, isMin) == KeyCount(s, id, isMin) + KeyCount(t, id, isMin)
    decreases |t|
  {
    if t == [] {
      assert s + t == s;
    } else {
      assert (s + t)[..|s + t| - 1] == s + t[..|t| - 1];
      KeyCountAppend(s, t[..|t| - 1], id, isMin);
    }
  }

  /** An endpoint of the list counts for its own key. */
  lemma KeyCountAtLeastOne(s: seq<EndPoint>, k: int)
    requires 0 <= k < |s|
    ensures KeyCount(s, s[k].ent.id, s[k].isMin) >= 1
  {
    var id, b := s[k].ent.id, s[k].isMin;
    assert s == s[..k] + ([s[k]] + s[k + 1..]);
    KeyCountAppend(s[..k], [s[k]] + s[k + 1..], id, b);
    KeyCountAppend([s[k]], s[k + 1..], id, b);
    assert [s[k]][..0] == [];
  }

  /** Two matching endpoints at different positions make the count at least two. */
  lemma {:induction false} KeyCountTwo(s: seq<EndPoint>, i: int, j: int)
    requires 0 <= i < j < |s|
    requires s[i].ent.id == s[j].ent.id && s[i].isMin == s[j].isMin
    ensures KeyCount(s, s[i].ent.id, s[i].isMin) >= 2
  {
    assert s == s[..j] + s[j..];
    KeyCountAppend(s[..j], s[j..], s[i].ent.id, s[i].isMin);
    KeyCountAtLeastOne(s[..j], i);
    KeyCountAtLeastOne(s[j..], 0);
  }

  /** With distinct ids no instance id has two endpoints of the same kind. */
  lemma {:induction false} KeyCountAtMostOne(es: seq<Entity>, r: Reach, id: int, isMin: bool)
    requires r.hackRange >= 0.0
    requires DistinctIds(es)
    ensures KeyCount(Endpoints(es, r), id, isMin) <= 1
    ensures (forall e :: e in es ==> e.id != id) ==> KeyCount(Endpoints(es, r), id, isMin) == 0
    decreases |es|
  {
    if es != [] {
      var init, last := es[..|es| - 1], es[|es| - 1];
      assert DistinctIds(init);
      KeyCountAtMostOne(init, r, id, isMin);
      KeyCountAppend(Endpoints(init, r), EndpointsOf(last, r), id, isMin);
      var tail := EndpointsOf(last, r);
      if tail != [] {
        assert tail == [tail[0]] + [tail[1]];
        KeyCountAppend([tail[0]], [tail[1]], id, isMin);
        assert [tail[0]][..0] == [] && [tail[1]][..0] == [];
      }
      if last.id == id {
        forall e | e in init ensures e.id != id {
          var i :| 0 <= i < |init| && init[i] == e;
          assert es[i] == e && i < |es| - 1;
        }
      }
    }
  }
}
