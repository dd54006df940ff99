/**
 * The endpoint sort of the sweep: an insertion sort that starts at index 2
 * and whose inner loop stops at index 1, so the endpoint at index 0 is never
 * moved and only the rest of the list is ordered.  Only strictly greater
 * values are shifted, so equal values keep their input order.
 */
module EndpointSort {
  import opened Geometry
  import opened EndPoints

  predicate Sorted(s: seq<EndPoint>) {
    forall i, j :: 0 <= i < j < |s| ==> s[i].value <= s[j].value
  }

  /** Insert `key` into `s` the way the inner loop does: walk from the right
      past every strictly greater value. */
  function Insert(s: seq<EndPoint>, key: EndPoint): seq<EndPoint>
    decreases |s|
  {
    if s == [] || s[|s| - 1].value <= key.value then s + [key]
    else Insert(s[..|s| - 1], key) + [s[|s| - 1]]
  }

  /** Insertion sort, inserting the elements one by one from the left. */
  function InsertionSort(s: seq<EndPoint>): seq<EndPoint>
    decreases |s|
  {
    if s == [] then [] else Insert(InsertionSort(s[..|s| - 1]), s[|s| - 1])
  }

  /** What the sort returns: index 0 as it was, the rest insertion-sorted. */
  function SortValuesSpec(s: seq<EndPoint>): seq<EndPoint> {
    if s == [] then [] else [s[0]] + InsertionSort(s[1..])
  }

  /** The endpoints of `s` whose value is `v`, in order. */
  function ValueRun(s: seq<EndPoint>, v: real): seq<EndPoint>
    decreases |s|
  {
    if s == [] then []
    else ValueRun(s[..|s| - 1], v) + (if s[|s| - 1].value == v then [s[|s| - 1]] else [])
  }

  lemma {:induction false} ValueRunAppend(s: seq<EndPoint>, t: seq<EndPoint>, v: real)
    ensures ValueRun(s + t, v) == ValueRun(s, v) + ValueRun(t, v)
    decreases |t|
  {
    if t == [] {
      assert s + t == s;
    } else {
      assert (s + t)[..|s + t| - 1] == s + t[..|t| - 1];
      ValueRunAppend(s, t[..|t| - 1], v);
    }
  }

  lemma {:induction false} InsertMultiset(s: seq<EndPoint>, key: EndPoint)
    ensures multiset(Insert(s, key)) == multiset(s) + multiset{key}
    ensures |Insert(s, key)| == |s| + 1
    decreases |s|
  {
    if !(s == [] || s[|s| - 1].value <= key.value) {
      InsertMultiset(s[..|s| - 1], key);
      assert s == s[..|s| - 1] + [s[|s| - 1]];
    }
  }

  lemma {:induction false} InsertSorted(s: seq<EndPoint>, key: EndPoint)
    requires Sorted(s)
    ensures Sorted(Insert(s, key))
    decreases |s|
  {
    if !(s == [] || s[|s| - 1].value <= key.value) {
      var init, last := s[..|s| - 1], s[|s| - 1];
      InsertSorted(init, key);
      InsertMultiset(init, key);
      var ins := Insert(init, key);
      forall i | 0 <= i < |ins| ensures ins[i].value <= last.value {
        assert ins[i] in multiset(init) + multiset{key};
        if ins[i] != key {
          assert ins[i] in init;
        }
      }
    }
  }

  /** Equal values keep their order: inserting a key appends it to the run
      of its value. */
  lemma {:induction false} InsertStable(s: seq<EndPoint>, key: EndPoint, v: real)
    ensures ValueRun(Insert(s, key), v) == ValueRun(s, v) + ValueRun([key], v)
    decreases |s|
  {
    if s == [] || s[|s| - 1].value <= key.value {
      ValueRunAppend(s, [key], v);
    } else {
      var init, last := s[..|s| - 1], s[|s| - 1];
      InsertStable(init, key, v);
      ValueRunAppend(Insert(init, key), [last], v);
      assert s == init + [last];
      ValueRunAppend(init, [last], v);
      assert [key][..0] == [] && [last][..0] == [];
    }
  }

  lemma {:induction false} InsertKeyCount(s: seq<EndPoint>, key: EndPoint, id: int, isMin: bool)
    ensures KeyCount(Insert(s, key), id, isMin) == KeyCount(s, id, isMin) + KeyCount([key], id, isMin)
    decreases |s|
  {
    if s == [] || s[|s| - 1].value <= key.value {
      KeyCountAppend(s, [key], id, isMin);
    } else {
      var init, last := s[..|s| - 1], s[|s| - 1];
      InsertKeyCount(init, key, id, isMin);
      KeyCountAppend(Insert(init, key), [last], id, isMin);
      assert s == init + [last];
      KeyCountAppend(init, [last], id, isMin);
    }
  }

  /** Insertion sort returns a sorted permutation of its input. */
  lemma {:induction false} InsertionSortCorrect(s: seq<EndPoint>)
    ensures Sorted(InsertionSort(s))
    ensures multiset(InsertionSort(s)) == multiset(s)
    ensures |InsertionSort(s)| == |s|
    decreases |s|
  {
    if s != [] {
      InsertionSortCorrect(s[..|s| - 1]);
      InsertSorted(InsertionSort(s[..|s| - 1]), s[|s| - 1]);
      InsertMultiset(InsertionSort(s[..|s| - 1]), s[|s| - 1]);
      assert s == s[..|s| - 1] + [s[|s| - 1]];
    }
  }

  /** Insertion sort is stable: the endpoints of each value come out in
      input order. */
  lemma {:induction false} InsertionSortStable(s: seq<EndPoint>, v: real)
    ensures ValueRun(InsertionSort(s), v) == ValueRun(s, v)
    decreases |s|
  {
    if s != [] {
      var init, last := s[..|s| - 1], s[|s| - 1];
      InsertionSortStable(init, v);
      InsertStable(InsertionSort(init), last, v);
      ValueRunAppend(init, [last], v);
      assert s == init + [last];
      assert [last][..0] == [];
    }
  }

  lemma {:induction false} InsertionSortKeyCount(s: seq<EndPoint>, id: int, isMin: bool)
    ensures KeyCount(InsertionSort(s), id, isMin) == KeyCount(s, id, isMin)
    decreases |s|
  {
    if s != [] {
      var init, last := s[..|s| - 1], s[|s| - 1];
      InsertionSortKeyCount(init, id, isMin);
      InsertKeyCount(InsertionSort(init), last, id, isMin);
      assert s == init + [last];
      KeyCountAppend(init, [last], id, isMin);
    }
  }

  /** The promises of the endpoint sort: element 0 stays where it is; the
      rest is a sorted, stable permutation of the rest of the input. */
  lemma SortValuesSpecCorrect(s: seq<EndPoint>)
    ensures |SortValuesSpec(s)| == |s|
    ensures multiset(SortValuesSpec(s)) == multiset(s)
    ensures s != [] ==> SortValuesSpec(s)[0] == s[0]
    ensures s != [] ==> Sorted(SortValuesSpec(s)[1..])
    ensures s != [] ==> forall v :: ValueRun(SortValuesSpec(s)[1..], v) == ValueRun(s[1..], v)
    ensures forall id, isMin :: KeyCount(SortValuesSpec(s), id, isMin) == KeyCount(s, id, isMin)
  {
    if s != [] {
      var rest := s[1..];
      InsertionSortCorrect(rest);
      assert SortValuesSpec(s)[1..] == InsertionSort(rest);
      assert s == [s[0]] + rest;
      forall v ensures ValueRun(SortValuesSpec(s)[1..], v) == ValueRun(rest, v) {
        InsertionSortStable(rest, v);
      }
      forall id, isMin ensures KeyCount(SortValuesSpec(s), id, isMin) == KeyCount(s, id, isMin) {
        InsertionSortKeyCount(rest, id, isMin);
        KeyCountAppend([s[0]], InsertionSort(rest), id, isMin);
        KeyCountAppend([s[0]], rest, id, isMin);
      }
    }
  }

  /** Where the key lands: after every value not above it, before the run of
      strictly greater values at the end. */
  lemma {:induction false} InsertAt(s: seq<EndPoint>, key: EndPoint, j: int)
    requires 0 <= j <= |s|
    requires j == 0 || s[j - 1].value <= key.value
    requires forall k :: j <= k < |s| ==> s[k].value > key.value
    ensures Insert(s, key) == s[..j] + [key] + s[j..]
    decreases |s|
  {
    if |s| == j {
      assert s[..j] == s && s[j..] == [];
    } else {
      var init := s[..|s| - 1];
      InsertAt(init, key, j);
      assert init[..j] == s[..j];
      assert init[j..] + [s[|s| - 1]] == s[j..];
    }
  }

  /** One pass of the outer loop: the endpoint at index `i` is shifted left
      past strictly greater values, stopping at index 1. */
  method ShiftIntoPlace(values: seq<EndPoint>, i: int) returns (shifted: seq<EndPoint>)
    requires 2 <= i < |values|
    ensures |shifted| == |values| && shifted[0] == values[0]
    ensures shifted[1..i + 1] == Insert(values[1..i], values[i])
    ensures forall k :: i < k < |values| ==> shifted[k] == values[k]
  {
    ghost var done := values[1..i];
    shifted := values;
    var key := shifted[i];
    var j := i - 1;
    while j > 0 && shifted[j].value > key.value
      invariant 0 <= j <= i - 1 && |shifted| == |values|
      invariant shifted[0] == values[0]
      invariant forall k :: 1 <= k <= j ==> shifted[k] == done[k - 1]
      invariant forall k :: j + 2 <= k <= i ==> shifted[k] == done[k - 2]
      invariant forall k :: i < k < |values| ==> shifted[k] == values[k]
      invariant forall k :: j <= k < i - 1 ==> done[k].value > key.value
    {
      shifted := shifted[j + 1 := shifted[j]];
      j := j - 1;
    }
    InsertAt(done, key, j);
    shifted := shifted[j + 1 := key];
    forall k | 0 <= k < i
      ensures shifted[1..i + 1][k] == (done[..j] + [key] + done[j..])[k]
    {
      if k > j {
        assert shifted[k + 1] == done[k - 1];
      }
    }
    assert shifted[1..i + 1] == done[..j] + [key] + done[j..];
  }

  /** Sorting one more element of the input inserts it into the sorted prefix. */
  lemma InsertionSortPrefixStep(u: seq<EndPoint>, i: int)
    requires 1 <= i < |u|
    ensures InsertionSort(u[1..i + 1]) == Insert(InsertionSort(u[1..i]), u[i])
  {
    assert u[1..i + 1][..i - 1] == u[1..i];
  }

  /** The sort itself: the input is copied, then each endpoint from index 2
      on is shifted into place; index 0 is never touched. */
  method SortValues(unsorted: seq<EndPoint>) returns (sorted: seq<EndPoint>)
    ensures sorted == SortValuesSpec(unsorted)
  {
    sorted := unsorted;
    var n := |sorted|;
    if n >= 2 {
      InsertionSortPrefixStep(unsorted, 1);
      assert unsorted[1..1] == [];
      var i := 2;
      while i < n
        invariant 2 <= i <= n && |sorted| == n == |unsorted|
        invariant sorted[0] == unsorted[0]
        invariant sorted[1..i] == InsertionSort(unsorted[1..i])
        invariant forall k :: i <= k < n ==> sorted[k] == unsorted[k]
      {
        InsertionSortPrefixStep(unsorted, i);
        sorted := ShiftIntoPlace(sorted, i);
        i := i + 1;
      }
      assert unsorted[1..n] == unsorted[1..];
      assert sorted == [sorted[0]] + sorted[1..n];
    } else if n == 1 {
      assert unsorted == [unsorted[0]] + [];
    }
  }
}
