/**
  `operations.sort((a, b) => b.started_at - a.started_at)`: the operations are put in
  descending order of start time. `Array.prototype.sort` is stable, so operations with the
  same start time keep their emitted order. The model sorts the array in place by
  insertion, which is stable, and states the result as a function of the input.
*/
module OperationOrder {
  import opened Synergy

  /** Newest first. */
  predicate SortedDesc(s: seq<Operation>)
  {
    forall i, j :: 0 <= i < j < |s| ==> s[i].startedAt >= s[j].startedAt
  }

  /** Insert `x` after every element whose start time is not earlier than its own. */
  function InsertDesc(s: seq<Operation>, x: Operation): seq<Operation>
  {
    if s == [] then [x]
    else if s[|s| - 1].startedAt >= x.startedAt then s + [x]
    else InsertDesc(s[..|s| - 1], x) + [s[|s| - 1]]
  }

  /** The stable descending sort of `s`. */
  function SortDesc(s: seq<Operation>): seq<Operation>
  {
    if s == [] then []
    else InsertDesc(SortDesc(s[..|s| - 1]), s[|s| - 1])
  }

  /** Inserting adds exactly the one element. */
  lemma {:induction false} InsertDescPerm(s: seq<Operation>, x: Operation)
    ensures multiset(InsertDesc(s, x)) == multiset(s) + multiset{x}
  {
    if s != [] && s[|s| - 1].startedAt < x.startedAt {
      var init := s[..|s| - 1];
      InsertDescPerm(init, x);
      assert s == init + [s[|s| - 1]];
    }
  }

  /** Sorting only reorders: the result is a permutation of the input. */
  lemma {:induction false} SortDescPerm(s: seq<Operation>)
    ensures multiset(SortDesc(s)) == multiset(s)
  {
    if s != [] {
      var init := s[..|s| - 1];
      var last := s[|s| - 1];
      SortDescPerm(init);
      InsertDescPerm(SortDesc(init), last);
      MultisetSnoc(s);
    }
  }

  lemma MultisetSnoc(s: seq<Operation>)
    requires s != []
    ensures multiset(s) == multiset(s[..|s| - 1]) + multiset{s[|s| - 1]}
  {
    assert s == s[..|s| - 1] + [s[|s| - 1]];
  }

  /** The operations of `s` that started at time `t`, in order. */
  function StartedAt(s: seq<Operation>, t: int): seq<Operation>
  {
    if s == [] then []
    else StartedAt(s[..|s| - 1], t) + (if s[|s| - 1].startedAt == t then [s[|s| - 1]] else [])
  }

  /** A lower bound on start times survives insertion of an element that meets it. */
  lemma {:induction false} InsertDescBound(s: seq<Operation>, x: Operation, bound: int)
    requires forall k :: 0 <= k < |s| ==> s[k].startedAt >= bound
    requires x.startedAt >= bound
    ensures forall k :: 0 <= k < |InsertDesc(s, x)| ==> InsertDesc(s, x)[k].startedAt >= bound
  {
    if s != [] && s[|s| - 1].startedAt < x.startedAt {
      InsertDescBound(s[..|s| - 1], x, bound);
    }
  }

  /** Inserting keeps the list sorted. */
  lemma {:induction false} InsertDescSorted(s: seq<Operation>, x: Operation)
    requires SortedDesc(s)
    ensures SortedDesc(InsertDesc(s, x))
  {
    if s != [] && s[|s| - 1].startedAt < x.startedAt {
      var init := s[..|s| - 1];
      var last := s[|s| - 1];
      assert SortedDesc(init);
      InsertDescSorted(init, x);
      InsertDescBound(init, x, last.startedAt);
      var r := InsertDesc(init, x);
      assert InsertDesc(s, x) == r + [last];
    }
  }

  /** One more element extends the same-time list by itself when it has that time. */
  lemma StartedAtNext(s: seq<Operation>, y: Operation, t: int)
    ensures StartedAt(s + [y], t) == StartedAt(s, t) + (if y.startedAt == t then [y] else [])
  {
    assert (s + [y])[..|s|] == s;
  }

  /** Inserting `x` puts it after every earlier element with the same start time. */
  lemma {:induction false} InsertDescStable(s: seq<Operation>, x: Operation, t: int)
    ensures StartedAt(InsertDesc(s, x), t) == StartedAt(s, t) + (if x.startedAt == t then [x] else [])
  {
    if s == [] {
      StartedAtNext([], x, t);
    } else if s[|s| - 1].startedAt >= x.startedAt {
      StartedAtNext(s, x, t);
    } else {
      var init := s[..|s| - 1];
      var last := s[|s| - 1];
      assert s == init + [last];
      InsertDescStable(init, x, t);
      StartedAtNext(InsertDesc(init, x), last, t);
      StartedAtNext(init, last, t);
      assert x.startedAt != last.startedAt;
    }
  }

  /** The result is ordered newest first. */
  lemma {:induction false} SortDescSorted(s: seq<Operation>)
    ensures SortedDesc(SortDesc(s))
  {
    if s != [] {
      SortDescSorted(s[..|s| - 1]);
      InsertDescSorted(SortDesc(s[..|s| - 1]), s[|s| - 1]);
    }
  }

  /** Stability: for every start time, the operations with that start time appear in the
      same order as before sorting. */
  lemma {:induction false} SortDescStable(s: seq<Operation>, t: int)
    ensures StartedAt(SortDesc(s), t) == StartedAt(s, t)
  {
    if s != [] {
      SortDescStable(s[..|s| - 1], t);
      InsertDescStable(SortDesc(s[..|s| - 1]), s[|s| - 1], t);
    }
  }

  /** The sort's whole promise: newest first, the same operations, and ties in their
      original order. */
  lemma SortDescCorrect(s: seq<Operation>)
    ensures SortedDesc(SortDesc(s))
    ensures multiset(SortDesc(s)) == multiset(s)
    ensures forall op :: op in SortDesc(s) <==> op in s
    ensures forall t :: StartedAt(SortDesc(s), t) == StartedAt(s, t)
  {
    SortDescSorted(s);
    SortDescPerm(s);
    forall op ensures op in SortDesc(s) <==> op in s {
      assert op in SortDesc(s) <==> op in multiset(SortDesc(s));
    }
    forall t ensures StartedAt(SortDesc(s), t) == StartedAt(s, t) {
      SortDescStable(s, t);
    }
  }

  /** Where insertion puts `x`: after a prefix ending in an element that started no
      earlier than `x`, and before a suffix of elements that all started later. */
  lemma {:induction false} InsertDescAt(sorted: seq<Operation>, x: Operation, j: int)
    requires 0 <= j <= |sorted|
    requires j == 0 || sorted[j - 1].startedAt >= x.startedAt
    requires forall k :: j <= k < |sorted| ==> sorted[k].startedAt < x.startedAt
    ensures InsertDesc(sorted, x) == sorted[..j] + [x] + sorted[j..]
    decreases |sorted|
  {
    if j < |sorted| {
      var init := sorted[..|sorted| - 1];
      var last := sorted[|sorted| - 1];
      assert last.startedAt < x.startedAt;
      assert InsertDesc(sorted, x) == InsertDesc(init, x) + [last];
      assert j == 0 || init[j - 1] == sorted[j - 1];
      assert forall k :: j <= k < |init| ==> init[k] == sorted[k];
      InsertDescAt(init, x, j);
      assert init[..j] == sorted[..j];
      assert sorted[j..] == init[j..] + [last];
    }
  }

  lemma SortDescNext(input: seq<Operation>, i: int)
    requires 0 <= i < |input|
    ensures SortDesc(input[..i + 1]) == InsertDesc(SortDesc(input[..i]), input[i])
  {
    assert input[..i + 1][..i] == input[..i];
  }

  /** Line 221 of the job: the in-place sort. */
  method SortByStartDesc(a: array<Operation>)
    modifies a
    ensures a[..] == SortDesc(old(a[..]))
  {
    ghost var input := a[..];
    var i := 0;
    while i < a.Length
      invariant 0 <= i <= a.Length
      invariant a[..i] == SortDesc(input[..i])
      invariant a[i..] == input[i..]
    {
      assert a[i] == input[i];
      InsertInto(a, i);
      SortDescNext(input, i);
      assert a[i + 1..] == input[i + 1..];
      i := i + 1;
    }
    assert a[..] == a[..a.Length];
    assert input[..a.Length] == input;
  }

  /** One insertion-sort step: `a[i]` moves left past every element of the sorted prefix
      that started earlier than it. */
  method InsertInto(a: array<Operation>, i: int)
    requires 0 <= i < a.Length
    modifies a
    ensures a[..i + 1] == InsertDesc(old(a[..i]), old(a[i]))
    ensures a[i + 1..] == old(a[i + 1..])
  {
    var x := a[i];
    ghost var sorted := a[..i];
    var j := MakeRoom(a, i, x);
    a[j] := x;
    InsertedAt(a[..], sorted, x, j);
  }

  /** The shifting loop of an insertion step: every element of `a[..i]` that started
      earlier than `x` moves one place right, leaving a gap at the returned index. */
  method MakeRoom(a: array<Operation>, i: int, x: Operation) returns (j: int)
    requires 0 <= i < a.Length
    modifies a
    ensures 0 <= j <= i
    ensures forall k :: 0 <= k < j ==> a[k] == old(a[k])
    ensures forall k :: j < k <= i ==> a[k] == old(a[k - 1])
    ensures forall k :: i < k < a.Length ==> a[k] == old(a[k])
    ensures j == 0 || a[j - 1].startedAt >= x.startedAt
    ensures forall k :: j <= k < i ==> old(a[k]).startedAt < x.startedAt
  {
    j := i;
    while j > 0 && a[j - 1].startedAt < x.startedAt
      invariant 0 <= j <= i
      invariant forall k :: 0 <= k < j ==> a[k] == old(a[k])
      invariant forall k :: j < k <= i ==> a[k] == old(a[k - 1])
      invariant forall k :: i < k < a.Length ==> a[k] == old(a[k])
      invariant forall k :: j <= k < i ==> old(a[k]).startedAt < x.startedAt
    {
      a[j] := a[j - 1];
      j := j - 1;
    }
  }

  /** The array after the shifting loop and the final store holds the insertion. */
  lemma InsertedAt(s: seq<Operation>, sorted: seq<Operation>, x: Operation, j: int)
    requires 0 <= j <= |sorted| < |s|
    requires forall k :: 0 <= k < j ==> s[k] == sorted[k]
    requires s[j] == x
    requires forall k :: j < k <= |sorted| ==> s[k] == sorted[k - 1]
    requires j == 0 || sorted[j - 1].startedAt >= x.startedAt
    requires forall k :: j <= k < |sorted| ==> sorted[k].startedAt < x.startedAt
    ensures s[..|sorted| + 1] == InsertDesc(sorted, x)
  {
    InsertDescAt(sorted, x, j);
    ghost var expected := sorted[..j] + [x] + sorted[j..];
    forall k | 0 <= k <= |sorted| ensures s[k] == expected[k] {
      if k < j {
        assert expected[k] == sorted[k];
      } else if k > j {
        assert expected[k] == sorted[k - 1];
      }
    }
  }
}
