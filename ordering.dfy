/**
 * `usort($headersList, fn($a, $b) => $a['line'] - $b['line'])`: the
 * collected records are sorted in place by line number. PHP's sort is
 * stable, so records on the same line keep their collection order.
 */
module Ordering {
  import opened Headings

  predicate SortedByLine(s: seq<HeaderRecord>) {
    forall i, j :: 0 <= i < j < |s| ==> s[i].line <= s[j].line
  }

  /** Places `x` after every record of `s` whose line is not greater than its own. */
  function Insert(s: seq<HeaderRecord>, x: HeaderRecord): seq<HeaderRecord>
    decreases |s|
  {
    if s == [] || s[|s| - 1].line <= x.line then s + [x]
    else Insert(s[..|s| - 1], x) + [s[|s| - 1]]
  }

  /** Stable insertion sort by line: the reference the in-place sort is proved against. */
  function InsertionSort(s: seq<HeaderRecord>): seq<HeaderRecord>
    decreases |s|
  {
    if s == [] then [] else Insert(InsertionSort(s[..|s| - 1]), s[|s| - 1])
  }

  /** The records of `s` that sit on line `l`, in their order in `s`. */
  function OnLine(s: seq<HeaderRecord>, l: nat): seq<HeaderRecord>
    decreases |s|
  {
    if s == [] then []
    else OnLine(s[..|s| - 1], l) + (if s[|s| - 1].line == l then [s[|s| - 1]] else [])
  }

  /** Splitting off the last element of a sequence, as a multiset. */
  lemma MultisetSnoc(s: seq<HeaderRecord>)
    requires s != []
    ensures multiset(s) == multiset(s[..|s| - 1]) + multiset{s[|s| - 1]}
  {
    assert s == s[..|s| - 1] + [s[|s| - 1]];
  }

  lemma {:induction false} InsertPermutation(s: seq<HeaderRecord>, x: HeaderRecord)
    ensures multiset(Insert(s, x)) == multiset(s) + multiset{x}
    decreases |s|
  {
    if s != [] && s[|s| - 1].line > x.line {
      InsertPermutation(s[..|s| - 1], x);
      MultisetSnoc(s);
    }
  }

  /** Inserting keeps every line under a common bound. */
  lemma {:induction false} InsertBounded(s: seq<HeaderRecord>, x: HeaderRecord, b: nat)
    requires forall k :: 0 <= k < |s| ==> s[k].line <= b
    requires x.line <= b
    ensures forall k :: 0 <= k < |Insert(s, x)| ==> Insert(s, x)[k].line <= b
    decreases |s|
  {
    if s != [] && s[|s| - 1].line > x.line {
      InsertBounded(s[..|s| - 1], x, b);
    }
  }

  lemma {:induction false} InsertSorted(s: seq<HeaderRecord>, x: HeaderRecord)
    requires SortedByLine(s)
    ensures SortedByLine(Insert(s, x))
    decreases |s|
  {
    if s != [] && s[|s| - 1].line > x.line {
      var init, last := s[..|s| - 1], s[|s| - 1];
      InsertSorted(init, x);
      InsertBounded(init, x, last.line);
    }
  }

  /** The sorted list is ordered by line. */
  lemma {:induction false} InsertionSortSorted(s: seq<HeaderRecord>)
    ensures SortedByLine(InsertionSort(s))
    decreases |s|
  {
    if s != [] {
      InsertionSortSorted(s[..|s| - 1]);
      InsertSorted(InsertionSort(s[..|s| - 1]), s[|s| - 1]);
    }
  }

  /** The sorted list holds exactly the collected records. */
  lemma {:induction false} InsertionSortPermutation(s: seq<HeaderRecord>)
    ensures multiset(InsertionSort(s)) == multiset(s)
    decreases |s|
  {
    if s != [] {
      InsertionSortPermutation(s[..|s| - 1]);
      InsertPermutation(InsertionSort(s[..|s| - 1]), s[|s| - 1]);
      MultisetSnoc(s);
    }
  }

  lemma {:induction false} InsertOnLine(s: seq<HeaderRecord>, x: HeaderRecord, l: nat)
    ensures OnLine(Insert(s, x), l) == OnLine(s, l) + (if x.line == l then [x] else [])
    decreases |s|
  {
    if s == [] || s[|s| - 1].line <= x.line {
      assert (s + [x])[..|s|] == s;
    } else {
      var init, last := s[..|s| - 1], s[|s| - 1];
      InsertOnLine(init, x, l);
      var r := Insert(init, x);
      assert (r + [last])[..|r|] == r;
      var a, xs, ls := OnLine(init, l), (if x.line == l then [x] else []), (if last.line == l then [last] else []);
      assert OnLine(r + [last], l) == (a + xs) + ls;
      assert OnLine(s, l) == a + ls;
      if xs == [] {
        assert a + xs == a && (a + ls) + xs == a + ls;
      } else {
        assert ls == [] && (a + xs) + ls == a + xs && a + ls == a;
      }
    }
  }

  /** Stability: on every line, the sorted list keeps the records in collection order. */
  lemma {:induction false} InsertionSortStable(s: seq<HeaderRecord>, l: nat)
    ensures OnLine(InsertionSort(s), l) == OnLine(s, l)
    decreases |s|
  {
    if s != [] {
      InsertionSortStable(s[..|s| - 1], l);
      InsertOnLine(InsertionSort(s[..|s| - 1]), s[|s| - 1], l);
    }
  }

  /** Where `Insert` puts `x`: after the records not above it, before the ones above it. */
  lemma {:induction false} InsertAt(s: seq<HeaderRecord>, x: HeaderRecord, j: nat)
    requires j <= |s|
    requires forall k :: j <= k < |s| ==> s[k].line > x.line
    requires j == 0 || s[j - 1].line <= x.line
    ensures Insert(s, x) == s[..j] + [x] + s[j..]
    decreases |s|
  {
    if j == |s| {
      assert s[..j] == s;
    } else {
      var init := s[..|s| - 1];
      InsertAt(init, x, j);
      assert init[..j] == s[..j];
      assert init[j..] + [s[|s| - 1]] == s[j..];
    }
  }

  /** After the shift loop: the gap at `j` receives `x`. */
  lemma FillGap(r: seq<HeaderRecord>, sorted: seq<HeaderRecord>, x: HeaderRecord, j: nat)
    requires j <= |sorted| && |r| == |sorted| + 1
    requires forall k :: 0 <= k < j ==> r[k] == sorted[k]
    requires r[j] == x
    requires forall k :: j < k < |r| ==> r[k] == sorted[k - 1]
    ensures r == sorted[..j] + [x] + sorted[j..]
  {
  }

  /** One pass of the sort: moves `a[i]` into the sorted prefix `a[..i]`. */
  method InsertLast(a: array<HeaderRecord>, i: nat)
    requires i < a.Length
    modifies a
    ensures a[..i + 1] == Insert(old(a[..i]), old(a[i]))
    ensures forall k :: i < k < a.Length ==> a[k] == old(a[k])
  {
    var x := a[i];
    ghost var sorted := a[..i];
    var j := i;
    while j > 0 && a[j - 1].line > x.line
      invariant 0 <= j <= i
      invariant forall k :: 0 <= k < j ==> a[k] == sorted[k]
      invariant forall k :: j < k <= i ==> a[k] == sorted[k - 1]
      invariant forall k :: j <= k < i ==> sorted[k].line > x.line
      invariant forall k :: i < k < a.Length ==> a[k] == old(a[k])
    {
      a[j] := a[j - 1];
      j := j - 1;
    }
    a[j] := x;
    FillGap(a[..i + 1], sorted, x, j);
    InsertAt(sorted, x, j);
  }

  /** Lines 148-150: sorts the records in place, exactly as the stable reference does. */
  method SortByLine(a: array<HeaderRecord>)
    modifies a
    ensures a[..] == InsertionSort(old(a[..]))
  {
    ghost var input := a[..];
    var i := 0;
    while i < a.Length
      invariant 0 <= i <= a.Length
      invariant a[..i] == InsertionSort(input[..i])
      invariant forall k :: i <= k < a.Length ==> a[k] == input[k]
    {
      InsertLast(a, i);
      assert input[..i + 1][..i] == input[..i];
      i := i + 1;
    }
    assert input[..a.Length] == input;
  }
}
