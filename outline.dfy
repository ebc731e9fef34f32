/**
 * The grouping loop of `content_list_view` (lines 152-167): the sorted
 * records are split into the root list and the `$sublists` map from a root
 * id to the sub-headings that follow that root.
 */
module Outline {
  import opened PhpValues
  import opened Headings
  import Ordering

  /** The root records of `s`, in order. */
  function RootsOf(s: seq<HeaderRecord>): seq<HeaderRecord>
    decreases |s|
  {
    if s == [] then [] else RootsOf(s[..|s| - 1]) + (if s[|s| - 1].root then [s[|s| - 1]] else [])
  }

  /** The ids carried by the root records of `s`. */
  function RootIds(s: seq<HeaderRecord>): set<string>
    decreases |s|
  {
    if s == [] then {} else RootIds(s[..|s| - 1]) + (if s[|s| - 1].root then {s[|s| - 1].id} else {})
  }

  /** Index of the last root of `s`, or -1 when it has none. */
  function LastRoot(s: seq<HeaderRecord>): (p: int)
    ensures -1 <= p < |s|
    ensures p >= 0 ==> s[p].root
    ensures forall q :: 0 <= q < |s| && s[q].root ==> q <= p
    decreases |s|
  {
    if s == [] then -1 else if s[|s| - 1].root then |s| - 1 else LastRoot(s[..|s| - 1])
  }

  /** Index of the last root of `s` whose id is `k`, or -1 when it has none. */
  function LastRootWithId(s: seq<HeaderRecord>, k: string): (p: int)
    ensures -1 <= p < |s|
    ensures p >= 0 ==> s[p].root && s[p].id == k
    ensures forall q :: 0 <= q < |s| && s[q].root && s[q].id == k ==> q <= p
    decreases |s|
  {
    if s == [] then -1
    else if s[|s| - 1].root && s[|s| - 1].id == k then |s| - 1
    else LastRootWithId(s[..|s| - 1], k)
  }

  lemma {:induction false} LastRootWithIdFound(s: seq<HeaderRecord>, k: string)
    ensures k in RootIds(s) <==> LastRootWithId(s, k) >= 0
    decreases |s|
  {
    if s != [] {
      LastRootWithIdFound(s[..|s| - 1], k);
    }
  }

  /** The first root at or after index `j`, or |s| when there is none. */
  function NextRoot(s: seq<HeaderRecord>, j: nat): (e: nat)
    requires j <= |s|
    ensures j <= e <= |s|
    ensures e < |s| ==> s[e].root
    ensures forall q :: j <= q < e ==> !s[q].root
    decreases |s| - j
  {
    if j == |s| then j else if s[j].root then j else NextRoot(s, j + 1)
  }

  /**
   * The sub-headings the root at index `p` receives: those after it up to
   * the next root. None in one-level mode, and none when its id is one PHP
   * reads as false in `!$currentRoot`.
   */
  function Segment(s: seq<HeaderRecord>, p: nat, oneLevel: bool): seq<HeaderRecord>
    requires p < |s|
  {
    if oneLevel || Falsy(s[p].id) then [] else s[p + 1..NextRoot(s, p + 1)]
  }

  /** The segment of the last root of `s` with id `k`, or none when no root has that id. */
  function SegmentOf(s: seq<HeaderRecord>, k: string, oneLevel: bool): seq<HeaderRecord> {
    var p := LastRootWithId(s, k);
    if p < 0 then [] else Segment(s, p, oneLevel)
  }

  /**
   * The `$sublists` map the loop leaves behind: every root id maps to the
   * segment of the LAST root that carries it, because a repeated id resets
   * its list (line 162).
   */
  function GroupSpec(s: seq<HeaderRecord>, oneLevel: bool): (m: map<string, seq<HeaderRecord>>)
    ensures m.Keys == RootIds(s)
    ensures oneLevel ==> forall k :: k in m ==> m[k] == []
  {
    map k | k in RootIds(s) :: SegmentOf(s, k, oneLevel)
  }

  /** The value of `$currentRoot` after the loop has seen `s`. */
  function CurrentRoot(s: seq<HeaderRecord>): Option<string> {
    var p := LastRoot(s);
    if p < 0 then None else Some(s[p].id)
  }

  lemma {:induction false} NextRootAppend(t: seq<HeaderRecord>, x: HeaderRecord, j: nat)
    requires j <= |t|
    ensures NextRoot(t, j) < |t| ==> NextRoot(t + [x], j) == NextRoot(t, j)
    ensures NextRoot(t, j) == |t| ==> NextRoot(t + [x], j) == (if x.root then |t| else |t| + 1)
    decreases |t| - j
  {
    if j < |t| && !t[j].root {
      NextRootAppend(t, x, j + 1);
    }
  }

  /** The segment of a root that is not the last one of `t` is final. */
  lemma SegmentAppendEarlier(t: seq<HeaderRecord>, x: HeaderRecord, p: nat, ol: bool)
    requires p < |t| && NextRoot(t, p + 1) < |t|
    ensures Segment(t + [x], p, ol) == Segment(t, p, ol)
  {
    NextRootAppend(t, x, p + 1);
    assert (t + [x])[p + 1..NextRoot(t, p + 1)] == t[p + 1..NextRoot(t, p + 1)];
  }

  lemma RootIdsAppend(t: seq<HeaderRecord>, x: HeaderRecord)
    ensures RootIds(t + [x]) == RootIds(t) + (if x.root then {x.id} else {})
  {
    assert (t + [x])[..|t|] == t;
  }

  lemma SliceAppend(t: seq<HeaderRecord>, x: HeaderRecord, j: nat)
    requires j <= |t|
    ensures (t + [x])[j..] == t[j..] + [x]
  {
  }

  /** The segment of the last root of `t` when a root follows: final. */
  lemma SegmentAppendAfterLast(t: seq<HeaderRecord>, x: HeaderRecord, p: nat, ol: bool)
    requires p < |t| && NextRoot(t, p + 1) == |t| && x.root
    ensures Segment(t + [x], p, ol) == Segment(t, p, ol)
  {
    NextRootAppend(t, x, p + 1);
    assert (t + [x])[p + 1..|t|] == t[p + 1..];
  }

  /** The segment of the last root of `t` when a sub-heading follows: it grows by it. */
  lemma SegmentAppendChild(t: seq<HeaderRecord>, x: HeaderRecord, p: nat, ol: bool)
    requires p < |t| && NextRoot(t, p + 1) == |t| && !x.root
    ensures Segment(t + [x], p, ol) == if ol || Falsy(t[p].id) then [] else Segment(t, p, ol) + [x]
  {
    NextRootAppend(t, x, p + 1);
    SliceAppend(t, x, p + 1);
  }

  /** A root appended to `t` is the last one with its id, and its segment is still empty. */
  lemma NewRootSegment(t: seq<HeaderRecord>, x: HeaderRecord, ol: bool)
    requires x.root
    ensures LastRootWithId(t + [x], x.id) == |t|
    ensures Segment(t + [x], |t|, ol) == []
  {
    var s := t + [x];
    assert s[|s| - 1] == x;
    assert NextRoot(s, |t| + 1) == |s|;
  }

  /**
   * How one more record changes the segment of id `k`: a root with that id
   * restarts it empty, a kept sub-heading extends the current root's
   * segment, and nothing else touches it.
   */
  lemma SegmentOfAppend(t: seq<HeaderRecord>, x: HeaderRecord, ol: bool, k: string)
    ensures SegmentOf(t + [x], k, ol) ==
      if x.root && x.id == k then []
      else if !x.root && !ol && CurrentRoot(t) == Some(k) && !Falsy(k) then SegmentOf(t, k, ol) + [x]
      else SegmentOf(t, k, ol)
  {
    assert (t + [x])[..|t|] == t;
    if x.root && x.id == k {
      NewRootSegment(t, x, ol);
    } else {
      var p := LastRootWithId(t, k);
      assert LastRootWithId(t + [x], k) == p;
      if p >= 0 {
        if NextRoot(t, p + 1) < |t| {
          SegmentAppendEarlier(t, x, p, ol);
          assert LastRoot(t) > p;
        } else if x.root {
          SegmentAppendAfterLast(t, x, p, ol);
        } else {
          assert LastRoot(t) == p;
          SegmentAppendChild(t, x, p, ol);
        }
      }
    }
  }

  /** A step of the loop on a root: its id now maps to an empty list. */
  lemma GroupAppendRoot(t: seq<HeaderRecord>, x: HeaderRecord, ol: bool)
    requires x.root
    ensures GroupSpec(t + [x], ol) == GroupSpec(t, ol)[x.id := []]
  {
    RootIdsAppend(t, x);
    var want, new_ := GroupSpec(t, ol)[x.id := []], GroupSpec(t + [x], ol);
    forall k | k in new_ ensures new_[k] == want[k] {
      SegmentOfAppend(t, x, ol, k);
    }
    assert new_.Keys == want.Keys;
  }

  /** A step on a sub-heading that is skipped: the map does not change. */
  lemma GroupAppendSkip(t: seq<HeaderRecord>, x: HeaderRecord, ol: bool)
    requires !x.root && (ol || CurrentRoot(t).None? || Falsy(CurrentRoot(t).value))
    ensures GroupSpec(t + [x], ol) == GroupSpec(t, ol)
  {
    RootIdsAppend(t, x);
    var want, new_ := GroupSpec(t, ol), GroupSpec(t + [x], ol);
    forall k | k in new_ ensures new_[k] == want[k] {
      SegmentOfAppend(t, x, ol, k);
    }
    assert new_.Keys == want.Keys;
  }

  /** A step on a sub-heading that is kept: it is appended to the current root's list. */
  lemma GroupAppendChild(t: seq<HeaderRecord>, x: HeaderRecord, ol: bool)
    requires !x.root && !ol && CurrentRoot(t).Some? && !Falsy(CurrentRoot(t).value)
    ensures CurrentRoot(t).value in GroupSpec(t, ol)
    ensures var cur := CurrentRoot(t).value;
      GroupSpec(t + [x], ol) == GroupSpec(t, ol)[cur := GroupSpec(t, ol)[cur] + [x]]
  {
    RootIdsAppend(t, x);
    var cur := CurrentRoot(t).value;
    assert LastRootWithId(t, cur) >= 0;
    LastRootWithIdFound(t, cur);
    var old_, new_ := GroupSpec(t, ol), GroupSpec(t + [x], ol);
    var want := old_[cur := old_[cur] + [x]];
    forall k | k in new_ ensures new_[k] == want[k] {
      SegmentOfAppend(t, x, ol, k);
    }
    assert new_.Keys == want.Keys;
  }

  /**
   * Where a sub-heading goes: it lies in the segment of root `p` exactly
   * when `p` is the nearest root before it.
   */
  lemma InSegmentIff(s: seq<HeaderRecord>, p: nat, q: nat)
    requires p < |s| && q < |s| && s[p].root && !s[q].root
    ensures p < q < NextRoot(s, p + 1) <==> p == LastRoot(s[..q])
  {
    if p < q {
      assert s[..q][p] == s[p];
      var r := LastRoot(s[..q]);
      var e := NextRoot(s, p + 1);
      if r > p {
        assert s[r].root && p < r < q;
      }
    }
  }

  /**
   * A kept sub-heading lands in the list of the nearest root before it, at
   * its offset from that root, when no later root repeats that root's id.
   */
  lemma ChildPlacement(s: seq<HeaderRecord>, q: nat, ol: bool)
    requires q < |s| && !s[q].root && !ol
    requires LastRoot(s[..q]) >= 0
    requires var p := LastRoot(s[..q]); !Falsy(s[p].id) && LastRootWithId(s, s[p].id) == p
    ensures var p := LastRoot(s[..q]);
      && s[p].id in GroupSpec(s, ol)
      && 0 <= q - p - 1 < |GroupSpec(s, ol)[s[p].id]|
      && GroupSpec(s, ol)[s[p].id][q - p - 1] == s[q]
  {
    var p := LastRoot(s[..q]);
    assert s[..q][p] == s[p];
    LastRootWithIdFound(s, s[p].id);
    InSegmentIff(s, p, q);
    assert GroupSpec(s, ol)[s[p].id] == s[p + 1..NextRoot(s, p + 1)];
  }

  /** A sub-heading with no root before it is in no root's segment: it is dropped. */
  lemma OrphanDropped(s: seq<HeaderRecord>, q: nat)
    requires q < |s| && !s[q].root && LastRoot(s[..q]) < 0
    ensures forall p :: 0 <= p < |s| && s[p].root ==> !(p < q < NextRoot(s, p + 1))
  {
    forall p | 0 <= p < |s| && s[p].root
      ensures !(p < q < NextRoot(s, p + 1))
    {
      InSegmentIff(s, p, q);
    }
  }

  /** Every root of the list has an entry in the map, so rendering always finds one. */
  lemma {:induction false} RootsHaveSublists(s: seq<HeaderRecord>, ol: bool)
    ensures forall i :: 0 <= i < |RootsOf(s)| ==> RootsOf(s)[i].root && RootsOf(s)[i].id in GroupSpec(s, ol)
    decreases |s|
  {
    if s != [] {
      RootsHaveSublists(s[..|s| - 1], ol);
      RootIdsAppend(s[..|s| - 1], s[|s| - 1]);
      assert s == s[..|s| - 1] + [s[|s| - 1]];
    }
  }

  /** The root list of a sorted list is sorted. */
  lemma {:induction false} RootsSorted(s: seq<HeaderRecord>)
    requires Ordering.SortedByLine(s)
    ensures Ordering.SortedByLine(RootsOf(s))
    ensures forall i :: 0 <= i < |RootsOf(s)| ==> exists q :: 0 <= q < |s| && RootsOf(s)[i] == s[q]
    decreases |s|
  {
    if s != [] {
      var init := s[..|s| - 1];
      RootsSorted(init);
      var r := RootsOf(init);
      forall i | 0 <= i < |r| ensures r[i].line <= s[|s| - 1].line {
        var q :| 0 <= q < |init| && r[i] == init[q];
      }
    }
  }

  /** Children stay in sorted order: every list of the map is sorted, and not above its root. */
  lemma GroupSorted(s: seq<HeaderRecord>, ol: bool, k: string)
    requires Ordering.SortedByLine(s) && k in GroupSpec(s, ol)
    ensures Ordering.SortedByLine(GroupSpec(s, ol)[k])
    ensures forall c :: c in GroupSpec(s, ol)[k] ==> c.line >= s[LastRootWithId(s, k)].line
  {
    LastRootWithIdFound(s, k);
  }

  /**
   * Lines 152-167: roots are appended to the list and open an empty
   * sublist under their id; a sub-heading is skipped in one-level mode or
   * while `$currentRoot` is false, and otherwise appended to the current
   * root's sublist. The result is the root list and the map `GroupSpec`.
   */
  method Group(sorted: seq<HeaderRecord>, isOneLevel: bool) returns (list: seq<HeaderRecord>, sublists: map<string, seq<HeaderRecord>>)
    ensures list == RootsOf(sorted)
    ensures sublists == GroupSpec(sorted, isOneLevel)
  {
    list := [];
    sublists := map[];
    var currentRoot: Option<string> := None;
    for i := 0 to |sorted|
      invariant list == RootsOf(sorted[..i])
      invariant sublists == GroupSpec(sorted[..i], isOneLevel)
      invariant currentRoot == CurrentRoot(sorted[..i])
    {
      var header := sorted[i];
      assert sorted[..i + 1] == sorted[..i] + [header];
      if header.root {
        GroupAppendRoot(sorted[..i], header, isOneLevel);
        list := list + [header];
        currentRoot := Some(header.id);
        sublists := sublists[header.id := []];
      } else if isOneLevel || currentRoot.None? || Falsy(currentRoot.value) {
        GroupAppendSkip(sorted[..i], header, isOneLevel);
      } else {
        GroupAppendChild(sorted[..i], header, isOneLevel);
        sublists := sublists[currentRoot.value := sublists[currentRoot.value] + [header]];
      }
    }
    assert sorted[..|sorted|] == sorted;
  }
}
