/** The output pass of ReadCluster::getOutput: sort a copy of the accumulated
    nodes by interval, then drop adjacent nodes with equal intervals. */
module ClusterOutput {
  import opened ClusterTypes
  import ClusterSearch

  /** Every node precedes every later one in the interval order. */
  predicate StrictlySorted(r: seq<ClusterNode>)
  {
    forall i, j :: 0 <= i < j < |r| ==> Less(r[i], r[j])
  }

  /** No node is smaller than an earlier one: what std::sort leaves. */
  predicate NotDescending(r: seq<ClusterNode>)
  {
    forall i, j :: 0 <= i < j < |r| ==> !Less(r[j], r[i])
  }

  /** The intervals a list of nodes covers. */
  function IntervalSet(ns: seq<ClusterNode>): set<Interval>
  {
    set k | 0 <= k < |ns| :: ns[k].interval
  }

  /** `r` is a sorted, duplicate-free rendering of `out`: strictly increasing
      intervals, every node taken from `out`, and every interval of `out`
      represented. Which of several nodes with one interval survives is left
      open, as an unstable sort leaves it. */
  predicate IsSortedUnique(r: seq<ClusterNode>, out: seq<ClusterNode>)
  {
    StrictlySorted(r) && TakenFrom(r, out) && Covers(r, out)
  }

  /** Every node of `r` is a node of `out`. */
  predicate TakenFrom(r: seq<ClusterNode>, out: seq<ClusterNode>)
  {
    forall x :: x in r ==> x in out
  }

  /** Every node of `out` has a node with the same interval in `r`. */
  predicate Covers(r: seq<ClusterNode>, out: seq<ClusterNode>)
  {
    forall i :: 0 <= i < |out| ==> exists j :: 0 <= j < |r| && Same(r[j], out[i])
  }

  /** Sorts `a` in place by interval (std::sort with ClusterNode::compare). */
  method InsertionSort(a: array<ClusterNode>)
    modifies a
    ensures NotDescending(a[..])
    ensures multiset(a[..]) == old(multiset(a[..]))
  {
    var i := 0;
    while i < a.Length
      invariant 0 <= i <= a.Length
      invariant NotDescending(a[..i])
      invariant multiset(a[..]) == old(multiset(a[..]))
    {
      InsertLast(a, i);
      i := i + 1;
    }
    assert a[..a.Length] == a[..];
  }

  /** Moves a[i] down into the sorted prefix a[..i] by adjacent swaps. */
  method InsertLast(a: array<ClusterNode>, i: nat)
    requires i < a.Length && NotDescending(a[..i])
    modifies a
    ensures NotDescending(a[..i + 1])
    ensures multiset(a[..]) == old(multiset(a[..]))
  {
    var j := i;
    while j > 0 && Less(a[j], a[j - 1])
      invariant 0 <= j <= i
      invariant forall p, q :: 0 <= p < q <= i && p != j && q != j ==> !Less(a[q], a[p])
      invariant forall q :: j < q <= i ==> Less(a[j], a[q])
      invariant multiset(a[..]) == old(multiset(a[..]))
    {
      a[j - 1], a[j] := a[j], a[j - 1];
      j := j - 1;
    }
  }

  /** Node `i` of `s` starts a run of consecutive nodes with equal intervals. */
  predicate HeadAt(s: seq<ClusterNode>, i: nat)
    requires i < |s|
  {
    i == 0 || !Same(s[i - 1], s[i])
  }

  /** The first node of every run of consecutive nodes with equal intervals
      among the first `i` nodes of `s`, in order, each compared with its
      neighbour. */
  function GroupHeadsUpTo(s: seq<ClusterNode>, i: nat): (r: seq<ClusterNode>)
    requires i <= |s|
    ensures |r| <= i
  {
    if i == 0 then []
    else if i >= 2 && Same(s[i - 2], s[i - 1]) then GroupHeadsUpTo(s, i - 1)
    else GroupHeadsUpTo(s, i - 1) + [s[i - 1]]
  }

  /** What std::unique keeps of `s`. */
  function GroupHeads(s: seq<ClusterNode>): seq<ClusterNode>
  {
    GroupHeadsUpTo(s, |s|)
  }

  /** `x` is the first node of some run of equal intervals in `s`. */
  predicate IsGroupHead(x: ClusterNode, s: seq<ClusterNode>)
  {
    exists i :: 0 <= i < |s| && x == s[i] && HeadAt(s, i)
  }

  /** Every node GroupHeads keeps is the first of its run in `s`. */
  lemma {:induction false} GroupHeadsAreFirst(s: seq<ClusterNode>, i: nat)
    requires i <= |s|
    ensures forall x :: x in GroupHeadsUpTo(s, i) ==> IsGroupHead(x, s)
  {
    if i > 0 {
      GroupHeadsAreFirst(s, i - 1);
      forall x | x in GroupHeadsUpTo(s, i) ensures IsGroupHead(x, s) {
        if x !in GroupHeadsUpTo(s, i - 1) {
          assert x == s[i - 1] && HeadAt(s, i - 1);
        }
      }
    }
  }

  /** One more node: GroupHeadsUpTo keeps it exactly when its interval differs
      from that of the last node kept so far. */
  lemma GroupHeadsNext(s: seq<ClusterNode>, i: nat, kept: seq<ClusterNode>)
    requires 0 < i < |s| && kept == GroupHeadsUpTo(s, i) && kept != []
    requires Same(kept[|kept| - 1], s[i - 1])
    ensures GroupHeadsUpTo(s, i + 1) == if Same(kept[|kept| - 1], s[i]) then kept else kept + [s[i]]
  {
  }

  /** Writing `v` at `k` extends the prefix before `k` and leaves everything
      after `i >= k` alone. */
  lemma WriteKeeps(t: seq<ClusterNode>, k: nat, i: nat, v: ClusterNode)
    requires k <= i < |t|
    ensures t[k := v][..k + 1] == t[..k] + [v]
    ensures t[k := v][i + 1..] == t[i + 1..]
  {
  }

  /** Removes, in place, every node whose interval equals that of the node kept
      before it (std::unique with ClusterNode::equal); the kept prefix is a[..k],
      the first node of each run of equal intervals. */
  method Unique(a: array<ClusterNode>) returns (k: nat)
    modifies a
    ensures k <= a.Length
    ensures a[..k] == GroupHeads(old(a[..]))
    ensures NotDescending(old(a[..])) ==> IsSortedUnique(a[..k], old(a[..]))
  {
    ghost var s := a[..];
    k := 0;
    if a.Length > 0 {
      ghost var kept := [s[0]];
      k := 1;
      var i := 1;
      assert GroupHeadsUpTo(s, 1) == [s[0]];
      while i < a.Length
        invariant 1 <= k <= i <= a.Length
        invariant a[..k] == kept && a[i..] == s[i..]
        invariant kept == GroupHeadsUpTo(s, i)
        invariant Same(kept[k - 1], s[i - 1])
      {
        assert a[k - 1] == kept[k - 1] && a[i] == a[i..][0] == s[i];
        GroupHeadsNext(s, i, kept);
        if !Same(a[k - 1], a[i]) {
          ghost var before := a[..];
          a[k] := a[i];
          assert a[..] == before[k := s[i]];
          WriteKeeps(before, k, i, s[i]);
          kept := kept + [s[i]];
          k := k + 1;
        } else {
          assert a[i + 1..] == a[i..][1..];
        }
        i := i + 1;
      }
    }
    if NotDescending(s) {
      GroupHeadsSortedUnique(s);
    }
  }

  /** What the group heads of the first `i` nodes of `s` are: strictly sorted,
      taken from `s`, covering every interval of those nodes, and ending with a
      node of the last one's interval. */
  predicate HeadsOfPrefix(kept: seq<ClusterNode>, s: seq<ClusterNode>, i: nat)
  {
    && 0 < i <= |s| && kept != []
    && StrictlySorted(kept) && TakenFrom(kept, s) && Covers(kept, s[..i])
    && Same(kept[|kept| - 1], s[i - 1])
  }

  /** The group heads of every non-empty prefix of a sorted list. */
  lemma {:induction false} GroupHeadsPrefix(s: seq<ClusterNode>, i: nat)
    requires NotDescending(s) && 1 <= i <= |s|
    ensures HeadsOfPrefix(GroupHeadsUpTo(s, i), s, i)
  {
    if i == 1 {
      assert GroupHeadsUpTo(s, 1) == [s[0]];
      assert s[..1] == [s[0]];
      assert s[0] in s;
    } else {
      GroupHeadsPrefix(s, i - 1);
      HeadsOfPrefixNext(s, i - 1);
    }
  }

  /** Reading one more node of a sorted list keeps HeadsOfPrefix. */
  lemma HeadsOfPrefixNext(s: seq<ClusterNode>, j: nat)
    requires NotDescending(s) && 0 < j < |s| && HeadsOfPrefix(GroupHeadsUpTo(s, j), s, j)
    ensures HeadsOfPrefix(GroupHeadsUpTo(s, j + 1), s, j + 1)
  {
    var kept := GroupHeadsUpTo(s, j);
    GroupHeadsNext(s, j, kept);
    if Same(kept[|kept| - 1], s[j]) {
      SkipNext(kept, s, j);
    } else {
      KeepNext(kept, s, j);
    }
  }

  /** The group heads of a sorted list are a sorted, duplicate-free rendering
      of it. */
  lemma GroupHeadsSortedUnique(s: seq<ClusterNode>)
    requires NotDescending(s)
    ensures IsSortedUnique(GroupHeads(s), s)
  {
    if s != [] {
      GroupHeadsPrefix(s, |s|);
      assert s[..|s|] == s;
    }
  }

  /** A node whose interval differs from the last kept one extends the kept,
      strictly sorted prefix. */
  lemma KeepNext(kept: seq<ClusterNode>, s: seq<ClusterNode>, i: nat)
    requires NotDescending(s) && 0 < i < |s| && kept != []
    requires StrictlySorted(kept) && TakenFrom(kept, s) && Covers(kept, s[..i])
    requires Same(kept[|kept| - 1], s[i - 1]) && !Same(kept[|kept| - 1], s[i])
    ensures StrictlySorted(kept + [s[i]]) && TakenFrom(kept + [s[i]], s)
    ensures Covers(kept + [s[i]], s[..i + 1])
  {
    var kept' := kept + [s[i]];
    assert !Less(s[i], s[i - 1]);
    forall p, q | 0 <= p < q < |kept'| ensures Less(kept'[p], kept'[q]) {
      if q == |kept| {
        assert kept'[p] == kept[p];
        if p < |kept| - 1 {
          assert Less(kept[p], kept[|kept| - 1]);
        }
      } else {
        assert kept'[p] == kept[p] && kept'[q] == kept[q];
      }
    }
    forall x | x in kept' ensures x in s {
      if x != s[i] { assert x in kept; }
    }
    var t := s[..i + 1];
    forall p | 0 <= p < |t| ensures exists j :: 0 <= j < |kept'| && Same(kept'[j], t[p]) {
      if p == i {
        assert Same(kept'[|kept|], t[p]);
      } else {
        assert t[p] == s[..i][p];
        var j :| 0 <= j < |kept| && Same(kept[j], s[..i][p]);
        assert kept'[j] == kept[j];
      }
    }
  }

  /** A node whose interval equals the last kept one is dropped. */
  lemma SkipNext(kept: seq<ClusterNode>, s: seq<ClusterNode>, i: nat)
    requires 0 < i < |s| && kept != []
    requires Covers(kept, s[..i]) && Same(kept[|kept| - 1], s[i])
    ensures Covers(kept, s[..i + 1])
  {
    var t := s[..i + 1];
    forall p | 0 <= p < |t| ensures exists j :: 0 <= j < |kept| && Same(kept[j], t[p]) {
      if p == i {
        assert Same(kept[|kept| - 1], t[p]);
      } else {
        assert t[p] == s[..i][p];
      }
    }
  }

  /** getOutput's pass over a copy of the accumulator. */
  method SortUnique(out: seq<ClusterNode>) returns (r: seq<ClusterNode>)
    ensures IsSortedUnique(r, out)
  {
    var a := new ClusterNode[|out|](i requires 0 <= i < |out| => out[i]);
    assert a[..] == out;
    InsertionSort(a);
    ghost var sorted := a[..];
    assert forall x :: x in out <==> x in sorted by {
      forall x ensures x in out <==> x in sorted {
        assert x in out <==> x in multiset(out);
        assert x in sorted <==> x in multiset(sorted);
      }
    }
    var k := Unique(a);
    r := a[..k];
    forall i | 0 <= i < |out| ensures exists j :: 0 <= j < |r| && Same(r[j], out[i]) {
      assert out[i] in out;
      var p :| 0 <= p < |sorted| && sorted[p] == out[i];
    }
  }

  /** Two strictly sorted node lists covering the same intervals list the same
      intervals in the same order. */
  lemma {:induction false} SortedSameIntervals(r1: seq<ClusterNode>, r2: seq<ClusterNode>)
    requires StrictlySorted(r1) && StrictlySorted(r2)
    requires IntervalSet(r1) == IntervalSet(r2)
    ensures |r1| == |r2|
    ensures forall i :: 0 <= i < |r1| ==> r1[i].interval == r2[i].interval
    decreases |r1|
  {
    if r1 == [] {
      if r2 != [] {
        HeadInterval(r2);
      }
    } else {
      HeadInterval(r1);
      HeadInterval(r2);
      var j :| 0 <= j < |r2| && r2[j].interval == r1[0].interval;
      var i :| 0 <= i < |r1| && r1[i].interval == r2[0].interval;
      assert j == 0;
      assert r1[0].interval == r2[0].interval;
      TailIntervals(r1);
      TailIntervals(r2);
      SortedSameIntervals(r1[1..], r2[1..]);
      forall p | 0 <= p < |r1| ensures r1[p].interval == r2[p].interval {
        if p > 0 {
          assert r1[p] == r1[1..][p - 1] && r2[p] == r2[1..][p - 1];
        }
      }
    }
  }

  lemma HeadInterval(r: seq<ClusterNode>)
    requires r != []
    ensures r[0].interval in IntervalSet(r)
  {
  }

  lemma HeadIn(r: seq<ClusterNode>)
    requires r != []
    ensures r[0] in r
  {
  }

  lemma TailIntervals(r: seq<ClusterNode>)
    requires r != [] && StrictlySorted(r)
    ensures StrictlySorted(r[1..])
    ensures IntervalSet(r[1..]) == IntervalSet(r) - {r[0].interval}
  {
    forall x | x in IntervalSet(r) - {r[0].interval} ensures x in IntervalSet(r[1..]) {
      var k :| 0 <= k < |r| && r[k].interval == x;
      assert r[1..][k - 1] == r[k];
    }
    forall x | x in IntervalSet(r[1..]) ensures x in IntervalSet(r) - {r[0].interval} {
      var k :| 0 <= k < |r[1..]| && r[1..][k].interval == x;
      assert r[k + 1] == r[1..][k];
      assert Less(r[0], r[k + 1]);
    }
  }

  /** The output pass is deterministic in its intervals: whichever node an
      unstable sort lets survive, two accumulators covering the same intervals
      (for instance the same nodes found in another order) produce the same
      interval sequence. */
  lemma SortUniqueIntervalsDetermined(r1: seq<ClusterNode>, out1: seq<ClusterNode>,
                                      r2: seq<ClusterNode>, out2: seq<ClusterNode>)
    requires IsSortedUnique(r1, out1) && IsSortedUnique(r2, out2)
    requires IntervalSet(out1) == IntervalSet(out2)
    ensures |r1| == |r2|
    ensures forall i :: 0 <= i < |r1| ==> r1[i].interval == r2[i].interval
  {
    CoveredIntervals(r1, out1);
    CoveredIntervals(r2, out2);
    SortedSameIntervals(r1, r2);
  }

  lemma CoveredIntervals(r: seq<ClusterNode>, out: seq<ClusterNode>)
    requires IsSortedUnique(r, out)
    ensures IntervalSet(r) == IntervalSet(out)
  {
    forall x | x in IntervalSet(r) ensures x in IntervalSet(out) {
      var k :| 0 <= k < |r| && r[k].interval == x;
      assert r[k] in r;
      var p :| 0 <= p < |out| && out[p] == r[k];
    }
    forall x | x in IntervalSet(out) ensures x in IntervalSet(r) {
      var k :| 0 <= k < |out| && out[k].interval == x;
      var j :| 0 <= j < |r| && Same(r[j], out[k]);
    }
  }

  /** When the accumulator already has pairwise distinct canonical lower
      bounds, as a consistent run leaves it, the output pass drops nothing:
      the result holds exactly the accumulated nodes. */
  lemma {:induction false} DistinctOutputLosesNothing(r: seq<ClusterNode>, out: seq<ClusterNode>)
    requires IsSortedUnique(r, out) && ClusterSearch.DistinctLowers(out)
    ensures forall x :: x in r <==> x in out
    ensures |r| == |out|
  {
    forall x | x in out ensures x in r {
      var i :| 0 <= i < |out| && out[i] == x;
      var j :| 0 <= j < |r| && Same(r[j], out[i]);
      assert r[j] in r;
      var p :| 0 <= p < |out| && out[p] == r[j];
      assert p == i;
    }
    DistinctCount(r, out);
  }

  /** Counting for DistinctOutputLosesNothing: a strictly sorted list and a
      list with distinct lower bounds holding the same nodes have one length. */
  lemma {:induction false} DistinctCount(r: seq<ClusterNode>, out: seq<ClusterNode>)
    requires StrictlySorted(r) && ClusterSearch.DistinctLowers(out)
    requires forall x :: x in r <==> x in out
    ensures |r| == |out|
    decreases |out|
  {
    if out == [] {
      if r != [] {
        HeadIn(r);
      }
    } else {
      var x := out[|out| - 1];
      assert x in r;
      var j :| 0 <= j < |r| && r[j] == x;
      var rest := r[..j] + r[j + 1..];
      RemoveKeepsSorted(r, j);
      DropLastKeepsDistinct(out);
      RemoveLastMatches(r, out, j, rest, out[..|out| - 1]);
      DistinctCount(rest, out[..|out| - 1]);
    }
  }

  lemma RemoveKeepsSorted(r: seq<ClusterNode>, j: nat)
    requires StrictlySorted(r) && j < |r|
    ensures StrictlySorted(r[..j] + r[j + 1..])
  {
    var rest := r[..j] + r[j + 1..];
    forall p, q | 0 <= p < q < |rest| ensures Less(rest[p], rest[q]) {
      var p' := if p < j then p else p + 1;
      var q' := if q < j then q else q + 1;
      assert rest[p] == r[p'] && rest[q] == r[q'];
    }
  }

  lemma DropLastKeepsDistinct(out: seq<ClusterNode>)
    requires ClusterSearch.DistinctLowers(out) && out != []
    ensures ClusterSearch.DistinctLowers(out[..|out| - 1])
  {
    var init := out[..|out| - 1];
    forall p, q | 0 <= p < q < |init|
      ensures init[p].interval.lower != init[q].interval.lower
    {
      assert init[p] == out[p] && init[q] == out[q];
    }
  }

  /** Removing the last node of `out` and its copy at `j` in `r` keeps the two
      lists holding the same nodes. */
  lemma RemoveLastMatches(r: seq<ClusterNode>, out: seq<ClusterNode>, j: nat,
                           rest: seq<ClusterNode>, init: seq<ClusterNode>)
    requires StrictlySorted(r) && ClusterSearch.DistinctLowers(out)
    requires forall x :: x in r <==> x in out
    requires out != [] && j < |r| && r[j] == out[|out| - 1]
    requires rest == r[..j] + r[j + 1..] && init == out[..|out| - 1]
    ensures forall y :: y in rest <==> y in init
  {
    var x := out[|out| - 1];
    forall y ensures y in rest <==> y in init {
      if y in rest {
        var p :| 0 <= p < |rest| && rest[p] == y;
        var p' := if p < j then p else p + 1;
        assert r[p'] == y && p' != j;
        assert Less(r[p'], r[j]) || Less(r[j], r[p']);
        assert y in out;
        var k :| 0 <= k < |out| && out[k] == y;
        assert k != |out| - 1;
        assert init[k] == y;
      }
      if y in init {
        var k :| 0 <= k < |init| && init[k] == y;
        assert out[k] == y;
        assert y != x;
        assert y in r;
        var p :| 0 <= p < |r| && r[p] == y;
        assert p != j;
        if p < j { assert rest[p] == y; } else { assert rest[p - 1] == y; }
      }
    }
  }
}
