/** The bounded breadth-first search of ReadCluster::run, as functions over the
    value of the object's three fields, with the properties the search keeps. */
module ClusterSearch {
  import opened ClusterTypes

  /** The fields of a ReadCluster: the FIFO frontier, the accumulated output and
      the set of canonical lower bounds already introduced. */
  datatype BfsState = BfsState(queue: seq<ClusterNode>, out: seq<ClusterNode>, used: set<int>)

  /** What run leaves behind, and whether it stopped on the size bound. */
  datatype RunResult = RunResult(final: BfsState, aborted: bool)

  /** The canonical lower bounds of a list of nodes. */
  function Lowers(ns: seq<ClusterNode>): set<int>
  {
    set k | 0 <= k < |ns| :: ns[k].interval.lower
  }

  /** The canonical lower bounds of a block list. */
  function BlockLowers(blocks: seq<OverlapBlock>): set<int>
  {
    set j | 0 <= j < |blocks| :: blocks[j].canonicalInterval.lower
  }

  /** No two nodes share a canonical lower bound. */
  predicate DistinctLowers(ns: seq<ClusterNode>)
  {
    forall i, j :: 0 <= i < j < |ns| ==> ns[i].interval.lower != ns[j].interval.lower
  }

  /** The state a search keeps when it started from an empty object and only
      fresh seeds were added: every introduced lower bound belongs to exactly
      one node of the output or the frontier. */
  predicate Consistent(s: BfsState)
  {
    DistinctLowers(s.out + s.queue) && s.used == Lowers(s.out + s.queue)
  }

  /** Every overlap of node `n` names a lower bound in `used`. */
  predicate Explored(ov: Overlapper, minOverlap: int, n: ClusterNode, used: set<int>)
  {
    BlockLowers(ov.overlapRead(n.sequence, minOverlap)) <= used
  }

  /** One pass of the inner loop: a block whose lower bound is not yet used marks
      it used and then enqueues its node; any other block is ignored. */
  function VisitBlock(b: OverlapBlock, parent: string, s: BfsState): BfsState
  {
    var lower := b.canonicalInterval.lower;
    if lower in s.used then s
    else BfsState(s.queue + [NodeOf(b, parent)], s.out, s.used + {lower})
  }

  /** The whole inner loop over a block list, in list order. */
  function Expand(blocks: seq<OverlapBlock>, parent: string, s: BfsState): (r: BfsState)
    ensures r.out == s.out
    ensures |s.queue| <= |r.queue| <= |s.queue| + |blocks|
    ensures r.queue[..|s.queue|] == s.queue
    ensures r.used == s.used + BlockLowers(blocks)
    decreases |blocks|
  {
    if blocks == [] then s
    else
      var init := blocks[..|blocks| - 1];
      assert BlockLowers(blocks) == BlockLowers(init) + {blocks[|blocks| - 1].canonicalInterval.lower};
      VisitBlock(blocks[|blocks| - 1], parent, Expand(init, parent, s))
  }

  /** The nodes an expansion appends to the frontier. */
  function Added(blocks: seq<OverlapBlock>, parent: string, s: BfsState): seq<ClusterNode>
  {
    Expand(blocks, parent, s).queue[|s.queue|..]
  }

  /** Node `n` is the node of one of the blocks, discovered from `parent`. */
  predicate NodeOfSome(n: ClusterNode, blocks: seq<OverlapBlock>, parent: string)
  {
    exists j :: 0 <= j < |blocks| && n == NodeOf(blocks[j], parent)
  }

  /** Every node of `ns` is the node of one of the blocks. */
  predicate FromBlocks(ns: seq<ClusterNode>, blocks: seq<OverlapBlock>, parent: string)
  {
    forall k :: 0 <= k < |ns| ==> NodeOfSome(ns[k], blocks, parent)
  }

  /** Provenance survives appending a block, and appending that block's node. */
  lemma FromBlocksExtend(ns: seq<ClusterNode>, init: seq<OverlapBlock>, b: OverlapBlock, parent: string)
    requires FromBlocks(ns, init, parent)
    ensures FromBlocks(ns, init + [b], parent)
    ensures FromBlocks(ns + [NodeOf(b, parent)], init + [b], parent)
  {
    var blocks := init + [b];
    forall n | NodeOfSome(n, init, parent) ensures NodeOfSome(n, blocks, parent) {
      var j :| 0 <= j < |init| && n == NodeOf(init[j], parent);
      assert blocks[j] == init[j];
    }
    assert NodeOfSome(NodeOf(b, parent), blocks, parent) by {
      assert blocks[|init|] == b;
    }
    var ext := ns + [NodeOf(b, parent)];
    forall k | 0 <= k < |ext| ensures NodeOfSome(ext[k], blocks, parent) {
      if k < |ns| {
        assert ext[k] == ns[k];
      }
    }
  }

  /** The deduplication guard: the appended nodes carry pairwise distinct lower
      bounds that were not used before, each is the node of one of the blocks,
      and together they account for every lower bound the expansion marked. */
  lemma {:induction false} ExpandAddsFreshNodes(blocks: seq<OverlapBlock>, parent: string, s: BfsState)
    ensures var added := Added(blocks, parent, s);
      DistinctLowers(added) &&
      (forall k :: 0 <= k < |added| ==> added[k].interval.lower !in s.used) &&
      FromBlocks(added, blocks, parent) &&
      Expand(blocks, parent, s).used == s.used + Lowers(added)
    decreases |blocks|
  {
    if blocks != [] {
      var init := blocks[..|blocks| - 1];
      var b := blocks[|blocks| - 1];
      assert blocks == init + [b];
      ExpandAddsFreshNodes(init, parent, s);
      var mid := Expand(init, parent, s);
      var before := Added(init, parent, s);
      FromBlocksExtend(before, init, b, parent);
      if b.canonicalInterval.lower !in mid.used {
        var n := NodeOf(b, parent);
        assert Added(blocks, parent, s) == before + [n];
        LowersAppend(before, [n]);
        assert [n][0] == n;
        assert Lowers([n]) == {n.interval.lower};
      }
    }
  }

  /** The nodes a block list contributes when read front to back, as the source
      loop reads it: the first block carrying an unused lower bound gives that
      lower bound's node, and later blocks with the same lower bound are ignored. */
  function FreshNodes(blocks: seq<OverlapBlock>, parent: string, used: set<int>): (r: seq<ClusterNode>)
    ensures |r| <= |blocks|
    decreases |blocks|
  {
    if blocks == [] then []
    else
      var lower := blocks[0].canonicalInterval.lower;
      if lower in used then FreshNodes(blocks[1..], parent, used)
      else [NodeOf(blocks[0], parent)] + FreshNodes(blocks[1..], parent, used + {lower})
  }

  lemma BlockLowersCons(blocks: seq<OverlapBlock>)
    requires blocks != []
    ensures BlockLowers(blocks) == {blocks[0].canonicalInterval.lower} + BlockLowers(blocks[1..])
  {
    forall x | x in BlockLowers(blocks)
      ensures x in {blocks[0].canonicalInterval.lower} + BlockLowers(blocks[1..])
    {
      var j :| 0 <= j < |blocks| && blocks[j].canonicalInterval.lower == x;
      if j > 0 { assert blocks[1..][j - 1] == blocks[j]; }
    }
    forall x | x in BlockLowers(blocks[1..]) ensures x in BlockLowers(blocks) {
      var j :| 0 <= j < |blocks[1..]| && blocks[1..][j].canonicalInterval.lower == x;
      assert blocks[j + 1] == blocks[1..][j];
    }
  }

  /** Reading one more block at the back of the list. */
  lemma {:induction false} FreshNodesSnoc(blocks: seq<OverlapBlock>, b: OverlapBlock, parent: string, used: set<int>)
    ensures FreshNodes(blocks + [b], parent, used) ==
      FreshNodes(blocks, parent, used) +
      (if b.canonicalInterval.lower in used + BlockLowers(blocks) then [] else [NodeOf(b, parent)])
    decreases |blocks|
  {
    if blocks == [] {
      assert [] + [b] == [b] && [b][1..] == [];
      assert BlockLowers([]) == {};
    } else {
      var lower := blocks[0].canonicalInterval.lower;
      var used' := used + {lower};
      assert (blocks + [b])[0] == blocks[0];
      assert (blocks + [b])[1..] == blocks[1..] + [b];
      if lower in used {
        assert used' == used;
      }
      FreshNodesSnoc(blocks[1..], b, parent, used');
      BlockLowersCons(blocks);
    }
  }

  /** The expansion enqueues exactly the front-to-back reading of its block
      list: new nodes follow list order, and a repeated lower bound takes its
      node from the first block that carries it. */
  lemma {:induction false} ExpandIsFirstDiscovery(blocks: seq<OverlapBlock>, parent: string, s: BfsState)
    ensures Added(blocks, parent, s) == FreshNodes(blocks, parent, s.used)
    decreases |blocks|
  {
    if blocks != [] {
      var init := blocks[..|blocks| - 1];
      var b := blocks[|blocks| - 1];
      assert blocks == init + [b];
      ExpandIsFirstDiscovery(init, parent, s);
      FreshNodesSnoc(init, b, parent, s.used);
      if b.canonicalInterval.lower !in s.used + BlockLowers(init) {
        assert Added(blocks, parent, s) == Added(init, parent, s) + [NodeOf(b, parent)];
      }
    } else {
      assert Added(blocks, parent, s) == [];
    }
  }

  /** One non-aborting iteration of run: the front of the frontier moves to the
      back of the output and the overlaps of its sequence are expanded. */
  function Step(ov: Overlapper, minOverlap: int, s: BfsState): (r: BfsState)
    requires s.queue != []
    ensures r.out == s.out + [s.queue[0]]
    ensures |s.queue| - 1 <= |r.queue| && r.queue[..|s.queue| - 1] == s.queue[1..]
    ensures r.out + r.queue == s.out + s.queue + r.queue[|s.queue| - 1..]
    ensures r.used == s.used + BlockLowers(ov.overlapRead(s.queue[0].sequence, minOverlap))
  {
    var node := s.queue[0];
    var r := Expand(ov.overlapRead(node.sequence, minOverlap), node.sequence,
                    BfsState(s.queue[1..], s.out + [node], s.used));
    assert r.queue == s.queue[1..] + r.queue[|s.queue| - 1..];
    r
  }

  /** The whole of run(max) from state `s`. */
  function RunFrom(ov: Overlapper, minOverlap: int, max: nat, s: BfsState): (r: RunResult)
    ensures r.final.queue == []
    ensures s.used <= r.final.used
    ensures r.aborted ==> r.final.out == []
    ensures !r.aborted ==> |s.out + s.queue| <= |r.final.out| && r.final.out[..|s.out + s.queue|] == s.out + s.queue
    ensures !r.aborted && s.queue != [] ==> |r.final.out| <= max
    ensures s.queue == [] ==> r == RunResult(s, false)
    decreases max - |s.out|
  {
    if s.queue == [] then RunResult(s, false)
    else if |s.queue| + |s.out| > max then RunResult(BfsState([], [], s.used), true)
    else
      var next := Step(ov, minOverlap, s);
      var r := RunFrom(ov, minOverlap, max, next);
      assert !r.aborted ==> r.final.out[..|s.out + s.queue|] == (next.out + next.queue)[..|s.out + s.queue|];
      r
  }

  /** The size check: a non-empty frontier that with the output exceeds the
      bound makes run discard both and keep the used set. */
  lemma AbortDiscardsEverything(ov: Overlapper, minOverlap: int, max: nat, s: BfsState)
    requires s.queue != [] && |s.queue| + |s.out| > max
    ensures RunFrom(ov, minOverlap, max, s) == RunResult(BfsState([], [], s.used), true)
  {
  }

  /** A step keeps the search consistent: the node it dequeues keeps its lower
      bound and the nodes it enqueues bring fresh, distinct ones. */
  lemma StepKeepsConsistent(ov: Overlapper, minOverlap: int, s: BfsState)
    requires s.queue != [] && Consistent(s)
    ensures Consistent(Step(ov, minOverlap, s))
  {
    var node := s.queue[0];
    var blocks := ov.overlapRead(node.sequence, minOverlap);
    var start := BfsState(s.queue[1..], s.out + [node], s.used);
    ExpandAddsFreshNodes(blocks, node.sequence, start);
    var added := Added(blocks, node.sequence, start);
    var r := Step(ov, minOverlap, s);
    var all := s.out + s.queue;
    assert r.out + r.queue == all + added;
    LowersAppend(all, added);
    AppendFreshKeepsDistinct(all, added);
  }

  lemma AppendFreshKeepsDistinct(all: seq<ClusterNode>, added: seq<ClusterNode>)
    requires DistinctLowers(all) && DistinctLowers(added)
    requires forall k :: 0 <= k < |added| ==> added[k].interval.lower !in Lowers(all)
    ensures DistinctLowers(all + added)
  {
    forall i, j | 0 <= i < j < |all + added|
      ensures (all + added)[i].interval.lower != (all + added)[j].interval.lower
    {
      if j >= |all| {
        assert (all + added)[j] == added[j - |all|];
        if i >= |all| {
          assert (all + added)[i] == added[i - |all|];
        } else {
          assert (all + added)[i] == all[i];
        }
      }
    }
  }

  lemma LowersAppend(a: seq<ClusterNode>, b: seq<ClusterNode>)
    ensures Lowers(a + b) == Lowers(a) + Lowers(b)
  {
    forall x | x in Lowers(a + b) ensures x in Lowers(a) + Lowers(b) {
      var k :| 0 <= k < |a + b| && (a + b)[k].interval.lower == x;
      if k >= |a| { assert b[k - |a|] == (a + b)[k]; }
    }
    forall x | x in Lowers(a) ensures x in Lowers(a + b) {
      var k :| 0 <= k < |a| && a[k].interval.lower == x;
      assert (a + b)[k] == a[k];
    }
    forall x | x in Lowers(b) ensures x in Lowers(a + b) {
      var k :| 0 <= k < |b| && b[k].interval.lower == x;
      assert (a + b)[|a| + k] == b[k];
    }
  }

  /** Run keeps the search consistent: whatever it outputs has pairwise
      distinct canonical lower bounds (so distinct intervals), and a completed
      run leaves every used lower bound on exactly one output node. */
  lemma {:induction false} RunKeepsConsistent(ov: Overlapper, minOverlap: int, max: nat, s: BfsState)
    requires Consistent(s)
    ensures var r := RunFrom(ov, minOverlap, max, s);
      DistinctLowers(r.final.out) && (!r.aborted ==> Consistent(r.final))
    decreases max - |s.out|
  {
    if s.queue != [] && |s.queue| + |s.out| <= max {
      StepKeepsConsistent(ov, minOverlap, s);
      RunKeepsConsistent(ov, minOverlap, max, Step(ov, minOverlap, s));
    } else if s.queue == [] {
      assert s.out + s.queue == s.out;
    }
  }

  /** Every node a completed run moved to the output had all its overlaps
      introduced: the frontier is exhausted, not cut short. */
  lemma {:induction false} RunExploresNeighbours(ov: Overlapper, minOverlap: int, max: nat, s: BfsState)
    ensures var r := RunFrom(ov, minOverlap, max, s);
      !r.aborted ==> forall k :: |s.out| <= k < |r.final.out| ==> Explored(ov, minOverlap, r.final.out[k], r.final.used)
    decreases max - |s.out|
  {
    if s.queue != [] && |s.queue| + |s.out| <= max {
      var next := Step(ov, minOverlap, s);
      RunExploresNeighbours(ov, minOverlap, max, next);
      var r := RunFrom(ov, minOverlap, max, next);
      if !r.aborted {
        assert r.final.out[|s.out|] == next.out[|s.out|] == s.queue[0];
        assert Explored(ov, minOverlap, s.queue[0], r.final.used);
      }
    }
  }

  /** Node `k` of `ns` was discovered from an earlier node: it is the node of
      one of that node's overlaps. */
  predicate Derived(ov: Overlapper, minOverlap: int, ns: seq<ClusterNode>, k: nat)
    requires k < |ns|
  {
    exists p :: 0 <= p < k && NodeOfSome(ns[k], ov.overlapRead(ns[p].sequence, minOverlap), ns[p].sequence)
  }

  /** Every node of `ns` from position `base` on was discovered from an earlier one. */
  predicate DerivedFrom(ov: Overlapper, minOverlap: int, ns: seq<ClusterNode>, base: nat)
  {
    forall k :: base <= k < |ns| ==> Derived(ov, minOverlap, ns, k)
  }

  /** Discoveries stay discoveries when nodes are appended. */
  lemma DerivedPrefix(ov: Overlapper, minOverlap: int, all: seq<ClusterNode>, ns: seq<ClusterNode>, k: nat)
    requires k < |all| <= |ns| && all == ns[..|all|] && Derived(ov, minOverlap, all, k)
    ensures Derived(ov, minOverlap, ns, k)
  {
    var p :| 0 <= p < k && NodeOfSome(all[k], ov.overlapRead(all[p].sequence, minOverlap), all[p].sequence);
    assert ns[p] == all[p] && ns[k] == all[k];
  }

  /** Appending nodes discovered from node `parent` of a list keeps every
      discovery a discovery. */
  lemma AppendDerived(ov: Overlapper, minOverlap: int, all: seq<ClusterNode>, added: seq<ClusterNode>,
                      parent: nat, base: nat)
    requires parent < |all| && DerivedFrom(ov, minOverlap, all, base)
    requires FromBlocks(added, ov.overlapRead(all[parent].sequence, minOverlap), all[parent].sequence)
    ensures DerivedFrom(ov, minOverlap, all + added, base)
  {
    var ns := all + added;
    forall k | base <= k < |ns| ensures Derived(ov, minOverlap, ns, k) {
      if k < |all| {
        DerivedPrefix(ov, minOverlap, all, ns, k);
      } else {
        assert ns[k] == added[k - |all|] && ns[parent] == all[parent];
      }
    }
  }

  /** A step appends only nodes discovered from the node it dequeues. */
  lemma StepKeepsDerived(ov: Overlapper, minOverlap: int, s: BfsState, base: nat)
    requires s.queue != [] && DerivedFrom(ov, minOverlap, s.out + s.queue, base)
    ensures var r := Step(ov, minOverlap, s);
      DerivedFrom(ov, minOverlap, r.out + r.queue, base)
  {
    var node := s.queue[0];
    var start := BfsState(s.queue[1..], s.out + [node], s.used);
    ExpandAddsFreshNodes(ov.overlapRead(node.sequence, minOverlap), node.sequence, start);
    var r := Step(ov, minOverlap, s);
    var all := s.out + s.queue;
    assert all[|s.out|] == node;
    AppendDerived(ov, minOverlap, all, r.queue[|s.queue| - 1..], |s.out|, base);
  }

  /** Whatever a completed run appends to output and frontier was discovered
      from an earlier node. */
  lemma {:induction false} RunOutputIsDerived(ov: Overlapper, minOverlap: int, max: nat, s: BfsState, base: nat)
    requires DerivedFrom(ov, minOverlap, s.out + s.queue, base)
    ensures var r := RunFrom(ov, minOverlap, max, s);
      !r.aborted ==> DerivedFrom(ov, minOverlap, r.final.out, base)
    decreases max - |s.out|
  {
    if s.queue == [] {
      assert s.out + s.queue == s.out;
    } else if |s.queue| + |s.out| <= max {
      StepKeepsDerived(ov, minOverlap, s, base);
      RunOutputIsDerived(ov, minOverlap, max, Step(ov, minOverlap, s), base);
    }
  }

  /** A run started with only seeds in the frontier that completes outputs the
      reachable cluster: the seeds first, then only nodes discovered as overlaps
      of earlier output nodes; every overlap of every output node is itself an
      output node (identified by canonical lower bound), and nothing else was
      marked. */
  lemma CompletedRunIsClosed(ov: Overlapper, minOverlap: int, max: nat, s: BfsState)
    requires s.out == [] && Consistent(s)
    ensures var r := RunFrom(ov, minOverlap, max, s);
      !r.aborted ==>
        r.final.out[..|s.queue|] == s.queue &&
        DerivedFrom(ov, minOverlap, r.final.out, |s.queue|) &&
        r.final.used == Lowers(r.final.out) &&
        forall k :: 0 <= k < |r.final.out| ==> Explored(ov, minOverlap, r.final.out[k], Lowers(r.final.out))
  {
    RunKeepsConsistent(ov, minOverlap, max, s);
    RunExploresNeighbours(ov, minOverlap, max, s);
    assert s.out + s.queue == s.queue;
    RunOutputIsDerived(ov, minOverlap, max, s, |s.queue|);
    var r := RunFrom(ov, minOverlap, max, s);
    if !r.aborted {
      assert r.final.out + r.final.queue == r.final.out;
    }
  }
}
