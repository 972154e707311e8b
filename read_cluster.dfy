/** The ReadCluster object: a frontier queue, an output accumulator and a set of
    used canonical lower bounds, grown by addSeed and run and read by getOutput. */
module ReadClusterModel {
  import opened ClusterTypes
  import opened ClusterSearch
  import ClusterOutput

  /** The canonical whole-sequence interval of a seed: the exact-match interval
      narrowed by the end-of-sequence symbol. */
  function SeedInterval(ov: Overlapper, sequence: string): Interval
  {
    ov.updateInterval(ov.findInterval(sequence), Terminator)
  }

  /** Adding a fresh seed to a consistent search keeps it consistent. */
  lemma SeedKeepsConsistent(s: BfsState, n: ClusterNode)
    requires Consistent(s) && n.interval.lower !in s.used
    ensures Consistent(BfsState(s.queue + [n], s.out, s.used + {n.interval.lower}))
  {
    var all := s.out + s.queue;
    assert s.out + (s.queue + [n]) == all + [n];
    assert [n][0] == n;
    LowersAppend(all, [n]);
    assert Lowers([n]) == {n.interval.lower};
    AppendFreshKeepsDistinct(all, [n]);
  }

  class ReadCluster {
    const overlapper: Overlapper
    const minOverlap: int
    var queue: seq<ClusterNode>
    var outCluster: seq<ClusterNode>
    var usedIndex: set<int>

    /** The object's fields as one value. */
    function State(): BfsState
      reads this
    {
      BfsState(queue, outCluster, usedIndex)
    }

    constructor (overlapper: Overlapper, minOverlap: int)
      ensures this.overlapper == overlapper && this.minOverlap == minOverlap
      ensures queue == [] && outCluster == [] && usedIndex == {}
      ensures Consistent(State())
    {
      this.overlapper := overlapper;
      this.minOverlap := minOverlap;
      queue, outCluster, usedIndex := [], [], {};
      assert Lowers([]) == {};
    }

    /** Checks a seed and enqueues it. A substring seed is fatal in strict mode
        and skipped with the sentinel node in lenient mode; in strict mode a seed
        whose interval is invalid is fatal too. Otherwise the seed node goes to
        the back of the frontier and its lower bound is marked used. */
    method AddSeed(sequence: string, checkInIndex: bool) returns (r: Result<ClusterNode>)
      modifies this
      ensures r.Fatal? <==>
        checkInIndex && (overlapper.isSubstring(sequence) || !SeedInterval(overlapper, sequence).IsValid())
      ensures r == Fatal(SeedIsSubstring) <==> checkInIndex && overlapper.isSubstring(sequence)
      ensures overlapper.isSubstring(sequence) ==> State() == old(State())
      ensures overlapper.isSubstring(sequence) && !checkInIndex ==> r.Ok? && r.value.interval == InvalidInterval
      ensures r.Fatal? ==> State() == old(State())
      ensures !overlapper.isSubstring(sequence) && r.Ok? ==>
        && r.value == ClusterNode(sequence, SeedInterval(overlapper, sequence), false)
        && queue == old(queue) + [r.value]
        && usedIndex == old(usedIndex) + {r.value.interval.lower}
        && outCluster == old(outCluster)
      ensures old(Consistent(State())) && r.Ok? && r.value.interval.lower !in old(usedIndex) ==>
        Consistent(State())
    {
      if overlapper.isSubstring(sequence) {
        if checkInIndex {
          return Fatal(SeedIsSubstring);
        } else {
          return Ok(SentinelNode);
        }
      }
      var readInterval := overlapper.findInterval(sequence);
      readInterval := overlapper.updateInterval(readInterval, Terminator);
      if checkInIndex && !readInterval.IsValid() {
        return Fatal(SeedNotInIndex);
      }
      var node := ClusterNode(sequence, readInterval, false);
      ghost var before := State();
      usedIndex := usedIndex + {readInterval.lower};
      queue := queue + [node];
      if Consistent(before) && readInterval.lower !in before.used {
        SeedKeepsConsistent(before, node);
      }
      r := Ok(node);
    }

    /** Drains the frontier breadth first. Whenever the frontier and the output
        together exceed `max` nodes, both are discarded and run returns. */
    method Run(max: nat)
      modifies this
      ensures State() == RunFrom(overlapper, minOverlap, max, old(State())).final
      ensures queue == [] && old(usedIndex) <= usedIndex
      ensures old(Consistent(State())) ==> DistinctLowers(outCluster)
    {
      ghost var initial := State();
      while queue != []
        invariant RunFrom(overlapper, minOverlap, max, State()) == RunFrom(overlapper, minOverlap, max, initial)
        decreases max - |outCluster|
      {
        if |queue| + |outCluster| > max {
          ClearQueue();
          outCluster := [];
          break;
        }
        ghost var iteration := State();
        var node := queue[0];
        queue := queue[1..];
        outCluster := outCluster + [node];
        VisitOverlaps(overlapper.overlapRead(node.sequence, minOverlap), node.sequence);
        assert State() == Step(overlapper, minOverlap, iteration);
      }
      if Consistent(initial) {
        RunKeepsConsistent(overlapper, minOverlap, max, initial);
      }
    }

    /** Pops the frontier until it is empty (the abort path of run). */
    method ClearQueue()
      modifies this
      ensures queue == [] && outCluster == old(outCluster) && usedIndex == old(usedIndex)
    {
      while queue != []
        invariant outCluster == old(outCluster) && usedIndex == old(usedIndex)
        decreases |queue|
      {
        queue := queue[1..];
      }
    }

    /** The inner loop of run over the overlaps of the dequeued node: each block
        whose canonical lower bound is unused marks it and enqueues its node. */
    method VisitOverlaps(blocks: seq<OverlapBlock>, parent: string)
      modifies this
      ensures State() == Expand(blocks, parent, old(State()))
    {
      var i := 0;
      while i < |blocks|
        invariant 0 <= i <= |blocks|
        invariant State() == Expand(blocks[..i], parent, old(State()))
      {
        var canonicalInterval := blocks[i].canonicalInterval;
        var canonicalIndex := canonicalInterval.lower;
        if canonicalIndex !in usedIndex {
          usedIndex := usedIndex + {canonicalIndex};
          var newNode := ClusterNode(blocks[i].fullString(parent), canonicalInterval, blocks[i].isTargetRev);
          queue := queue + [newNode];
        }
        assert blocks[..i + 1][..i] == blocks[..i];
        i := i + 1;
      }
      assert blocks[..i] == blocks;
    }

    /** A sorted, duplicate-free copy of the output; the object is unchanged. */
    method GetOutput() returns (r: seq<ClusterNode>)
      ensures ClusterOutput.IsSortedUnique(r, outCluster)
    {
      r := ClusterOutput.SortUnique(outCluster);
    }
  }
}
