/** A worked instance of the search: reads A, B, C, D where A overlaps B by 40
    bases, B overlaps C by 35 and C overlaps D by 10. With a minimum overlap of
    30, seeding A reaches A, B and C; D's only link is too short. */
module ClusterExample {
  import opened ClusterTypes
  import opened ClusterSearch
  import ClusterOutput

  function Read(name: string, rank: int): ClusterNode
  {
    ClusterNode(name, Interval(rank, rank), false)
  }

  /** An overlap with read `name`, kept only when at least `minOverlap` long. */
  function LinkTo(name: string, rank: int, length: int, minOverlap: int): seq<OverlapBlock>
  {
    if length >= minOverlap then [OverlapBlock(Interval(rank, rank), false, _ => name)] else []
  }

  function ChainOverlaps(s: string, minOverlap: int): seq<OverlapBlock>
  {
    if s == "A" then LinkTo("B", 1, 40, minOverlap)
    else if s == "B" then LinkTo("A", 0, 40, minOverlap) + LinkTo("C", 2, 35, minOverlap)
    else if s == "C" then LinkTo("B", 1, 35, minOverlap) + LinkTo("D", 3, 10, minOverlap)
    else if s == "D" then LinkTo("C", 2, 10, minOverlap)
    else []
  }

  const Chain := Overlapper(_ => false, s => Interval(0, 0), (iv, c) => iv, ChainOverlaps)

  const Seeded := BfsState([Read("A", 0)], [], {0})

  lemma ExpandSingle(b: OverlapBlock, parent: string, s: BfsState)
    ensures Expand([b], parent, s) == VisitBlock(b, parent, s)
  {
    assert [b][..0] == [];
  }

  lemma ExpandPair(b1: OverlapBlock, b2: OverlapBlock, parent: string, s: BfsState)
    ensures Expand([b1, b2], parent, s) == VisitBlock(b2, parent, VisitBlock(b1, parent, s))
  {
    assert [b1, b2][..1] == [b1];
    ExpandSingle(b1, parent, s);
  }

  /** The first iteration moves A to the output and enqueues B. */
  lemma FirstStep()
    ensures Step(Chain, 30, Seeded) == BfsState([Read("B", 1)], [Read("A", 0)], {0, 1})
  {
    var toB := LinkTo("B", 1, 40, 30);
    assert Chain.overlapRead("A", 30) == ChainOverlaps("A", 30) == toB == [toB[0]];
    ExpandSingle(toB[0], "A", BfsState([], [Read("A", 0)], {0}));
    assert toB[0].fullString("A") == "B";
  }

  /** The second iteration moves B to the output, skips A and enqueues C. */
  lemma SecondStep()
    ensures Step(Chain, 30, Step(Chain, 30, Seeded)) ==
            BfsState([Read("C", 2)], [Read("A", 0), Read("B", 1)], {0, 1, 2})
  {
    FirstStep();
    var toA := LinkTo("A", 0, 40, 30);
    var toC := LinkTo("C", 2, 35, 30);
    assert Chain.overlapRead("B", 30) == ChainOverlaps("B", 30) == toA + toC == [toA[0], toC[0]];
    var start := BfsState([], [Read("A", 0), Read("B", 1)], {0, 1});
    var s1 := Step(Chain, 30, Seeded);
    assert s1.queue[1..] == [] && s1.out + [s1.queue[0]] == start.out;
    ExpandPair(toA[0], toC[0], "B", start);
    assert VisitBlock(toA[0], "B", start) == start;
    assert toC[0].fullString("B") == "C";
    assert VisitBlock(toC[0], "B", start) == BfsState([Read("C", 2)], start.out, {0, 1, 2});
  }

  /** With room for ten nodes the cluster is {A, B, C}, in discovery order. */
  lemma ChainClusterCompletes()
    ensures RunFrom(Chain, 30, 10, Seeded) ==
            RunResult(BfsState([], [Read("A", 0), Read("B", 1), Read("C", 2)], {0, 1, 2}), false)
  {
    SecondStep();
    var s2 := Step(Chain, 30, Step(Chain, 30, Seeded));
    var toB := LinkTo("B", 1, 35, 30);
    var toD := LinkTo("D", 3, 10, 30);
    assert toD == [];
    assert Chain.overlapRead("C", 30) == ChainOverlaps("C", 30) == toB + toD == [toB[0]];
    ExpandSingle(toB[0], "C", BfsState([], [Read("A", 0), Read("B", 1), Read("C", 2)], {0, 1, 2}));
    var s3 := Step(Chain, 30, s2);
    assert s3 == BfsState([], [Read("A", 0), Read("B", 1), Read("C", 2)], {0, 1, 2});
  }

  /** With room for two nodes the same seed aborts and yields nothing. */
  lemma ChainClusterAborts()
    ensures RunFrom(Chain, 30, 2, Seeded) == RunResult(BfsState([], [], {0, 1, 2}), true)
  {
    SecondStep();
  }

  /** Seed A added twice: addSeed does not consult the used set, so A is twice
      in the frontier while its lower bound is marked once. */
  const SeededTwice := BfsState([Read("A", 0), Read("A", 0)], [], {0})

  /** With a minimum overlap of 50 no link of the chain is kept. A seed added
      twice is then output twice: the repeated interval comes from the seeds,
      not from a cycle, which the used set guards against. */
  lemma RepeatedSeedIsDuplicated()
    ensures RunFrom(Chain, 50, 10, SeededTwice) ==
            RunResult(BfsState([], [Read("A", 0), Read("A", 0)], {0}), false)
    ensures !DistinctLowers(RunFrom(Chain, 50, 10, SeededTwice).final.out)
  {
    var twice := BfsState([], [Read("A", 0), Read("A", 0)], {0});
    RepeatedSeedSteps();
    assert twice.out[0].interval.lower == twice.out[1].interval.lower;
  }

  /** Both iterations only move a copy of A: the chain keeps no overlap of 50. */
  lemma RepeatedSeedSteps()
    ensures Step(Chain, 50, SeededTwice) == BfsState([Read("A", 0)], [Read("A", 0)], {0})
    ensures Step(Chain, 50, BfsState([Read("A", 0)], [Read("A", 0)], {0})) ==
            BfsState([], [Read("A", 0), Read("A", 0)], {0})
  {
    assert Chain.overlapRead("A", 50) == ChainOverlaps("A", 50) == [];
  }

  /** Names the first two nodes of `r` outside any branch, so that the proof
      below sees that a second copy of A would contradict strict sorting
      without indexing `r` where that case is already impossible. */
  lemma FirstTwo(r: seq<ClusterNode>)
    ensures |r| >= 2 ==> r[0] in r && r[1] in r
  {
  }

  /** The output pass turns that accumulator into the single node A. */
  lemma OutputPassDropsRepeatedSeed(r: seq<ClusterNode>)
    requires ClusterOutput.IsSortedUnique(r, [Read("A", 0), Read("A", 0)])
    ensures r == [Read("A", 0)]
  {
    var a := Read("A", 0);
    assert forall x :: x in r ==> x == a;
    FirstTwo(r);
    var out := [a, a];
    assert ClusterOutput.Covers(r, out) && out[0] == a;
    var j :| 0 <= j < |r| && Same(r[j], out[0]);
    assert r[0] in r;
  }

  /** Read B seeded again after the run of ChainClusterCompletes: its lower
      bound is already used, but addSeed enqueues it all the same. */
  const Reseeded := BfsState([Read("B", 1)], [Read("A", 0), Read("B", 1), Read("C", 2)], {0, 1, 2})

  /** A read an earlier run reached, seeded once, is output a second time: its
      overlaps are all used, so the run only moves it to the output. */
  lemma ReseededReadIsDuplicated()
    ensures RunFrom(Chain, 30, 10, Reseeded) ==
            RunResult(BfsState([], [Read("A", 0), Read("B", 1), Read("C", 2), Read("B", 1)], {0, 1, 2}), false)
    ensures !DistinctLowers(RunFrom(Chain, 30, 10, Reseeded).final.out)
  {
    var toA := LinkTo("A", 0, 40, 30);
    var toC := LinkTo("C", 2, 35, 30);
    assert Chain.overlapRead("B", 30) == ChainOverlaps("B", 30) == toA + toC == [toA[0], toC[0]];
    var done := BfsState([], [Read("A", 0), Read("B", 1), Read("C", 2), Read("B", 1)], {0, 1, 2});
    assert Reseeded.queue[0].sequence == "B";
    assert Reseeded.queue[1..] == [] && Reseeded.out + [Reseeded.queue[0]] == done.out;
    ExpandPair(toA[0], toC[0], "B", done);
    assert VisitBlock(toA[0], "B", done) == done && VisitBlock(toC[0], "B", done) == done;
    assert Step(Chain, 30, Reseeded) == done;
    assert done.out[1].interval.lower == done.out[3].interval.lower;
  }
}
