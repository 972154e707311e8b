/** Values shared by the cluster-growing algorithm: index intervals, cluster
    nodes, overlap blocks and the overlap engine the algorithm queries. */
module ClusterTypes {

  /** A range [lower, upper] of the FM-index; 64-bit positions in the source. */
  datatype Interval = Interval(lower: int, upper: int) {
    /** An interval is valid when it is non-empty. */
    predicate IsValid() { lower <= upper }
  }

  /** The interval a lenient-mode substring seed is reported with. */
  const InvalidInterval := Interval(0, -1)

  /** One read of a cluster: its sequence, the canonical interval that identifies
      it in the index and whether it was reached in reverse orientation. */
  datatype ClusterNode = ClusterNode(sequence: string, interval: Interval, isReverseInterval: bool)

  /** The node a skipped seed is answered with. Only its invalid interval is set
      by the source; its sequence and orientation come from a default
      constructor that is not part of this model. */
  const SentinelNode := ClusterNode("", InvalidInterval, false)

  /** Order on nodes used for the output pass: lexicographic on (lower, upper). */
  predicate Less(a: ClusterNode, b: ClusterNode) {
    a.interval.lower < b.interval.lower ||
    (a.interval.lower == b.interval.lower && a.interval.upper < b.interval.upper)
  }

  /** Equality used for the output pass: two nodes are the same read when their
      intervals are equal, whatever their sequence or orientation. */
  predicate Same(a: ClusterNode, b: ClusterNode) {
    a.interval == b.interval
  }

  /** `Less` is a strict weak order whose incomparable nodes are exactly the
      nodes with equal intervals, as sort and unique together require. */
  lemma LessIsStrictWeakOrder(a: ClusterNode, b: ClusterNode, c: ClusterNode)
    ensures !Less(a, a)
    ensures Less(a, b) ==> !Less(b, a)
    ensures Less(a, b) && Less(b, c) ==> Less(a, c)
    ensures !Less(a, b) && !Less(b, a) <==> Same(a, b)
  {
  }

  /** One overlap found by the overlap engine: the canonical interval of the
      other read, whether that read matched reverse-complemented, and how the
      other read's full string is obtained from the queried sequence. */
  datatype OverlapBlock = OverlapBlock(
    canonicalInterval: Interval,
    isTargetRev: bool,
    fullString: string -> string)

  /** The overlap engine and FM-index queries, as uninterpreted functions. */
  datatype Overlapper = Overlapper(
    isSubstring: string -> bool,                      // alignReadDuplicate(..).isSubstring
    findInterval: string -> Interval,                 // BWTAlgorithms::findInterval
    updateInterval: (Interval, char) -> Interval,     // BWTAlgorithms::updateInterval
    overlapRead: (string, int) -> seq<OverlapBlock>)  // overlapRead(seq, minOverlap)

  /** The end-of-sequence symbol of the index. */
  const Terminator: char := '$'

  /** Why a seed is fatal in strict mode (the source prints and exits). */
  datatype SeedError = SeedIsSubstring | SeedNotInIndex

  datatype Result<T> = Ok(value: T) | Fatal(error: SeedError)

  /** The node a block adds to the frontier when discovered from `parent`. */
  function NodeOf(b: OverlapBlock, parent: string): ClusterNode
  {
    ClusterNode(b.fullString(parent), b.canonicalInterval, b.isTargetRev)
  }
}
