/**
  The top-down overlap query of `iit_base`: `scan` from a subtree root, and
  `overlap`, which scans from the tree's root. The result is the list of ranks
  whose items overlap the query, in the order the scan reports them, together
  with the scan's cost (the number of nodes it visits).
 */
module TreeScan {
  import opened Arith
  import opened Options
  import opened Geometry
  import opened Intervals
  import opened ImplicitTree

  /** What a scan reports: the ranks of the items it found, in the order found,
      and the number of nodes it visited. */
  datatype ScanResult = ScanResult(hits: seq<nat>, cost: nat)

  /** The arrays and geometry agree in size; nothing is assumed about contents. */
  ghost predicate Shaped(t: Tree)
  {
    && GeometryFits(|t.items|, t.rootLevel, t.fullSize, t.root)
    && |t.ime| == |t.items|
  }

  /** The ranks of the full tree of height rootLevel: 2^(rootLevel+1) - 1 of them.
      For a non-empty array this is the constructor's `full_size`. */
  function TreeSpan(t: Tree): (s: nat)
    ensures s >= 1
    ensures Shaped(t) && |t.items| > 0 ==> s == t.fullSize
  {
    Pow2(t.rootLevel + 1) - 1
  }

  /** The unrolled loop `scan` uses at levels 0 to 2: ranks r, r + 1, ... up to
      last, stopping at the first item that begins at or after qend. Returns the
      hits and the rank at which the loop stopped. */
  function LeafScan(items: seq<Interval>, r: nat, last: nat, qbeg: int, qend: int): (res: (seq<nat>, nat))
    requires r <= last + 1 && last < |items|
    ensures r <= res.1 <= last + 1
    ensures |res.0| <= res.1 - r
    ensures forall i :: r <= i < res.1 ==> items[i].beg < qend
    ensures res.1 <= last ==> items[res.1].beg >= qend
    decreases last + 1 - r
  {
    if r > last then ([], r)
    else if items[r].beg >= qend then ([], r)
    else
      var rest := LeafScan(items, r + 1, last, qbeg, qend);
      ((if items[r].end > qbeg then [r] else []) + rest.0, rest.1)
  }

  /** `iit_base::scan` of the subtree rooted at n on level k. An imaginary node is
      passed through to its left child; at level 2 and below the subtree's real
      ranks are scanned in order; above that, a subtree whose `inside_max_end` does
      not reach past qbeg is pruned, and the right subtree is skipped once the
      node begins at or after qend. The cost never exceeds the subtree's size and
      is at least the number of hits. */
  function Scan(t: Tree, n: nat, k: nat, qbeg: int, qend: int): (res: ScanResult)
    requires Shaped(t)
    requires k == Level(n) && n < TreeSpan(t)
    ensures |res.hits| <= res.cost
    ensures res.cost <= RightmostLeaf(n, k) + 1 - LeftmostLeaf(n, k)
    decreases k
  {
    if n >= |t.items| then
      if k > 0 then
        ChildrenOfNode(n, k);
        var sub := Scan(t, Left(n, k).value, k - 1, qbeg, qend);
        ScanResult(sub.hits, 1 + sub.cost)
      else
        ScanResult([], 1)
    else if k <= 2 then
      var lml := LeftmostLeaf(n, k);
      var last := Min(RightmostLeaf(n, k), |t.items| - 1);
      var leaf := LeafScan(t.items, lml, last, qbeg, qend);
      ScanResult(leaf.0, leaf.1 - lml)
    else if t.ime[n] > qbeg then
      InTree(n, t.rootLevel);
      ChildrenOfNode(n, k);
      var left := Scan(t, Left(n, k).value, k - 1, qbeg, qend);
      if t.items[n].beg < qend then
        var here: seq<nat> := if t.items[n].end > qbeg then [n] else [];
        var right := Scan(t, Right(n, k).value, k - 1, qbeg, qend);
        ScanResult(left.hits + here + right.hits, 1 + left.cost + right.cost)
      else
        ScanResult(left.hits, 1 + left.cost)
    else
      ScanResult([], 1)
  }

  /** `iit_base::overlap`: scan the whole tree from its root. */
  function Overlap(t: Tree, qbeg: int, qend: int): (res: ScanResult)
    requires Shaped(t)
    ensures |res.hits| <= res.cost <= TreeSpan(t)
  {
    RootShape(t.rootLevel, t.root);
    Scan(t, t.root, t.rootLevel, qbeg, qend)
  }

  // ---------------------------------------------------------------------------
  // Correctness

  /** The unrolled loop reports exactly the overlapping ranks of [r, last], in
      order: stopping early loses nothing because the items are in beg order. */
  lemma {:induction false} LeafScanMatches(items: seq<Interval>, r: nat, last: nat, qbeg: int, qend: int)
    requires SortedByBeg(items)
    requires r <= last + 1 && last < |items|
    ensures LeafScan(items, r, last, qbeg, qend).0 == Matches(items, r, last + 1, qbeg, qend)
    decreases last + 1 - r
  {
    if r <= last {
      if items[r].beg >= qend {
        MatchesPastQuery(items, r, last + 1, qbeg, qend);
      } else {
        LeafScanMatches(items, r + 1, last, qbeg, qend);
      }
    }
  }

  /** An imaginary subtree's matches all lie under its left child. */
  lemma ImaginaryMatches(items: seq<Interval>, n: nat, k: nat, qbeg: int, qend: int)
    requires k == Level(n) && k > 0 && n >= |items|
    ensures Left(n, k).Some? && Level(Left(n, k).value) == k - 1
    ensures Matches(items, LeftmostLeaf(n, k), RightmostLeaf(n, k) + 1, qbeg, qend) ==
      Matches(items, LeftmostLeaf(Left(n, k).value, k - 1), RightmostLeaf(Left(n, k).value, k - 1) + 1, qbeg, qend)
  {
    ChildrenOfNode(n, k);
    MatchesSplit(items, LeftmostLeaf(n, k), n, RightmostLeaf(n, k) + 1, qbeg, qend);
    MatchesBeyond(items, n, RightmostLeaf(n, k) + 1, qbeg, qend);
  }

  /** A subtree's matches are its left child's, the node's own, and its right
      child's, in that order. */
  lemma InnerMatches(items: seq<Interval>, n: nat, k: nat, qbeg: int, qend: int)
    requires k == Level(n) && k > 0 && n < |items|
    ensures Left(n, k).Some? && Level(Left(n, k).value) == k - 1
    ensures Right(n, k).Some? && Level(Right(n, k).value) == k - 1
    ensures Matches(items, LeftmostLeaf(n, k), RightmostLeaf(n, k) + 1, qbeg, qend) ==
      Matches(items, LeftmostLeaf(Left(n, k).value, k - 1), RightmostLeaf(Left(n, k).value, k - 1) + 1, qbeg, qend)
      + (if Overlaps(items[n], qbeg, qend) then [n] else [])
      + Matches(items, LeftmostLeaf(Right(n, k).value, k - 1), RightmostLeaf(Right(n, k).value, k - 1) + 1, qbeg, qend)
  {
    ChildrenOfNode(n, k);
    MatchesAround(items, LeftmostLeaf(n, k), n, RightmostLeaf(n, k) + 1, qbeg, qend);
  }

  /** Once the subtree root begins at or after qend, only its left child can match. */
  lemma PastQueryMatches(items: seq<Interval>, n: nat, k: nat, qbeg: int, qend: int)
    requires SortedByBeg(items)
    requires k == Level(n) && k > 0 && n < |items| && items[n].beg >= qend
    ensures Left(n, k).Some? && Level(Left(n, k).value) == k - 1
    ensures Matches(items, LeftmostLeaf(n, k), RightmostLeaf(n, k) + 1, qbeg, qend) ==
      Matches(items, LeftmostLeaf(Left(n, k).value, k - 1), RightmostLeaf(Left(n, k).value, k - 1) + 1, qbeg, qend)
  {
    ChildrenOfNode(n, k);
    MatchesSplit(items, LeftmostLeaf(n, k), n, RightmostLeaf(n, k) + 1, qbeg, qend);
    MatchesPastQuery(items, n, RightmostLeaf(n, k) + 1, qbeg, qend);
  }

  /** Scanning n's subtree reports exactly the overlapping real ranks of its leaf
      range, in ascending order. */
  ghost predicate ScanAgrees(t: Tree, n: nat, k: nat, qbeg: int, qend: int)
    requires Shaped(t) && k == Level(n) && n < TreeSpan(t)
  {
    Scan(t, n, k, qbeg, qend).hits == Matches(t.items, LeftmostLeaf(n, k), RightmostLeaf(n, k) + 1, qbeg, qend)
  }

  /** A subtree whose `inside_max_end` does not reach past qbeg is pruned, and
      indeed matches nothing. */
  lemma PrunedCase(t: Tree, n: nat, k: nat, qbeg: int, qend: int)
    requires Valid(t) && k == Level(n) && n < |t.items| && k > 2 && t.ime[n] <= qbeg
    ensures n < TreeSpan(t) && ScanAgrees(t, n, k, qbeg, qend)
  {
    RealInTree(|t.items|, t.rootLevel, t.fullSize, t.root, n);
    InsideMaxEndIsSubtreeMax(t, n);
    MatchesNone(t.items, LeftmostLeaf(n, k), RightmostLeaf(n, k) + 1, qbeg, qend);
  }

  /** At level 2 and below, the unrolled loop covers the subtree's real ranks. */
  lemma LeafCase(t: Tree, n: nat, k: nat, qbeg: int, qend: int)
    requires Shaped(t) && SortedByBeg(t.items)
    requires k == Level(n) && n < |t.items| && k <= 2 && n < TreeSpan(t)
    ensures ScanAgrees(t, n, k, qbeg, qend)
  {
    ScanLow(t, n, k, qbeg, qend);
    LeafRangeMatches(t.items, LeftmostLeaf(n, k), RightmostLeaf(n, k), qbeg, qend);
  }

  /** The low-level loop over ranks lo to hi, cut off at the end of the array,
      reports the overlapping items of that range. */
  lemma LeafRangeMatches(items: seq<Interval>, lo: nat, hi: nat, qbeg: int, qend: int)
    requires SortedByBeg(items) && |items| > 0
    requires lo <= hi && lo <= Min(hi, |items| - 1) + 1
    ensures LeafScan(items, lo, Min(hi, |items| - 1), qbeg, qend).0 == Matches(items, lo, hi + 1, qbeg, qend)
  {
    var last := Min(hi, |items| - 1);
    LeafScanMatches(items, lo, last, qbeg, qend);
    MatchesClip(items, lo, hi + 1, qbeg, qend);
    assert Min(hi + 1, |items|) == last + 1;
  }

  /** At level 2 and below, a real node's scan is the unrolled loop over its
      subtree's real ranks. */
  lemma ScanLow(t: Tree, n: nat, k: nat, qbeg: int, qend: int)
    requires Shaped(t) && k == Level(n) && n < |t.items| && k <= 2 && n < TreeSpan(t)
    ensures LeftmostLeaf(n, k) <= Min(RightmostLeaf(n, k), |t.items| - 1) + 1
    ensures Scan(t, n, k, qbeg, qend).hits ==
      LeafScan(t.items, LeftmostLeaf(n, k), Min(RightmostLeaf(n, k), |t.items| - 1), qbeg, qend).0
  {
  }

  /** An imaginary node, or a real one above level 2 that is not pruned but
      begins at or after qend, reports its left subtree's hits and nothing else. */
  lemma ScanLeftOnly(t: Tree, n: nat, k: nat, qbeg: int, qend: int)
    requires Shaped(t) && k == Level(n) && n < TreeSpan(t) && k > 0
    requires n >= |t.items| || (k > 2 && t.ime[n] > qbeg && t.items[n].beg >= qend)
    ensures Left(n, k).Some? && Level(Left(n, k).value) == k - 1 && Left(n, k).value < TreeSpan(t)
    ensures Scan(t, n, k, qbeg, qend).hits == Scan(t, Left(n, k).value, k - 1, qbeg, qend).hits
  {
    InTree(n, t.rootLevel);
    ChildrenOfNode(n, k);
  }

  /** Above level 2, a real node that is neither pruned nor past the query reports
      its left subtree's hits, then itself if it overlaps, then its right
      subtree's. */
  lemma ScanInner(t: Tree, n: nat, k: nat, qbeg: int, qend: int)
    requires Shaped(t) && k == Level(n) && n < |t.items| && k > 2
    requires t.ime[n] > qbeg && t.items[n].beg < qend
    ensures Left(n, k).Some? && Level(Left(n, k).value) == k - 1 && Left(n, k).value < TreeSpan(t)
    ensures Right(n, k).Some? && Level(Right(n, k).value) == k - 1 && Right(n, k).value < TreeSpan(t)
    ensures Scan(t, n, k, qbeg, qend).hits ==
      Scan(t, Left(n, k).value, k - 1, qbeg, qend).hits
      + (if Overlaps(t.items[n], qbeg, qend) then [n] else [])
      + Scan(t, Right(n, k).value, k - 1, qbeg, qend).hits
  {
    InTree(n, t.rootLevel);
    ChildrenOfNode(n, k);
  }

  /** An imaginary node agrees with the brute force once its left child does. */
  lemma ImaginaryJoin(t: Tree, n: nat, k: nat, qbeg: int, qend: int)
    requires Shaped(t) && k == Level(n) && n < TreeSpan(t) && n >= |t.items| && k > 0
    requires Left(n, k).Some? && Level(Left(n, k).value) == k - 1 && Left(n, k).value < TreeSpan(t)
    requires ScanAgrees(t, Left(n, k).value, k - 1, qbeg, qend)
    ensures ScanAgrees(t, n, k, qbeg, qend)
  {
    var l := Left(n, k).value;
    var sl := Scan(t, l, k - 1, qbeg, qend).hits;
    var ml := Matches(t.items, LeftmostLeaf(l, k - 1), RightmostLeaf(l, k - 1) + 1, qbeg, qend);
    assert sl == ml;
    ScanLeftOnly(t, n, k, qbeg, qend);
    assert Scan(t, n, k, qbeg, qend).hits == sl;
    ImaginaryMatches(t.items, n, k, qbeg, qend);
    assert Matches(t.items, LeftmostLeaf(n, k), RightmostLeaf(n, k) + 1, qbeg, qend) == ml;
  }

  /** A real node past the query agrees with the brute force once its left child
      does. */
  lemma PastJoin(t: Tree, n: nat, k: nat, qbeg: int, qend: int)
    requires Shaped(t) && SortedByBeg(t.items)
    requires k == Level(n) && n < |t.items| && k > 2 && n < TreeSpan(t)
    requires t.ime[n] > qbeg && t.items[n].beg >= qend
    requires Left(n, k).Some? && Level(Left(n, k).value) == k - 1 && Left(n, k).value < TreeSpan(t)
    requires ScanAgrees(t, Left(n, k).value, k - 1, qbeg, qend)
    ensures ScanAgrees(t, n, k, qbeg, qend)
  {
    var l := Left(n, k).value;
    var sl := Scan(t, l, k - 1, qbeg, qend).hits;
    var ml := Matches(t.items, LeftmostLeaf(l, k - 1), RightmostLeaf(l, k - 1) + 1, qbeg, qend);
    assert sl == ml;
    ScanLeftOnly(t, n, k, qbeg, qend);
    assert Scan(t, n, k, qbeg, qend).hits == sl;
    PastQueryMatches(t.items, n, k, qbeg, qend);
    assert Matches(t.items, LeftmostLeaf(n, k), RightmostLeaf(n, k) + 1, qbeg, qend) == ml;
  }

  /** A real node above level 2 that is neither pruned nor past the query agrees
      with the brute force once both its children do: the node's own hit sits
      between theirs on both sides. */
  lemma InnerJoin(t: Tree, n: nat, k: nat, qbeg: int, qend: int)
    requires Shaped(t) && k == Level(n) && n < |t.items| && k > 2 && n < TreeSpan(t)
    requires t.ime[n] > qbeg && t.items[n].beg < qend
    requires Left(n, k).Some? && Level(Left(n, k).value) == k - 1 && Left(n, k).value < TreeSpan(t)
    requires Right(n, k).Some? && Level(Right(n, k).value) == k - 1 && Right(n, k).value < TreeSpan(t)
    requires ScanAgrees(t, Left(n, k).value, k - 1, qbeg, qend)
    requires ScanAgrees(t, Right(n, k).value, k - 1, qbeg, qend)
    ensures ScanAgrees(t, n, k, qbeg, qend)
  {
    var l, r := Left(n, k).value, Right(n, k).value;
    var sl, sr := Scan(t, l, k - 1, qbeg, qend).hits, Scan(t, r, k - 1, qbeg, qend).hits;
    var ml := Matches(t.items, LeftmostLeaf(l, k - 1), RightmostLeaf(l, k - 1) + 1, qbeg, qend);
    var mr := Matches(t.items, LeftmostLeaf(r, k - 1), RightmostLeaf(r, k - 1) + 1, qbeg, qend);
    assert sl == ml && sr == mr;
    var here: seq<nat> := if Overlaps(t.items[n], qbeg, qend) then [n] else [];
    ScanInner(t, n, k, qbeg, qend);
    assert Scan(t, n, k, qbeg, qend).hits == sl + here + sr;
    InnerMatches(t.items, n, k, qbeg, qend);
    assert Matches(t.items, LeftmostLeaf(n, k), RightmostLeaf(n, k) + 1, qbeg, qend) == ml + here + mr;
  }

  /** The induction step for a real node above level 2 that is neither pruned nor
      past the query: both children's scans report their ranges' matches. */
  lemma {:induction false} InnerCase(t: Tree, n: nat, k: nat, qbeg: int, qend: int)
    requires Valid(t) && k == Level(n) && n < |t.items| && k > 2
    requires t.ime[n] > qbeg && t.items[n].beg < qend
    ensures n < TreeSpan(t) && ScanAgrees(t, n, k, qbeg, qend)
    decreases k, 0
  {
    RealInTree(|t.items|, t.rootLevel, t.fullSize, t.root, n);
    InTree(n, t.rootLevel);
    ChildrenOfNode(n, k);
    ScanMatches(t, Left(n, k).value, k - 1, qbeg, qend);
    ScanMatches(t, Right(n, k).value, k - 1, qbeg, qend);
    InnerJoin(t, n, k, qbeg, qend);
  }

  /** The induction step for a real node above level 2 that begins at or after
      qend: only its left subtree is scanned, and nothing to its right matches. */
  lemma {:induction false} PastCase(t: Tree, n: nat, k: nat, qbeg: int, qend: int)
    requires Valid(t) && k == Level(n) && n < |t.items| && k > 2
    requires t.ime[n] > qbeg && t.items[n].beg >= qend
    ensures n < TreeSpan(t) && ScanAgrees(t, n, k, qbeg, qend)
    decreases k, 0
  {
    RealInTree(|t.items|, t.rootLevel, t.fullSize, t.root, n);
    InTree(n, t.rootLevel);
    ChildrenOfNode(n, k);
    ScanMatches(t, Left(n, k).value, k - 1, qbeg, qend);
    PastJoin(t, n, k, qbeg, qend);
  }

  /** The induction step for an imaginary node: the scan passes to its left child,
      and its right subtree holds no real node. */
  lemma {:induction false} ImaginaryCase(t: Tree, n: nat, k: nat, qbeg: int, qend: int)
    requires Valid(t) && k == Level(n) && n < TreeSpan(t) && n >= |t.items| && k > 0
    ensures ScanAgrees(t, n, k, qbeg, qend)
    decreases k, 0
  {
    InTree(n, t.rootLevel);
    ChildrenOfNode(n, k);
    ScanMatches(t, Left(n, k).value, k - 1, qbeg, qend);
    ImaginaryJoin(t, n, k, qbeg, qend);
  }

  /** Scanning a subtree of a valid tree reports exactly the overlapping real ranks
      of its leaf range, in ascending order: pruning by `inside_max_end` and by beg
      never drops a match. */
  lemma {:induction false} ScanMatches(t: Tree, n: nat, k: nat, qbeg: int, qend: int)
    requires Valid(t)
    requires k == Level(n) && n < TreeSpan(t)
    ensures ScanAgrees(t, n, k, qbeg, qend)
    decreases k, 1
  {
    if n >= |t.items| {
      if k > 0 {
        ImaginaryCase(t, n, k, qbeg, qend);
      }
    } else if k <= 2 {
      LeafCase(t, n, k, qbeg, qend);
    } else if t.ime[n] > qbeg {
      if t.items[n].beg < qend {
        InnerCase(t, n, k, qbeg, qend);
      } else {
        PastCase(t, n, k, qbeg, qend);
      }
    } else {
      PrunedCase(t, n, k, qbeg, qend);
    }
  }

  /** The tree's answer is the brute-force one: the overlapping ranks in ascending
      rank order. */
  lemma OverlapCorrect(t: Tree, qbeg: int, qend: int)
    requires Valid(t)
    ensures Overlap(t, qbeg, qend).hits == Matches(t.items, 0, |t.items|, qbeg, qend)
  {
    RootShape(t.rootLevel, t.root);
    ScanMatches(t, t.root, t.rootLevel, qbeg, qend);
    RootAgrees(t, qbeg, qend);
  }

  /** The root's leaf range covers every real rank, so a scan from the root that
      agrees with the brute force over that range agrees with it over the array. */
  lemma RootAgrees(t: Tree, qbeg: int, qend: int)
    requires Shaped(t) && Level(t.root) == t.rootLevel && t.root < TreeSpan(t)
    requires ScanAgrees(t, t.root, t.rootLevel, qbeg, qend)
    ensures Overlap(t, qbeg, qend).hits == Matches(t.items, 0, |t.items|, qbeg, qend)
  {
    RootShape(t.rootLevel, t.root);
    MatchesClip(t.items, 0, Pow2(t.rootLevel + 1) - 1, qbeg, qend);
  }

  /** Spelled out: `overlap` reports exactly the ranks of the items that overlap
      [qbeg, qend), each once, in ascending rank order. */
  lemma OverlapMembers(t: Tree, qbeg: int, qend: int, hits: seq<nat>)
    requires Valid(t) && hits == Overlap(t, qbeg, qend).hits
    ensures forall i: nat :: i in hits <==> i < |t.items| && Overlaps(t.items[i], qbeg, qend)
    ensures forall a, b :: 0 <= a < b < |hits| ==> hits[a] < hits[b]
  {
    OverlapCorrect(t, qbeg, qend);
    MatchesMembers(t.items, 0, |t.items|, qbeg, qend);
  }

  /** A query whose ends coincide, [p, p), is not empty: it reports the items that
      strictly contain p. */
  lemma PointQuery(t: Tree, p: int, hits: seq<nat>)
    requires Valid(t) && hits == Overlap(t, p, p).hits
    ensures forall i: nat :: i in hits <==> i < |t.items| && t.items[i].beg < p < t.items[i].end
  {
    OverlapCorrect(t, p, p);
    PointMatches(t.items, p, hits);
  }

  // ---------------------------------------------------------------------------
  // The empty tree

  /** The debug check at the head of `scan` (and of `level`): the rank lies below
      the constructor's `full_size`. */
  predicate ScanEntryCheck(t: Tree, n: nat)
  {
    n < t.fullSize
  }

  /** On a non-empty tree the assertion admits exactly the ranks of the tree. */
  lemma ScanEntryCheckNonEmpty(t: Tree, n: nat)
    requires Shaped(t) && |t.items| > 0
    ensures ScanEntryCheck(t, n) <==> n < TreeSpan(t)
  {
  }

  /** On an empty tree the constructor leaves `full_size` at 0 and the root at rank 0,
      so the assertion fails for the very first call `overlap` makes. */
  lemma EmptyTreeFailsScanEntryCheck(t: Tree)
    requires Shaped(t) && |t.items| == 0
    ensures t.root == 0 && t.fullSize == 0
    ensures !ScanEntryCheck(t, t.root)
  {
  }

  /** With the assertion read as "inside the tree of height rootLevel", the empty tree
      answers every query with no hits at the cost of one visit to its imaginary
      root. */
  lemma EmptyTreeOverlap(t: Tree, qbeg: int, qend: int)
    requires Shaped(t) && |t.items| == 0
    ensures Overlap(t, qbeg, qend) == ScanResult([], 1)
  {
  }
}
