/**
  The worked example of the header: the items (12, 34), (0, 23) and (34, 56),
  which the builder sorts to (0, 23), (12, 34), (34, 56), and the query [22, 25).
 */
module HeaderExample {
  import opened Arith
  import opened Options
  import opened Geometry
  import opened Intervals
  import opened ImplicitTree
  import opened TreeScan
  import opened Iitii

  /** The three items in the order the builder's sort leaves them. */
  function SortedItems(): (s: seq<Interval>)
    ensures Sorted(s)
  {
    [Interval(0, 23), Interval(12, 34), Interval(34, 56)]
  }

  /** Three items need a tree of height 1: root 1 over the ranks 0 to 2. */
  lemma HeaderGeometry(rootLevel: nat, fullSize: nat, root: nat)
    requires GeometryFits(3, rootLevel, fullSize, root)
    ensures rootLevel == 1 && root == 1 && fullSize == 3
  {
    if rootLevel >= 2 {
      Pow2Monotone(2, rootLevel);
    }
  }

  /** The subtree maxima: 23 under the leaf 0, 56 under the root 1 and the leaf 2. */
  lemma HeaderSubtreeMaxEnds()
    ensures Level(0) == 0 && Level(1) == 1 && Level(2) == 0
    ensures SubtreeMaxEnd(SortedItems(), 0) == 23
    ensures SubtreeMaxEnd(SortedItems(), 1) == 56
    ensures SubtreeMaxEnd(SortedItems(), 2) == 56
  {
    var s := SortedItems();
    assert Level(1) == 1 + Level(0);
    assert LeftmostLeaf(1, 1) == 0 && RightmostLeaf(1, 1) == 2;
    assert MaxEnd(s, 1, 3) == Max(34, MaxEnd(s, 2, 3));
  }

  /** The brute-force answer to [22, 25): ranks 0 and 1. */
  lemma HeaderMatches()
    ensures Matches(SortedItems(), 0, 3, 22, 25) == [0, 1]
  {
    var s := SortedItems();
    assert Matches(s, 2, 3, 22, 25) == [];
    assert Matches(s, 1, 3, 22, 25) == [1];
  }

  /** Any valid tree over the three items has height 1 under root 1, carries
      `inside_max_end` 23 at the leaf 0 and 56 above, and answers [22, 25) with
      the first two items. */
  lemma HeaderTree(t: Tree)
    requires Valid(t) && t.items == SortedItems()
    ensures t.rootLevel == 1 && t.root == 1 && t.fullSize == 3
    ensures t.ime == [23, 56, 56]
    ensures Overlap(t, 22, 25).hits == [0, 1]
  {
    HeaderGeometry(t.rootLevel, t.fullSize, t.root);
    HeaderInsideMaxEnd(t.ime);
    OverlapCorrect(t, 22, 25);
    HeaderMatches();
  }

  /** The only exact augmentation of the three items. */
  lemma HeaderInsideMaxEnd(ime: seq<int>)
    requires Augmented(SortedItems(), ime)
    ensures ime == [23, 56, 56]
  {
    HeaderSubtreeMaxEnds();
    assert NodeAugmented(SortedItems(), ime, 0);
    assert NodeAugmented(SortedItems(), ime, 1);
    assert NodeAugmented(SortedItems(), ime, 2);
    ThreeValues(ime, 23, 56, 56);
  }

  /** A three-element sequence is the display of its elements. */
  lemma ThreeValues(s: seq<int>, a: int, b: int, c: int)
    requires |s| == 3 && s[0] == a && s[1] == b && s[2] == c
    ensures s == [a, b, c]
  {
  }

  /** On that tree, `outside_max_end` is minus infinity for ranks 0 and 1, whose
      subtrees start at rank 0, and 34 for rank 2, the larger end of the two items
      left of it. */
  lemma HeaderOutsideMaxEnd(ix: Index)
    requires ValidIndex(ix) && ix.tree.items == SortedItems()
    ensures ix.ome == [PosMin, PosMin, 34]
  {
    var ome := ix.ome;
    assert IsOutsideMaxEnd(SortedItems(), 0, ome[0]);
    assert IsOutsideMaxEnd(SortedItems(), 1, ome[1]);
    assert IsOutsideMaxEnd(SortedItems(), 2, ome[2]);
    OutsideMaxEndAt0(ome[0]);
    OutsideMaxEndAt1(ome[1]);
    OutsideMaxEndAt2(ome[2]);
    ThreeValues(ome, PosMin, PosMin, 34);
  }

  /** Leaf 0: nothing lies left of it. */
  lemma OutsideMaxEndAt0(v: int)
    requires IsOutsideMaxEnd(SortedItems(), 0, v)
    ensures v == PosMin
  {
    HeaderSubtreeMaxEnds();
    var s := SortedItems();
    assert !OutsideBefore(s, 0, 0) && !OutsideBefore(s, 0, 1) && !OutsideBefore(s, 0, 2);
  }

  /** Root 1: its subtree is everything. */
  lemma OutsideMaxEndAt1(v: int)
    requires IsOutsideMaxEnd(SortedItems(), 1, v)
    ensures v == PosMin
  {
    HeaderSubtreeMaxEnds();
    var s := SortedItems();
    assert LeftmostLeaf(1, 1) == 0 && RightmostLeaf(1, 1) == 2;
    assert !OutsideBefore(s, 1, 0) && !OutsideBefore(s, 1, 1) && !OutsideBefore(s, 1, 2);
  }

  /** Leaf 2: items 0 and 1 lie left of it and begin before 34. */
  lemma OutsideMaxEndAt2(v: int)
    requires IsOutsideMaxEnd(SortedItems(), 2, v)
    ensures v == 34
  {
    HeaderSubtreeMaxEnds();
    var s := SortedItems();
    assert OutsideBefore(s, 2, 0) && OutsideBefore(s, 2, 1) && !OutsideBefore(s, 2, 2);
  }

  /** The example index. The requires are what `HeaderTree` and
      `HeaderOutsideMaxEnd` establish of every valid index over the three items. */
  ghost predicate HeaderIndex(ix: Index)
  {
    && Shaped(ix.tree) && ix.tree.items == SortedItems()
    && ix.tree.rootLevel == 1 && ix.tree.root == 1
    && |ix.ome| == 3 && ix.ome[2] == 34
  }

  /** Climbing for [22, 25) from leaf 0 has to go on to the root, since item 1,
      just right of the leaf, begins at 12 < 25. */
  lemma ClimbFromLeafZero(ix: Index)
    requires HeaderIndex(ix)
    ensures Climb(ix, 0, 0, 22, 25) == (1, 1)
  {
    RightOfLeafZero();
    assert KeepClimbing(ix, 0, 0, 22, 25);
    ClimbStep(ix, 0, 0, 22, 25);
    assert Parent(1, 0, 0) == Some(1);
  }

  /** Item 1 is the first right of leaf 0. */
  lemma RightOfLeafZero()
    ensures OutsideMinBeg(SortedItems(), 0, 0) == 12
  {
    HeaderSubtreeMaxEnds();
  }

  /** Climbing for [40, 50) from leaf 2 stops at once: nothing left of it reaches
      past 34 <= 40 and nothing lies right of it. */
  lemma StopAtLeafTwo(ix: Index)
    requires HeaderIndex(ix)
    ensures Climb(ix, 2, 0, 40, 50) == (2, 0)
  {
    RightOfLeafTwo();
    assert !KeepClimbing(ix, 2, 0, 40, 50);
  }

  /** Nothing lies right of leaf 2. */
  lemma RightOfLeafTwo()
    ensures OutsideMinBeg(SortedItems(), 2, 0) == PosMax
  {
    HeaderSubtreeMaxEnds();
  }

  /** The low-level scan of leaf 2 for [40, 50). */
  lemma LeafTwo(t: Tree)
    requires Shaped(t) && t.items == SortedItems() && t.rootLevel == 1
    ensures Scan(t, 2, 0, 40, 50) == ScanResult([2], 1)
  {
    HeaderSubtreeMaxEnds();
    var s := SortedItems();
    assert s[2] == Interval(34, 56);
    assert LeafScan(s, 3, 2, 40, 50) == ([], 3);
    assert [2] + [] == [2];
    assert LeafScan(s, 2, 2, 40, 50) == ([2], 3);
  }

  /** Edge queries on the same tree. A zero-width query [22, 22) is not empty: it
      reports the two items that strictly contain 22. A reversed query [22, 12) is
      not empty either: item (0, 23) begins before 12 and ends after 22. And a
      query left of every item, [-10, -5), costs nothing at all, because the root
      sits at level 1 and its low-level loop stops before its first rank. */
  lemma HeaderEdgeQueries(t: Tree)
    requires Valid(t) && t.items == SortedItems()
    ensures Overlap(t, 22, 22).hits == [0, 1]
    ensures Overlap(t, 22, 12).hits == [0]
    ensures Overlap(t, -10, -5) == ScanResult([], 0)
  {
    HeaderTree(t);
    OverlapCorrect(t, 22, 22);
    OverlapCorrect(t, 22, 12);
    EdgeMatches();
    LeftOfEverything(t);
  }

  /** The brute-force answers to [22, 22) and [22, 12). */
  lemma EdgeMatches()
    ensures Matches(SortedItems(), 0, 3, 22, 22) == [0, 1]
    ensures Matches(SortedItems(), 0, 3, 22, 12) == [0]
  {
    var s := SortedItems();
    assert Matches(s, 2, 3, 22, 22) == [];
    assert Matches(s, 1, 3, 22, 22) == [1];
    assert Matches(s, 2, 3, 22, 12) == [];
    assert Matches(s, 1, 3, 22, 12) == [];
  }

  /** The scan from root 1 for [-10, -5) stops at rank 0 without visiting it. */
  lemma LeftOfEverything(t: Tree)
    requires Shaped(t) && t.items == SortedItems() && t.rootLevel == 1 && t.root == 1
    ensures Overlap(t, -10, -5) == ScanResult([], 0)
  {
    HeaderSubtreeMaxEnds();
    assert LeftmostLeaf(1, 1) == 0 && RightmostLeaf(1, 1) == 2;
    assert LeafScan(SortedItems(), 0, 2, -10, -5) == ([], 0);
  }
}
