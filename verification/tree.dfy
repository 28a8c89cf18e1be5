/**
  The implicit augmented interval tree (`iit_base`): the items sorted by beg
  and laid out as the in-order array of a perfect binary tree, with every real
  node carrying `inside_max_end`, the largest end in its own subtree. The
  construction here follows the constructor: fix the implied geometry, trace
  the border between real and imaginary nodes from the rightmost real leaf up
  to the root, then fill `inside_max_end` level by level from the bottom.
 */
module ImplicitTree {
  import opened Arith
  import opened Options
  import opened Geometry
  import opened Intervals

  /** The node array split into its parts: the sorted items, their
      `inside_max_end` values, and the geometry fixed at construction. */
  datatype Tree = Tree(items: seq<Interval>, ime: seq<int>, fullSize: nat, root: nat, rootLevel: nat)

  /** The geometry the constructor's loop settles on for `size` nodes. The loop
      starts from an empty tree and grows it one level at a time, so a non-empty
      array always gets a tree of height at least 1 (a single node sits under an
      imaginary root), and the height is the least such one that holds the array. */
  ghost predicate GeometryFits(size: nat, rootLevel: nat, fullSize: nat, root: nat)
  {
    && root == Pow2(rootLevel) - 1
    && (size == 0 ==> rootLevel == 0 && fullSize == 0)
    && (size > 0 ==>
      && rootLevel >= 1
      && fullSize == Pow2(rootLevel + 1) - 1
      && size <= fullSize
      && (rootLevel >= 2 ==> Pow2(rootLevel) - 1 < size))
  }

  /** The rank of the rightmost real leaf: the last even rank below size. */
  function RightmostRealLeaf(size: nat): (r: nat)
    requires size > 0
    ensures r % 2 == 0 && r < size <= r + 2
    ensures Level(r) == 0
  {
    size - (2 - size % 2)
  }

  /** The largest end among the real nodes of n's subtree. */
  function SubtreeMaxEnd(items: seq<Interval>, n: nat): int
    requires LeftmostLeaf(n, Level(n)) < |items|
  {
    MaxEnd(items, LeftmostLeaf(n, Level(n)), Min(RightmostLeaf(n, Level(n)) + 1, |items|))
  }

  /** Real node n's `inside_max_end` is its subtree's largest end. */
  ghost predicate NodeAugmented(items: seq<Interval>, ime: seq<int>, n: nat)
    requires n < |items| == |ime|
  {
    ime[n] == SubtreeMaxEnd(items, n)
  }

  /** Every real node's `inside_max_end` is its subtree's largest end. */
  ghost predicate Augmented(items: seq<Interval>, ime: seq<int>)
  {
    && |ime| == |items|
    && forall n :: 0 <= n < |items| ==> NodeAugmented(items, ime, n)
  }

  /** A well-formed tree: its geometry is the one the constructor fixes, the items
      are in beg order, and the augmentation is exact. */
  ghost predicate Valid(t: Tree)
  {
    && GeometryFits(|t.items|, t.rootLevel, t.fullSize, t.root)
    && SortedByBeg(t.items)
    && Augmented(t.items, t.ime)
  }

  /** Node b is the level-j node on the right border: it is on level j and its leaf
      range holds the rightmost real leaf. */
  ghost predicate BorderNode(size: nat, b: nat, j: nat)
    requires size > 0
  {
    && Level(b) == j
    && LeftmostLeaf(b, j) <= RightmostRealLeaf(size) <= RightmostLeaf(b, j)
  }

  /** The path from the rightmost real leaf up to the root, one node per level. */
  ghost predicate BorderPath(size: nat, rootLevel: nat, root: nat, border: seq<nat>)
  {
    && size > 0
    && |border| == rootLevel + 1
    && border[0] == RightmostRealLeaf(size)
    && border[rootLevel] == root
    && (forall j :: 0 <= j <= rootLevel ==> BorderNode(size, border[j], j))
    && (forall j :: 0 <= j < rootLevel ==> BorderLink(root, border, j))
  }

  /** The level-(j + 1) border node is the parent of the level-j one. */
  ghost predicate BorderLink(root: nat, border: seq<nat>, j: nat)
    requires j + 1 < |border|
  {
    Level(border[j]) == j && Parent(root, border[j], j) == Some(border[j + 1])
  }

  // ---------------------------------------------------------------------------
  // Geometry

  /** The constructor's geometry loop. */
  method ImpliedGeometry(size: nat) returns (rootLevel: nat, fullSize: nat, root: nat)
    ensures GeometryFits(size, rootLevel, fullSize, root)
  {
    rootLevel := 0;
    fullSize := 0;
    while fullSize < size
      invariant fullSize == if rootLevel == 0 then 0 else Pow2(rootLevel + 1) - 1
      invariant fullSize == 0 <==> rootLevel == 0
      invariant rootLevel >= 1 ==> size >= 1
      invariant rootLevel >= 2 ==> Pow2(rootLevel) - 1 < size
      decreases size - fullSize
    {
      rootLevel := rootLevel + 1;
      assert Pow2(rootLevel + 1) == 2 * Pow2(rootLevel);
      fullSize := Pow2(rootLevel + 1) - 1;
    }
    root := Pow2(rootLevel) - 1;
  }

  /** No shorter tree (of height at least 1) holds the array: every full tree of
      2^j - 1 nodes with 2 <= j <= rootLevel is too small. */
  lemma GeometryMinimal(size: nat, rootLevel: nat, fullSize: nat, root: nat)
    requires GeometryFits(size, rootLevel, fullSize, root)
    ensures forall j: nat :: 2 <= j <= rootLevel ==> Pow2(j) - 1 < size
  {
    forall j: nat | 2 <= j <= rootLevel
      ensures Pow2(j) - 1 < size
    {
      Pow2Monotone(j, rootLevel);
    }
  }

  /** The geometry is determined by the size. */
  lemma GeometryUnique(size: nat, r1: nat, f1: nat, o1: nat, r2: nat, f2: nat, o2: nat)
    requires GeometryFits(size, r1, f1, o1) && GeometryFits(size, r2, f2, o2)
    ensures r1 == r2 && f1 == f2 && o1 == o2
  {
    if r1 < r2 {
      Pow2Monotone(r1 + 1, r2);
    } else if r2 < r1 {
      Pow2Monotone(r2 + 1, r1);
    }
  }

  /** A single node sits on level 0 under an imaginary root at rank 1. */
  lemma SingleNodeGeometry(rootLevel: nat, fullSize: nat, root: nat)
    requires GeometryFits(1, rootLevel, fullSize, root)
    ensures rootLevel == 1 && fullSize == 3 && root == 1
  {
  }

  /** The real nodes all lie inside the tree of height rootLevel. */
  lemma RealInTree(size: nat, rootLevel: nat, fullSize: nat, root: nat, n: nat)
    requires GeometryFits(size, rootLevel, fullSize, root)
    requires n < size
    ensures n < Pow2(rootLevel + 1) - 1
    ensures Level(n) <= rootLevel
  {
    InTree(n, rootLevel);
  }

  // ---------------------------------------------------------------------------
  // The right border

  /** One step of the climb along the right border: below the root, the parent of
      the topmost node recorded so far extends the path by one level. */
  lemma BorderStep(size: nat, rootLevel: nat, fullSize: nat, root: nat, border: seq<nat>)
    requires size > 0
    requires GeometryFits(size, rootLevel, fullSize, root)
    requires 1 <= |border| <= rootLevel + 1
    requires forall j :: 0 <= j < |border| ==> BorderNode(size, border[j], j) && border[j] < fullSize
    requires forall j :: 0 <= j < |border| - 1 ==> BorderLink(root, border, j)
    requires border[|border| - 1] != root
    ensures Level(border[|border| - 1]) == |border| - 1
    ensures Parent(root, border[|border| - 1], |border| - 1).Some?
    ensures |border| + 1 <= rootLevel + 1
    ensures var next := border + [Parent(root, border[|border| - 1], |border| - 1).value];
      && (forall j :: 0 <= j < |next| ==> BorderNode(size, next[j], j) && next[j] < fullSize)
      && (forall j :: 0 <= j < |next| - 1 ==> BorderLink(root, next, j))
  {
    var last := border[|border| - 1];
    assert BorderNode(size, last, |border| - 1);
    ParentInTree(rootLevel, last);
    var p := Parent(root, last, Level(last)).value;
    var next := border + [p];
    assert BorderNode(size, p, |border|);
    forall j | 0 <= j < |next| - 1
      ensures BorderLink(root, next, j)
    {
      if j < |border| - 1 {
        assert BorderLink(root, border, j);
      }
    }
  }

  /** Climb from the rightmost real leaf to the root, recording each node. */
  method RightBorder(size: nat, rootLevel: nat, fullSize: nat, root: nat) returns (border: seq<nat>)
    requires size > 0
    requires GeometryFits(size, rootLevel, fullSize, root)
    ensures BorderPath(size, rootLevel, root, border)
    ensures forall j :: 0 <= j < |border| ==> border[j] < fullSize
  {
    var leaf := RightmostRealLeaf(size);
    border := [leaf];
    RealInTree(size, rootLevel, fullSize, root, leaf);
    while border[|border| - 1] != root
      invariant 1 <= |border| <= rootLevel + 1
      invariant border[0] == leaf
      invariant forall j :: 0 <= j < |border| ==> BorderNode(size, border[j], j) && border[j] < fullSize
      invariant forall j :: 0 <= j < |border| - 1 ==> BorderLink(root, border, j)
      decreases rootLevel + 1 - |border|
    {
      BorderStep(size, rootLevel, fullSize, root, border);
      border := border + [Parent(root, border[|border| - 1], |border| - 1).value];
    }
    var last := border[|border| - 1];
    assert BorderNode(size, last, |border| - 1);
    RootShape(rootLevel, root);
  }

  // ---------------------------------------------------------------------------
  // Subtree maxima

  /** A leaf's subtree is the leaf alone. */
  lemma LeafMaxEnd(items: seq<Interval>, n: nat)
    requires n < |items| && Level(n) == 0
    ensures SubtreeMaxEnd(items, n) == items[n].end
  {
  }

  /** A node whose children are both real combines its own end with theirs. */
  lemma ChildrenMaxEnd(items: seq<Interval>, n: nat, k: nat)
    requires n < |items| && k == Level(n) && k > 0
    requires Right(n, k).Some? && Right(n, k).value < |items|
    ensures Left(n, k).Some? && Level(Left(n, k).value) == k - 1 && Left(n, k).value < |items|
    ensures SubtreeMaxEnd(items, n) ==
      Max(Max(items[n].end, SubtreeMaxEnd(items, Left(n, k).value)), SubtreeMaxEnd(items, Right(n, k).value))
  {
    ChildrenOfNode(n, k);
    RightPartMaxEnd(items, n, k);
  }

  /** A node with a real rank after it combines its own end with both children's,
      the right child counting only its real ranks. */
  lemma RightPartMaxEnd(items: seq<Interval>, n: nat, k: nat)
    requires n + 1 < |items| && k == Level(n) && k > 0
    ensures Left(n, k).Some? && Level(Left(n, k).value) == k - 1 && Left(n, k).value < |items|
    ensures Right(n, k).Some? && Level(Right(n, k).value) == k - 1 && LeftmostLeaf(Right(n, k).value, k - 1) < |items|
    ensures SubtreeMaxEnd(items, n) ==
      Max(Max(items[n].end, SubtreeMaxEnd(items, Left(n, k).value)), SubtreeMaxEnd(items, Right(n, k).value))
  {
    ChildrenOfNode(n, k);
    var l := LeftmostLeaf(n, k);
    var e := Min(RightmostLeaf(n, k) + 1, |items|);
    assert e > n + 1;
    MaxEndSplit(items, l, n, e);
    MaxEndSplit(items, n, n + 1, e);
  }

  /** The last real rank, above level 0, combines its own end with its left child's. */
  lemma LastNodeMaxEnd(items: seq<Interval>, n: nat, k: nat)
    requires n + 1 == |items| && k == Level(n) && k > 0
    ensures Left(n, k).Some? && Level(Left(n, k).value) == k - 1 && Left(n, k).value < |items|
    ensures SubtreeMaxEnd(items, n) == Max(items[n].end, SubtreeMaxEnd(items, Left(n, k).value))
  {
    ChildrenOfNode(n, k);
    MaxEndSplit(items, LeftmostLeaf(n, k), n, n + 1);
  }

  /** A node whose right child is imaginary is the border node of its level, and its
      subtree maximum combines its own end, its left child's, and that of the
      border node one level down (which is one of its children). */
  lemma ImaginaryRightChild(items: seq<Interval>, rootLevel: nat, root: nat, border: seq<nat>, n: nat, k: nat)
    requires BorderPath(|items|, rootLevel, root, border)
    requires n < |items| && k == Level(n) && k > 0 && k <= rootLevel
    requires Right(n, k).Some? && Right(n, k).value >= |items|
    ensures n == border[k]
    ensures Left(n, k).Some? && Level(Left(n, k).value) == k - 1 && Left(n, k).value < |items|
    ensures LeftmostLeaf(border[k - 1], k - 1) < |items|
    ensures SubtreeMaxEnd(items, n) ==
      Max(Max(items[n].end, SubtreeMaxEnd(items, Left(n, k).value)), SubtreeMaxEnd(items, border[k - 1]))
  {
    var size := |items|;
    var leaf := RightmostRealLeaf(size);
    ChildrenOfNode(n, k);
    assert BorderNode(size, border[k], k);
    assert BorderNode(size, border[k - 1], k - 1);
    SameLevelContainment(n, border[k], k, leaf);
    assert BorderLink(root, border, k - 1);
    ChildOfParent(root, border[k - 1], k - 1);
    if Right(n, k) == Some(border[k - 1]) {
      RightPartMaxEnd(items, n, k);
    } else {
      LastNodeMaxEnd(items, n, k);
    }
  }

  /** An imaginary border node has the same subtree maximum as the border node one
      level down, its only child with real nodes below it. */
  lemma ImaginaryBorder(items: seq<Interval>, rootLevel: nat, root: nat, border: seq<nat>, k: nat)
    requires BorderPath(|items|, rootLevel, root, border)
    requires 0 < k <= rootLevel && border[k] >= |items|
    ensures LeftmostLeaf(border[k], k) < |items| && LeftmostLeaf(border[k - 1], k - 1) < |items|
    ensures SubtreeMaxEnd(items, border[k]) == SubtreeMaxEnd(items, border[k - 1])
  {
    var size := |items|;
    assert BorderNode(size, border[k], k);
    assert BorderNode(size, border[k - 1], k - 1);
    assert BorderLink(root, border, k - 1);
    ChildOfParent(root, border[k - 1], k - 1);
    ChildrenOfNode(border[k], k);
  }

  // ---------------------------------------------------------------------------
  // Bottom-up indexing

  /** Whether the bottom-up pass, about to handle the level-k node with level-rank
      j, has already handled rank m. */
  ghost predicate Handled(m: nat, k: nat, j: nat)
  {
    Level(m) < k || (Level(m) == k && LevelRankOfRank(m) < j)
  }

  /** The state of the pass at that point: handled real nodes hold their subtree
      maximum, the others still hold their own end. */
  ghost predicate IndexedUpTo(items: seq<Interval>, ime: seq<int>, k: nat, j: nat)
  {
    && |ime| == |items|
    && forall m :: 0 <= m < |items| ==> NodeIndexed(items, ime, k, j, m)
  }

  /** Real node m holds its subtree maximum if the pass has handled it, else its end. */
  ghost predicate NodeIndexed(items: seq<Interval>, ime: seq<int>, k: nat, j: nat, m: nat)
    requires m < |items| == |ime|
  {
    ime[m] == if Handled(m, k, j) then SubtreeMaxEnd(items, m) else items[m].end
  }

  /** Handling the node (k, j) moves the pass on to (k, j + 1). */
  lemma IndexedStep(items: seq<Interval>, ime: seq<int>, k: nat, j: nat, n: nat)
    requires IndexedUpTo(items, ime, k, j)
    requires n == RankOfLevelRank(k, j) && n < |items|
    ensures IndexedUpTo(items, ime[n := SubtreeMaxEnd(items, n)], k, j + 1)
  {
    LevelRankRoundTrip(k, j);
    var ime' := ime[n := SubtreeMaxEnd(items, n)];
    forall m | 0 <= m < |items|
      ensures ime'[m] == if Handled(m, k, j + 1) then SubtreeMaxEnd(items, m) else items[m].end
    {
      assert NodeIndexed(items, ime, k, j, m);
      RankLevelRankRoundTrip(m);
    }
  }

  /** Once the next node of level k is past the array, level k is complete. */
  lemma IndexedLevel(items: seq<Interval>, ime: seq<int>, k: nat, j: nat)
    requires IndexedUpTo(items, ime, k, j)
    requires RankOfLevelRank(k, j) >= |items|
    ensures IndexedUpTo(items, ime, k + 1, 0)
  {
    forall m | 0 <= m < |items|
      ensures ime[m] == if Handled(m, k + 1, 0) then SubtreeMaxEnd(items, m) else items[m].end
    {
      assert NodeIndexed(items, ime, k, j, m);
      if Level(m) == k {
        RankLevelRankRoundTrip(m);
        if LevelRankOfRank(m) >= j {
          RankMonotone(k, j, LevelRankOfRank(m));
        }
      }
    }
  }

  /** The border value the pass carries: the subtree maximum of the level-k border
      node once the pass has handled it, and of the level k - 1 one before that. */
  ghost predicate BorderValue(items: seq<Interval>, border: seq<nat>, k: nat, j: nat, rbIme: int)
    requires 0 < k < |border|
    requires LeftmostLeaf(border[k], Level(border[k])) < |items|
    requires LeftmostLeaf(border[k - 1], Level(border[k - 1])) < |items|
  {
    rbIme == SubtreeMaxEnd(items,
      if border[k] < |items| && Level(border[k]) == k && LevelRankOfRank(border[k]) < j
      then border[k] else border[k - 1])
  }

  /** The state of the pass on level k just before it visits the node (k, j) at
      rank n: the nodes before it are indexed and the carried border value is
      right. */
  ghost predicate PassAt(items: seq<Interval>, rootLevel: nat, root: nat, border: seq<nat>,
                         ime: seq<int>, rbIme: int, k: nat, j: nat, n: nat)
  {
    && BorderPath(|items|, rootLevel, root, border)
    && 0 < k <= rootLevel
    && BorderNode(|items|, border[k], k) && BorderNode(|items|, border[k - 1], k - 1)
    && n == RankOfLevelRank(k, j)
    && IndexedUpTo(items, ime, k, j)
    && BorderValue(items, border, k, j, rbIme)
  }

  /** The value the pass computes for the real node (k, j) is its subtree maximum. */
  lemma NodeValue(items: seq<Interval>, rootLevel: nat, root: nat, border: seq<nat>,
                  ime: seq<int>, rbIme: int, k: nat, j: nat, n: nat)
    requires PassAt(items, rootLevel, root, border, ime, rbIme, k, j, n) && n < |items|
    ensures Level(n) == k && Left(n, k).Some? && Right(n, k).Some?
    ensures Left(n, k).value < |items| && |ime| == |items|
    ensures var v0 := Max(items[n].end, ime[Left(n, k).value]);
      SubtreeMaxEnd(items, n) ==
        if Right(n, k).value < |items| then Max(v0, ime[Right(n, k).value]) else Max(v0, rbIme)
  {
    LevelRankRoundTrip(k, j);
    ChildrenOfNode(n, k);
    var left := Left(n, k).value;
    var right := Right(n, k).value;
    assert NodeIndexed(items, ime, k, j, left);
    if right < |items| {
      assert NodeIndexed(items, ime, k, j, right);
      ChildrenMaxEnd(items, n, k);
    } else {
      ImaginaryRightChild(items, rootLevel, root, border, n, k);
    }
  }

  /** After handling node n of level k, the carried border value is still right. */
  lemma BorderValueStep(items: seq<Interval>, border: seq<nat>, k: nat, j: nat, n: nat, rbIme: int)
    requires 0 < k < |border|
    requires n == RankOfLevelRank(k, j) && n < |items|
    requires BorderNode(|items|, border[k], k) && BorderNode(|items|, border[k - 1], k - 1)
    requires BorderValue(items, border, k, j, rbIme)
    ensures LeftmostLeaf(n, Level(n)) < |items|
    ensures BorderValue(items, border, k, j + 1, if n == border[k] then SubtreeMaxEnd(items, n) else rbIme)
  {
    LevelRankRoundTrip(k, j);
    RankLevelRankRoundTrip(border[k]);
  }

  /** Storing the subtree maximum of the node (k, j) advances the pass to (k, j + 1). */
  lemma VisitUpdate(items: seq<Interval>, rootLevel: nat, root: nat, border: seq<nat>,
                    ime: seq<int>, rbIme: int, k: nat, j: nat, n: nat, v: int)
    requires PassAt(items, rootLevel, root, border, ime, rbIme, k, j, n) && n < |items|
    requires LeftmostLeaf(n, Level(n)) < |items| && v == SubtreeMaxEnd(items, n)
    ensures PassAt(items, rootLevel, root, border, ime[n := v], if n == border[k] then v else rbIme,
                   k, j + 1, n + Pow2(k + 1))
  {
    IndexedStep(items, ime, k, j, n);
    BorderValueStep(items, border, k, j, n, rbIme);
    RankStep(k, j);
  }

  /** The pass starts level k with nothing of the level visited. */
  lemma PassStart(items: seq<Interval>, rootLevel: nat, root: nat, border: seq<nat>,
                  ime: seq<int>, rbIme: int, k: nat)
    requires BorderPath(|items|, rootLevel, root, border)
    requires 0 < k <= rootLevel
    requires IndexedUpTo(items, ime, k, 0)
    requires BorderNode(|items|, border[k - 1], k - 1)
    requires rbIme == SubtreeMaxEnd(items, border[k - 1])
    ensures PassAt(items, rootLevel, root, border, ime, rbIme, k, 0, Pow2(k) - 1)
  {
    assert BorderNode(|items|, border[k], k);
    RankOfRoot(k);
  }

  /** At the end of level k the level is indexed and the carried value is the level-k
      border node's maximum. */
  lemma PassEnd(items: seq<Interval>, rootLevel: nat, root: nat, border: seq<nat>,
                ime: seq<int>, rbIme: int, k: nat, j: nat, n: nat)
    requires PassAt(items, rootLevel, root, border, ime, rbIme, k, j, n) && n >= |items|
    ensures IndexedUpTo(items, ime, k + 1, 0)
    ensures BorderNode(|items|, border[k], k)
    ensures rbIme == SubtreeMaxEnd(items, border[k])
  {
    IndexedLevel(items, ime, k, j);
    if border[k] < |items| {
      RankLevelRankRoundTrip(border[k]);
      if LevelRankOfRank(border[k]) >= j {
        RankMonotone(k, j, LevelRankOfRank(border[k]));
      }
    } else {
      ImaginaryBorder(items, rootLevel, root, border, k);
    }
  }

  /** One level of the bottom-up pass: visit the real level-k nodes left to right,
      setting each one's `inside_max_end` from its end and its children's values,
      and reading the carried border value where the right child is imaginary. */
  method IndexLevel(items: seq<Interval>, rootLevel: nat, root: nat, border: seq<nat>,
                    ime0: seq<int>, rbIme0: int, k: nat)
    returns (ime: seq<int>, rbIme: int)
    requires BorderPath(|items|, rootLevel, root, border)
    requires 0 < k <= rootLevel
    requires IndexedUpTo(items, ime0, k, 0)
    requires BorderNode(|items|, border[k - 1], k - 1)
    requires rbIme0 == SubtreeMaxEnd(items, border[k - 1])
    ensures IndexedUpTo(items, ime, k + 1, 0)
    ensures BorderNode(|items|, border[k], k)
    ensures rbIme == SubtreeMaxEnd(items, border[k])
  {
    var size := |items|;
    ime, rbIme := ime0, rbIme0;
    var x := Pow2(k - 1);
    var step := 4 * x;
    assert step == Pow2(k + 1) by {
      assert Pow2(k + 1) == 2 * Pow2(k) && Pow2(k) == 2 * x;
    }
    var n := 2 * x - 1;
    PassStart(items, rootLevel, root, border, ime, rbIme, k);
    ghost var j: nat := 0;
    while n < size
      invariant PassAt(items, rootLevel, root, border, ime, rbIme, k, j, n)
      decreases size - n
    {
      NodeValue(items, rootLevel, root, border, ime, rbIme, k, j, n);
      var v := items[n].end;
      v := Max(v, ime[Left(n, k).value]);
      if Right(n, k).value < size {
        v := Max(v, ime[Right(n, k).value]);
      } else {
        v := Max(v, rbIme);
      }
      VisitUpdate(items, rootLevel, root, border, ime, rbIme, k, j, n, v);
      ime := ime[n := v];
      if n == border[k] {
        rbIme := v;
      }
      n := n + step;
      j := j + 1;
    }
    PassEnd(items, rootLevel, root, border, ime, rbIme, k, j, n);
  }

  /** The constructor's bottom-up pass over levels 1 to the root's. */
  method InsideMaxEnd(items: seq<Interval>, rootLevel: nat, fullSize: nat, root: nat, border: seq<nat>)
    returns (ime: seq<int>)
    requires |items| > 0
    requires GeometryFits(|items|, rootLevel, fullSize, root)
    requires BorderPath(|items|, rootLevel, root, border)
    ensures Augmented(items, ime)
  {
    var size := |items|;
    ime := seq(size, i requires 0 <= i < size => items[i].end);
    assert BorderNode(size, border[0], 0);
    forall m | 0 <= m < size
      ensures NodeIndexed(items, ime, 1, 0, m)
    {
      if Level(m) == 0 {
        LeafMaxEnd(items, m);
      }
    }
    var rbIme := ime[border[0]];
    var k := 1;
    while k <= rootLevel
      invariant 1 <= k <= rootLevel + 1
      invariant IndexedUpTo(items, ime, k, 0)
      invariant BorderNode(size, border[k - 1], k - 1)
      invariant rbIme == SubtreeMaxEnd(items, border[k - 1])
      decreases rootLevel + 1 - k
    {
      ime, rbIme := IndexLevel(items, rootLevel, root, border, ime, rbIme, k);
      k := k + 1;
    }
    forall m | 0 <= m < size
      ensures NodeAugmented(items, ime, m)
    {
      assert NodeIndexed(items, ime, k, 0, m);
      RealInTree(size, rootLevel, fullSize, root, m);
    }
  }

  /** The constructor: fix the geometry and fill the augmentation for items already
      in beg order (the order the constructor checks neighbour by neighbour). */
  method Build(items: seq<Interval>) returns (t: Tree)
    requires AdjacentSortedByBeg(items)
    ensures Valid(t) && t.items == items
  {
    AdjacentSortedIsSorted(items);
    var rootLevel, fullSize, root := ImpliedGeometry(|items|);
    if |items| == 0 {
      return Tree(items, [], fullSize, root, rootLevel);
    }
    var border := RightBorder(|items|, rootLevel, fullSize, root);
    var ime := InsideMaxEnd(items, rootLevel, fullSize, root, border);
    t := Tree(items, ime, fullSize, root, rootLevel);
  }

  // ---------------------------------------------------------------------------
  // What the augmentation means

  /** In a valid tree, a real node's `inside_max_end` bounds the end of every real
      node in its subtree and is the end of one of them. */
  lemma InsideMaxEndIsSubtreeMax(t: Tree, n: nat)
    requires Valid(t) && n < |t.items|
    ensures forall m :: LeftmostLeaf(n, Level(n)) <= m <= RightmostLeaf(n, Level(n)) && m < |t.items| ==>
      t.items[m].end <= t.ime[n]
    ensures exists m :: && LeftmostLeaf(n, Level(n)) <= m <= RightmostLeaf(n, Level(n))
                        && m < |t.items| && t.items[m].end == t.ime[n]
  {
    assert NodeAugmented(t.items, t.ime, n);
    SubtreeMaxEndIsMax(t.items, n);
  }

  /** The subtree maximum bounds every real end of the subtree and is one of them. */
  lemma SubtreeMaxEndIsMax(items: seq<Interval>, n: nat)
    requires n < |items|
    ensures forall m :: LeftmostLeaf(n, Level(n)) <= m <= RightmostLeaf(n, Level(n)) && m < |items| ==>
      items[m].end <= SubtreeMaxEnd(items, n)
    ensures exists m :: && LeftmostLeaf(n, Level(n)) <= m <= RightmostLeaf(n, Level(n))
                        && m < |items| && items[m].end == SubtreeMaxEnd(items, n)
  {
    var k := Level(n);
    MaxEndIsMax(items, LeftmostLeaf(n, k), Min(RightmostLeaf(n, k) + 1, |items|));
  }
}
