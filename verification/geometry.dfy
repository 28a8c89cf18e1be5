/**
  Geometry of the implicit interval tree (iitii.h, `iit_base` and `iitii`).

  The sorted node array is read as an in-order layout of a complete binary
  tree: a rank's level is the number of trailing 1-bits of the rank, a node at
  level k with level-rank o sits at rank 2^k (2o + 1) - 1, its children are
  2^(k-1) ranks away and its subtree is the contiguous rank range of width
  2^(k+1) - 1 centred on it. Every function here is total over the implied
  (unbounded) index space; whether a rank is real is the caller's business.
 */
module Geometry {
  import opened Arith
  import opened Options

  /** The level of a rank: the number of 1-bits below its lowest 0-bit. */
  function Level(r: nat): nat
  {
    if r % 2 == 0 then 0 else 1 + Level(r / 2)
  }

  /** The rank of the node with level-rank o on level k (its o-th node from the left). */
  function RankOfLevelRank(k: nat, o: nat): nat
  {
    MulMonotone(Pow2(k), 1, 2 * o + 1);
    Pow2(k) * (2 * o + 1) - 1
  }

  /** The position of rank r among the nodes of its own level. */
  function LevelRankOfRank(r: nat): nat
  {
    LevelBound(r);
    DivLowerBound(r + 1, Pow2(Level(r)));
    ((r + 1) / Pow2(Level(r)) - 1) / 2
  }

  /** The left child of a node at level k, or None for a leaf. */
  function Left(n: nat, k: nat): Option<nat>
    requires k == Level(n)
  {
    if k > 0 then LevelBound(n); Some(n - Pow2(k - 1)) else None
  }

  /** The right child of a node at level k, or None for a leaf. */
  function Right(n: nat, k: nat): Option<nat>
    requires k == Level(n)
  {
    if k > 0 then Some(n + Pow2(k - 1)) else None
  }

  /** The parent of a node at level k, or None when the node is the root. Bit k+1
      of the rank tells whether the node is a right child (1) or a left child (0). */
  function Parent(root: nat, n: nat, k: nat): Option<nat>
    requires k == Level(n)
  {
    if n == root then None
    else if (n / Pow2(k + 1)) % 2 == 1 then
      RightChildBound(n, k);
      Some(n - Pow2(k))
    else Some(n + Pow2(k))
  }

  /** A rank whose bit k+1 is set lies at least 2^k above zero. */
  lemma RightChildBound(n: nat, k: nat)
    requires (n / Pow2(k + 1)) % 2 == 1
    ensures n >= Pow2(k)
  {
    DivLowerBound(n, Pow2(k + 1));
    assert Pow2(k + 1) == 2 * Pow2(k);
  }

  /** The lowest rank under a subtree root at level k. */
  function LeftmostLeaf(n: nat, k: nat): nat
    requires k == Level(n)
  {
    LevelBound(n);
    n - (Pow2(k) - 1)
  }

  /** The highest rank under a subtree root at level k. */
  function RightmostLeaf(n: nat, k: nat): nat
    requires k == Level(n)
  {
    n + (Pow2(k) - 1)
  }

  /** The ranks of a subtree collected the textbook way, by following child links. */
  ghost function SubtreeRanks(n: nat, k: nat): set<nat>
    requires k == Level(n)
    decreases k
  {
    if k == 0 then {n}
    else
      ChildrenOfNode(n, k);
      {n} + SubtreeRanks(Left(n, k).value, k - 1) + SubtreeRanks(Right(n, k).value, k - 1)
  }

  // ---------------------------------------------------------------------------
  // Rank arithmetic (kept apart from Level so that the solver's nonlinear
  // reasoning never meets Level's unfolding)

  /** The rank (k, o) written as an offset into its level's stride of 2^(k+1). */
  lemma RankStride(k: nat, o: nat)
    ensures RankOfLevelRank(k, o) == Pow2(k + 1) * o + Pow2(k) - 1
    ensures RankOfLevelRank(k, o) + 1 == Pow2(k) * (2 * o + 1)
  {
    assert Pow2(k + 1) == 2 * Pow2(k);
    assert Pow2(k) * (2 * o + 1) == (2 * Pow2(k)) * o + Pow2(k);
  }

  /** Dropping the lowest bit of a rank above level 0 moves it one level down. */
  lemma RankHalf(k: nat, o: nat)
    requires k > 0
    ensures RankOfLevelRank(k, o) == 2 * RankOfLevelRank(k - 1, o) + 1
  {
    var h := Pow2(k - 1);
    assert Pow2(k) == 2 * h;
    assert (2 * h) * (2 * o + 1) == 2 * (h * (2 * o + 1));
  }

  /** The children of (k, o) are (k - 1, 2o) and (k - 1, 2o + 1). */
  lemma RankChildren(k: nat, o: nat)
    requires k > 0
    ensures RankOfLevelRank(k, o) >= Pow2(k - 1)
    ensures RankOfLevelRank(k, o) - Pow2(k - 1) == RankOfLevelRank(k - 1, 2 * o)
    ensures RankOfLevelRank(k, o) + Pow2(k - 1) == RankOfLevelRank(k - 1, 2 * o + 1)
  {
    var h := Pow2(k - 1);
    assert Pow2(k) == 2 * h;
    assert (2 * h) * (2 * o + 1) == h * (2 * (2 * o) + 1) + h;
    assert (2 * h) * (2 * o + 1) + h == h * (2 * (2 * o + 1) + 1);
    MulMonotone(h, 1, 2 * (2 * o) + 1);
  }

  /** A right child (k, 2q + 1) lies 2^k above its parent (k + 1, q). */
  lemma RankParentOfRight(k: nat, q: nat)
    ensures RankOfLevelRank(k, 2 * q + 1) >= Pow2(k)
    ensures RankOfLevelRank(k, 2 * q + 1) - Pow2(k) == RankOfLevelRank(k + 1, q)
  {
    var p := Pow2(k);
    assert Pow2(k + 1) == 2 * p;
    assert p * (2 * (2 * q + 1) + 1) == 4 * (p * q) + 3 * p;
    assert (2 * p) * (2 * q + 1) == 4 * (p * q) + 2 * p;
    MulMonotone(p, 0, q);
  }

  /** A left child (k, 2q) lies 2^k below its parent (k + 1, q). */
  lemma RankParentOfLeft(k: nat, q: nat)
    ensures RankOfLevelRank(k, 2 * q) + Pow2(k) == RankOfLevelRank(k + 1, q)
  {
    var p := Pow2(k);
    assert Pow2(k + 1) == 2 * p;
    assert p * (2 * (2 * q) + 1) == 4 * (p * q) + p;
    assert (2 * p) * (2 * q + 1) == 4 * (p * q) + 2 * p;
  }

  /** Consecutive nodes of one level are 2^(k+1) ranks apart. */
  lemma RankStep(k: nat, o: nat)
    ensures RankOfLevelRank(k, o) + Pow2(k + 1) == RankOfLevelRank(k, o + 1)
  {
    RankStride(k, o);
    RankStride(k, o + 1);
    assert Pow2(k + 1) * (o + 1) == Pow2(k + 1) * o + Pow2(k + 1);
  }

  /** Along one level, rank grows with level-rank. */
  lemma RankMonotone(k: nat, a: nat, b: nat)
    requires a <= b
    ensures RankOfLevelRank(k, a) <= RankOfLevelRank(k, b)
  {
    RankStride(k, a);
    RankStride(k, b);
    MulMonotone(Pow2(k + 1), a, b);
  }

  /** The root rank 2^R - 1 is the first node of level R. */
  lemma RankOfRoot(rootLevel: nat)
    ensures RankOfLevelRank(rootLevel, 0) == Pow2(rootLevel) - 1
  {
  }

  // ---------------------------------------------------------------------------
  // Level and level-rank

  /** A rank plus one is at least the power of two of its level. */
  lemma {:induction false} LevelBound(r: nat)
    ensures Pow2(Level(r)) <= r + 1
  {
    if r % 2 == 1 {
      LevelBound(r / 2);
    }
  }

  /** Every rank decomposes as 2^level * (2 * levelrank + 1) - 1. */
  lemma {:induction false} LevelDecompose(r: nat)
    ensures r + 1 == Pow2(Level(r)) * (2 * LevelRankOfRank(r) + 1)
  {
    if r % 2 == 1 {
      var m := r / 2;
      LevelDecompose(m);
      var o := LevelRankOfRank(m);
      var p := Pow2(Level(m));
      assert Pow2(Level(r)) == 2 * p;
      DecomposeStep(r, m, p, o);
      assert LevelRankOfRank(r) == o;
    } else {
      assert Pow2(Level(r)) == 1;
      assert LevelRankOfRank(r) == r / 2;
    }
  }

  /** The arithmetic of one step of LevelDecompose: if m + 1 == p (2o + 1), then
      2m + 2 == 2p (2o + 1), and the division recovers 2o + 1. */
  lemma DecomposeStep(r: nat, m: nat, p: nat, o: nat)
    requires r == 2 * m + 1 && p >= 1 && m + 1 == p * (2 * o + 1)
    ensures r + 1 == (2 * p) * (2 * o + 1)
    ensures (r + 1) / (2 * p) == 2 * o + 1
  {
    DoubleProduct(p, 2 * o + 1);
    DivModUnique(r + 1, 2 * p, 2 * o + 1, 0);
  }

  /** The rank of (k, o) lies on level k. */
  lemma {:induction false} LevelOfRank(k: nat, o: nat)
    ensures Level(RankOfLevelRank(k, o)) == k
    decreases k
  {
    if k > 0 {
      RankHalf(k, o);
      LevelOfRank(k - 1, o);
    }
  }

  /** The rank of (k, o) has level-rank o. */
  lemma LevelRankOfRankOf(k: nat, o: nat)
    ensures LevelRankOfRank(RankOfLevelRank(k, o)) == o
  {
    var r := RankOfLevelRank(k, o);
    LevelOfRank(k, o);
    RankStride(k, o);
    DivModUnique(r + 1, Pow2(k), 2 * o + 1, 0);
  }

  /** Round trip from a rank through (level, level-rank) and back. */
  lemma RankLevelRankRoundTrip(r: nat)
    ensures RankOfLevelRank(Level(r), LevelRankOfRank(r)) == r
  {
    LevelDecompose(r);
    RankStride(Level(r), LevelRankOfRank(r));
  }

  /** Round trip from (level, level-rank) through a rank and back. */
  lemma LevelRankRoundTrip(k: nat, o: nat)
    ensures Level(RankOfLevelRank(k, o)) == k
    ensures LevelRankOfRank(RankOfLevelRank(k, o)) == o
  {
    LevelOfRank(k, o);
    LevelRankOfRankOf(k, o);
  }

  /** A rank on level k has its low k bits set and bit k clear. */
  lemma LevelLowBits(r: nat)
    ensures r % Pow2(Level(r)) == Pow2(Level(r)) - 1
    ensures (r / Pow2(Level(r))) % 2 == 0
  {
    var p := Pow2(Level(r));
    var o := LevelRankOfRank(r);
    LevelDecompose(r);
    OddProduct(p, o);
    DivModUnique(r, p, 2 * o, p - 1);
  }

  /** A rank whose low k bits are set and whose bit k is clear lies on level k. */
  lemma LowBitsLevel(r: nat, k: nat)
    requires r % Pow2(k) == Pow2(k) - 1 && (r / Pow2(k)) % 2 == 0
    ensures Level(r) == k
  {
    var p := Pow2(k);
    var d := r / p;
    var j := d / 2;
    assert r == p * d + (p - 1);
    assert d == 2 * j;
    OddProduct(p, j);
    RankStride(k, j);
    LevelOfRank(k, j);
  }

  /** Level k means exactly: the low k bits of r are 1 and bit k is 0 (the number of
      trailing 1-bits). In particular the even ranks are exactly the leaves. */
  lemma LevelTrailingOnes(r: nat, k: nat)
    ensures Level(r) == k <==> (r % Pow2(k) == Pow2(k) - 1 && (r / Pow2(k)) % 2 == 0)
    ensures Level(r) == 0 <==> r % 2 == 0
  {
    if Level(r) == k {
      LevelLowBits(r);
    }
    if r % Pow2(k) == Pow2(k) - 1 && (r / Pow2(k)) % 2 == 0 {
      LowBitsLevel(r, k);
    }
  }

  // ---------------------------------------------------------------------------
  // Shape of the node (k, o)

  /** Children and leaf range of the node with level-rank o on level k. */
  lemma NodeShape(k: nat, o: nat)
    ensures Level(RankOfLevelRank(k, o)) == k
    ensures var n := RankOfLevelRank(k, o);
      && LeftmostLeaf(n, k) == Pow2(k + 1) * o
      && RightmostLeaf(n, k) == Pow2(k + 1) * o + Pow2(k + 1) - 2
      && n == Pow2(k + 1) * o + Pow2(k) - 1
    ensures k > 0 ==>
      && Left(RankOfLevelRank(k, o), k) == Some(RankOfLevelRank(k - 1, 2 * o))
      && Right(RankOfLevelRank(k, o), k) == Some(RankOfLevelRank(k - 1, 2 * o + 1))
  {
    LevelOfRank(k, o);
    RankStride(k, o);
    if k > 0 {
      RankChildren(k, o);
    }
  }

  /** The parent of the node (k, o), unless it is the root, is the node (k + 1, o / 2). */
  lemma ParentShape(root: nat, k: nat, o: nat)
    ensures Level(RankOfLevelRank(k, o)) == k
    ensures RankOfLevelRank(k, o) != root ==>
      Parent(root, RankOfLevelRank(k, o), k) == Some(RankOfLevelRank(k + 1, o / 2))
  {
    LevelOfRank(k, o);
    RankAbove(k, o);
    if o % 2 == 1 {
      RankParentOfRight(k, o / 2);
      assert o == 2 * (o / 2) + 1;
    } else {
      RankParentOfLeft(k, o / 2);
      assert o == 2 * (o / 2);
    }
  }

  /** The bits of the rank (k, o) above bit k spell o. */
  lemma RankAbove(k: nat, o: nat)
    ensures RankOfLevelRank(k, o) / Pow2(k + 1) == o
  {
    RankStride(k, o);
    DivModUnique(RankOfLevelRank(k, o), Pow2(k + 1), o, Pow2(k) - 1);
  }

  // ---------------------------------------------------------------------------
  // The same facts stated for an arbitrary rank

  /** Children of a node at level k > 0 are 2^(k-1) ranks away, one level down, and
      split its leaf range around it; a leaf (k == 0) has no children. */
  lemma ChildrenOfNode(n: nat, k: nat)
    requires k == Level(n)
    ensures k == 0 <==> Left(n, k).None?
    ensures k == 0 <==> Right(n, k).None?
    ensures k > 0 ==>
      && Left(n, k).value == n - Pow2(k - 1)
      && Right(n, k).value == n + Pow2(k - 1)
      && Level(Left(n, k).value) == k - 1
      && Level(Right(n, k).value) == k - 1
      && LeftmostLeaf(Left(n, k).value, k - 1) == LeftmostLeaf(n, k)
      && RightmostLeaf(Left(n, k).value, k - 1) == n - 1
      && LeftmostLeaf(Right(n, k).value, k - 1) == n + 1
      && RightmostLeaf(Right(n, k).value, k - 1) == RightmostLeaf(n, k)
  {
    RankLevelRankRoundTrip(n);
    var o := LevelRankOfRank(n);
    NodeShape(k, o);
    if k > 0 {
      NodeShape(k - 1, 2 * o);
      NodeShape(k - 1, 2 * o + 1);
    }
  }

  /** The parent of either child of the node (k, o) is the node itself. */
  lemma ParentOfChildrenAt(root: nat, k: nat, o: nat)
    requires k > 0
    ensures Level(RankOfLevelRank(k - 1, 2 * o)) == k - 1
    ensures Level(RankOfLevelRank(k - 1, 2 * o + 1)) == k - 1
    ensures RankOfLevelRank(k - 1, 2 * o) != root ==>
      Parent(root, RankOfLevelRank(k - 1, 2 * o), k - 1) == Some(RankOfLevelRank(k, o))
    ensures RankOfLevelRank(k - 1, 2 * o + 1) != root ==>
      Parent(root, RankOfLevelRank(k - 1, 2 * o + 1), k - 1) == Some(RankOfLevelRank(k, o))
  {
    ParentShape(root, k - 1, 2 * o);
    ParentShape(root, k - 1, 2 * o + 1);
    assert (2 * o) / 2 == o && (2 * o + 1) / 2 == o;
  }

  /** The parent of either child of a node is the node itself. */
  lemma ParentOfChildren(root: nat, n: nat, k: nat)
    requires k == Level(n) && k > 0
    ensures Level(Left(n, k).value) == k - 1 && Level(Right(n, k).value) == k - 1
    ensures Left(n, k).value != root ==> Parent(root, Left(n, k).value, k - 1) == Some(n)
    ensures Right(n, k).value != root ==> Parent(root, Right(n, k).value, k - 1) == Some(n)
  {
    var o := LevelRankOfRank(n);
    RankLevelRankRoundTrip(n);
    NodeShape(k, o);
    ParentOfChildrenAt(root, k, o);
  }

  /** The parent of a non-root node is one level up and has the node as a child;
      only the root has no parent. */
  lemma ChildOfParent(root: nat, n: nat, k: nat)
    requires k == Level(n)
    ensures Parent(root, n, k).None? <==> n == root
    ensures Parent(root, n, k).Some? ==>
      && Level(Parent(root, n, k).value) == k + 1
      && (Left(Parent(root, n, k).value, k + 1) == Some(n) ||
          Right(Parent(root, n, k).value, k + 1) == Some(n))
  {
    if n != root {
      RankLevelRankRoundTrip(n);
      var o := LevelRankOfRank(n);
      ParentShape(root, k, o);
      NodeShape(k + 1, o / 2);
      assert o == 2 * (o / 2) || o == 2 * (o / 2) + 1;
    }
  }

  /** A subtree is the contiguous rank range from its leftmost to its rightmost leaf,
      with the subtree root in the middle. */
  lemma {:induction false} SubtreeIsRange(n: nat, k: nat)
    requires k == Level(n)
    ensures forall x: nat :: x in SubtreeRanks(n, k) <==> LeftmostLeaf(n, k) <= x <= RightmostLeaf(n, k)
    decreases k
  {
    if k > 0 {
      ChildrenOfNode(n, k);
      var l := Left(n, k).value;
      var r := Right(n, k).value;
      SubtreeIsRange(l, k - 1);
      SubtreeIsRange(r, k - 1);
      RangeUnion(SubtreeRanks(n, k), SubtreeRanks(l, k - 1), SubtreeRanks(r, k - 1),
        LeftmostLeaf(n, k), n, RightmostLeaf(n, k));
    } else {
      assert LeftmostLeaf(n, k) == n == RightmostLeaf(n, k);
      RangeUnion(SubtreeRanks(n, k), {}, {}, n, n, n);
    }
  }

  /** A node joined with the ranges just below and just above it is one range. */
  lemma RangeUnion(s: set<nat>, below: set<nat>, above: set<nat>, lo: nat, n: nat, hi: nat)
    requires lo <= n <= hi && s == {n} + below + above
    requires forall x: nat :: x in below <==> lo <= x <= n - 1
    requires forall x: nat :: x in above <==> n + 1 <= x <= hi
    ensures forall x: nat :: x in s <==> lo <= x <= hi
  {
    forall x: nat
      ensures x in s <==> lo <= x <= hi
    {
      assert x in s <==> x == n || x in below || x in above;
    }
  }

  /** The leaf ranges of distinct nodes on one level are disjoint: the level-k node
      whose range holds x has level-rank x / 2^(k+1). */
  lemma SameLevelContainment(a: nat, b: nat, k: nat, x: nat)
    requires k == Level(a) && k == Level(b)
    requires LeftmostLeaf(a, k) <= x <= RightmostLeaf(a, k)
    requires LeftmostLeaf(b, k) <= x <= RightmostLeaf(b, k)
    ensures a == b
  {
    var oa := LevelRankOfRank(a);
    var ob := LevelRankOfRank(b);
    RankLevelRankRoundTrip(a);
    RankLevelRankRoundTrip(b);
    NodeShape(k, oa);
    NodeShape(k, ob);
    var w := Pow2(k + 1);
    DivModUnique(x, w, oa, x - w * oa);
    DivModUnique(x, w, ob, x - w * ob);
  }

  // ---------------------------------------------------------------------------
  // The tree of height R, with root 2^R - 1 and ranks below 2^(R+1) - 1

  /** The root 2^R - 1 lies on level R and spans ranks 0 .. 2^(R+1) - 2. */
  lemma RootShape(rootLevel: nat, root: nat)
    requires root == Pow2(rootLevel) - 1
    ensures Level(root) == rootLevel
    ensures LeftmostLeaf(root, rootLevel) == 0
    ensures RightmostLeaf(root, rootLevel) == Pow2(rootLevel + 1) - 2
  {
    LevelOfRank(rootLevel, 0);
    RankOfRoot(rootLevel);
  }

  /** A rank inside the tree of height R has level at most R, and its whole
      subtree lies inside the tree. */
  lemma InTree(n: nat, rootLevel: nat)
    requires n < Pow2(rootLevel + 1) - 1
    ensures Level(n) <= rootLevel
    ensures RightmostLeaf(n, Level(n)) <= Pow2(rootLevel + 1) - 2
  {
    var k := Level(n);
    LevelBound(n);
    if k > rootLevel {
      Pow2Monotone(rootLevel + 1, k);
    } else {
      var o := LevelRankOfRank(n);
      RankLevelRankRoundTrip(n);
      NodeShape(k, o);
      Pow2Add(k + 1, rootLevel - k);
      StrideFits(Pow2(k + 1), o, Pow2(rootLevel - k));
    }
  }

  /** Climbing from a non-root rank inside the tree stays inside the tree, and the
      parent's range contains the child's. */
  lemma ParentInTree(rootLevel: nat, n: nat)
    requires n < Pow2(rootLevel + 1) - 1
    requires n != Pow2(rootLevel) - 1
    ensures Level(n) < rootLevel
    ensures Parent(Pow2(rootLevel) - 1, n, Level(n)).Some?
    ensures var p := Parent(Pow2(rootLevel) - 1, n, Level(n)).value;
      && p < Pow2(rootLevel + 1) - 1
      && Level(p) == Level(n) + 1
      && LeftmostLeaf(p, Level(p)) <= LeftmostLeaf(n, Level(n))
      && RightmostLeaf(n, Level(n)) <= RightmostLeaf(p, Level(p))
  {
    var root := Pow2(rootLevel) - 1;
    var k := Level(n);
    InTree(n, rootLevel);
    RootShape(rootLevel, root);
    if k == rootLevel {
      SameLevelContainment(n, root, k, n);
    }
    ChildOfParent(root, n, k);
    ParentCovers(Parent(root, n, k).value, k + 1, n, rootLevel);
  }

  /** A parent on a level no higher than R, of a child inside the tree of height R,
      is inside that tree too, and its range contains the child's. */
  lemma ParentCovers(p: nat, kp: nat, n: nat, rootLevel: nat)
    requires kp == Level(p) && 0 < kp <= rootLevel && Level(n) == kp - 1
    requires Left(p, kp) == Some(n) || Right(p, kp) == Some(n)
    requires RightmostLeaf(n, kp - 1) <= Pow2(rootLevel + 1) - 2
    ensures p < Pow2(rootLevel + 1) - 1
    ensures LeftmostLeaf(p, kp) <= LeftmostLeaf(n, kp - 1)
    ensures RightmostLeaf(n, kp - 1) <= RightmostLeaf(p, kp)
  {
    ChildrenOfNode(p, kp);
    if Left(p, kp) == Some(n) {
      // p sits just above n's rightmost leaf, and rank 2^(R+1) - 1 is on level R + 1
      RootShape(rootLevel + 1, Pow2(rootLevel + 1) - 1);
    }
  }
}
