/**
  The interpolation index `iitii`: the implicit interval tree with a second
  augmentation, `outside_max_end`, and a query that starts from a predicted
  node and climbs towards the root only as far as it must before scanning.

  A node n whose subtree covers the ranks [l, r] may stop the climb when no item
  outside [l, r] can overlap the query: the items outside that begin before n
  end no later than n's `outside_max_end`, and those that begin no earlier than
  n begin no earlier than n's `outside_min_beg`. The first is stored; the second
  is read off the sorted array in constant time.

  The prediction model splits the positions from the first beg onwards into
  equal-width domains; each domain has a trained level (or none) and a
  floating-point estimate of the level-rank to start from. The estimate is a
  parameter here, so every claim below holds whatever it returns.
 */
module Iitii {
  import opened Arith
  import opened Options
  import opened Geometry
  import opened Intervals
  import opened ImplicitTree
  import opened TreeScan

  /** The index: the augmented tree, each node's `outside_max_end`, and the
      prediction model — the number of domains, where the first one starts, their
      width, and each domain's trained level (negative where training kept none). */
  datatype Index = Index(tree: Tree, ome: seq<int>, domains: nat, minBeg: int, domainSize: int, levels: seq<int>)

  // ---------------------------------------------------------------------------
  // The outside of a subtree

  /** Rank m lies outside the subtree rooted at n. */
  predicate Outside(n: nat, m: nat)
  {
    m < LeftmostLeaf(n, Level(n)) || RightmostLeaf(n, Level(n)) < m
  }

  /** Real rank m lies outside n's subtree and begins before n. */
  ghost predicate OutsideBefore(items: seq<Interval>, n: nat, m: nat)
    requires n < |items| && m < |items|
  {
    Outside(n, m) && items[m].beg < items[n].beg
  }

  /** Real rank m lies outside n's subtree and begins no earlier than n. */
  ghost predicate OutsideFrom(items: seq<Interval>, n: nat, m: nat)
    requires n < |items| && m < |items|
  {
    Outside(n, m) && items[m].beg >= items[n].beg
  }

  /** v is n's `outside_max_end`: the largest end among the items outside n's
      subtree that begin before n, or PosMin (minus infinity) when there are none. */
  ghost predicate IsOutsideMaxEnd(items: seq<Interval>, n: nat, v: int)
    requires n < |items|
  {
    && (forall m :: 0 <= m < |items| && OutsideBefore(items, n, m) ==> items[m].end <= v)
    && (|| (exists m :: 0 <= m < |items| && OutsideBefore(items, n, m) && items[m].end == v)
        || (v == PosMin && forall m :: 0 <= m < |items| ==> !OutsideBefore(items, n, m)))
  }

  /** v is n's `outside_min_beg`: the smallest beg among the items outside n's
      subtree that begin no earlier than n, or PosMax (plus infinity) when there
      are none. */
  ghost predicate IsOutsideMinBeg(items: seq<Interval>, n: nat, v: int)
    requires n < |items|
  {
    && (forall m :: 0 <= m < |items| && OutsideFrom(items, n, m) ==> v <= items[m].beg)
    && (|| (exists m :: 0 <= m < |items| && OutsideFrom(items, n, m) && items[m].beg == v)
        || (v == PosMax && forall m :: 0 <= m < |items| ==> !OutsideFrom(items, n, m)))
  }

  // ---------------------------------------------------------------------------
  // outside_min_beg

  /** `iitii::outside_min_beg` for the real node n on level k: the beg of the rank
      just past n's subtree (PosMax past the array), except that when the rank just
      before the subtree begins where n does, n's own beg. */
  function OutsideMinBeg(items: seq<Interval>, n: nat, k: nat): int
    requires n < |items| && k == Level(n)
  {
    var l := LeftmostLeaf(n, k);
    var r := RightmostLeaf(n, k);
    if l > 0 && items[l - 1].beg == items[n].beg then items[n].beg
    else if r < |items| - 1 then items[r + 1].beg
    else PosMax
  }

  /** In beg order the constant-time lookup is the minimum it stands for: the tie
      case finds an outside item beginning exactly at n, and otherwise every item
      left of the subtree begins strictly before n, so the first item right of the
      subtree is the least that does not. */
  lemma OutsideMinBegIsMin(items: seq<Interval>, n: nat, k: nat)
    requires SortedByBeg(items)
    requires n < |items| && k == Level(n)
    ensures IsOutsideMinBeg(items, n, OutsideMinBeg(items, n, k))
  {
    var l := LeftmostLeaf(n, k);
    var r := RightmostLeaf(n, k);
    var v := OutsideMinBeg(items, n, k);
    if l > 0 && items[l - 1].beg == items[n].beg {
      assert OutsideFrom(items, n, l - 1);
    } else {
      forall m | 0 <= m < l
        ensures items[m].beg < items[n].beg
      {
        assert BegOrdered(items, m, l - 1) && BegOrdered(items, l - 1, n);
      }
      if r < |items| - 1 {
        assert BegOrdered(items, n, r + 1);
        assert OutsideFrom(items, n, r + 1);
        forall m | 0 <= m < |items| && OutsideFrom(items, n, m)
          ensures v <= items[m].beg
        {
          if r < m {
            assert BegOrdered(items, r + 1, m);
          }
        }
      } else {
        forall m | 0 <= m < |items|
          ensures !OutsideFrom(items, n, m)
        {
        }
      }
    }
  }

  // ---------------------------------------------------------------------------
  // outside_max_end

  /** The running maximum of the ends along the sorted array: entry i is the
      largest end among ranks 0 to i. */
  method RunningMaxEnd(items: seq<Interval>) returns (rme: seq<int>)
    requires |items| > 0
    ensures |rme| == |items|
    ensures forall i :: 0 <= i < |items| ==> rme[i] == MaxEnd(items, 0, i + 1)
  {
    rme := [items[0].end];
    var n := 1;
    while n < |items|
      invariant 1 <= n <= |items| && |rme| == n
      invariant forall i :: 0 <= i < n ==> rme[i] == MaxEnd(items, 0, i + 1)
    {
      MaxEndSplit(items, 0, n, n + 1);
      rme := rme + [Max(rme[n - 1], items[n].end)];
      n := n + 1;
    }
  }

  /** The constructor's fill of `outside_max_end`. A node whose subtree starts at
      rank 0 keeps PosMin. Otherwise the search steps left from the rank just
      before the subtree past the ranks that tie with the node's beg; if it lands
      on a rank that begins strictly earlier, the running maximum there is the
      value, and if it runs into rank 0 still tied, PosMin. */
  method OutsideMaxEnds(items: seq<Interval>, rme: seq<int>) returns (ome: seq<int>)
    requires SortedByBeg(items) && |items| > 0
    requires |rme| == |items|
    requires forall i :: 0 <= i < |items| ==> rme[i] == MaxEnd(items, 0, i + 1)
    ensures |ome| == |items|
    ensures forall n :: 0 <= n < |items| ==> IsOutsideMaxEnd(items, n, ome[n])
  {
    ome := seq(|items|, _ => PosMin);
    var n := 0;
    while n < |items|
      invariant n <= |items| && |ome| == |items|
      invariant forall m :: 0 <= m < n ==> IsOutsideMaxEnd(items, m, ome[m])
      invariant forall m :: n <= m < |items| ==> ome[m] == PosMin
    {
      var l := LeftmostLeaf(n, Level(n));
      if l > 0 {
        var leq := l - 1;
        while items[leq].beg == items[n].beg
          invariant leq < l
          invariant forall i :: leq < i < l ==> items[i].beg == items[n].beg
          decreases leq
        {
          if leq == 0 {
            break;
          }
          leq := leq - 1;
        }
        assert BegOrdered(items, leq, n);
        if items[leq].beg < items[n].beg {
          BeforeIsPrefix(items, n, leq);
          PrefixBefore(items, n, leq);
          ome := ome[n := rme[leq]];
        } else {
          TiedToStart(items, n);
          ome := ome[n := PosMin];
        }
      } else {
        TiedToStart(items, n);
      }
      n := n + 1;
    }
  }

  /** When rank leq, left of n's subtree, begins before n and every rank between it
      and the subtree ties with n, the outside items beginning before n are
      exactly the ranks 0 to leq. */
  lemma BeforeIsPrefix(items: seq<Interval>, n: nat, leq: nat)
    requires SortedByBeg(items) && n < |items|
    requires leq < LeftmostLeaf(n, Level(n))
    requires forall i :: leq < i < LeftmostLeaf(n, Level(n)) ==> items[i].beg == items[n].beg
    requires items[leq].beg < items[n].beg
    ensures forall m :: 0 <= m < |items| ==> (OutsideBefore(items, n, m) <==> m <= leq)
  {
    forall m | 0 <= m < |items|
      ensures OutsideBefore(items, n, m) <==> m <= leq
    {
      if m <= leq {
        assert BegOrdered(items, m, leq);
      } else if n < m {
        assert BegOrdered(items, n, m);
      }
    }
  }

  /** ... and so the largest end among them is the maximum over ranks 0 to leq. */
  lemma PrefixBefore(items: seq<Interval>, n: nat, leq: nat)
    requires n < |items| && leq < |items|
    requires forall m :: 0 <= m < |items| ==> (OutsideBefore(items, n, m) <==> m <= leq)
    ensures IsOutsideMaxEnd(items, n, MaxEnd(items, 0, leq + 1))
  {
    var v := MaxEnd(items, 0, leq + 1);
    MaxEndIsMax(items, 0, leq + 1);
    var w :| 0 <= w < leq + 1 && items[w].end == v;
    assert OutsideBefore(items, n, w);
  }

  /** When every rank left of n's subtree ties with n, no outside item begins
      before n. */
  lemma TiedToStart(items: seq<Interval>, n: nat)
    requires SortedByBeg(items) && n < |items|
    requires forall i :: 0 <= i < LeftmostLeaf(n, Level(n)) ==> items[i].beg == items[n].beg
    ensures IsOutsideMaxEnd(items, n, PosMin)
  {
    var r := RightmostLeaf(n, Level(n));
    forall m | 0 <= m < |items|
      ensures !OutsideBefore(items, n, m)
    {
      if r < m {
        assert BegOrdered(items, n, m);
      }
    }
  }

  // ---------------------------------------------------------------------------
  // The index and its prediction model

  /** The domain layout the constructor fixes: at least one domain; for a
      non-empty array the domains start at the first beg and are wide enough that
      `domains` of them cover the last beg; for an empty one both are PosMax. */
  ghost predicate DomainsLaidOut(ix: Index)
  {
    && ix.domains >= 1
    && ix.domainSize >= 1
    && (|ix.tree.items| == 0 ==> ix.minBeg == PosMax && ix.domainSize == PosMax)
    && (|ix.tree.items| > 0 ==>
      && ix.minBeg == ix.tree.items[0].beg
      && ix.domainSize == 1 + (ix.tree.items[|ix.tree.items| - 1].beg - ix.minBeg) / ix.domains)
  }

  /** A well-formed index: a valid tree, exact `outside_max_end` values, the
      constructor's domain layout, and one level per domain, each below the root's
      level (training only ever keeps such a level). */
  ghost predicate ValidIndex(ix: Index)
  {
    && Valid(ix.tree)
    && |ix.ome| == |ix.tree.items|
    && (forall n :: 0 <= n < |ix.ome| ==> IsOutsideMaxEnd(ix.tree.items, n, ix.ome[n]))
    && DomainsLaidOut(ix)
    && |ix.levels| == ix.domains
    && (forall d :: 0 <= d < |ix.levels| ==> ix.levels[d] < ix.tree.rootLevel)
  }

  /** Position beg falls in domain d: the d-th slice of width `domainSize` from
      `minBeg`, where the first domain also takes everything below `minBeg` and
      the last everything above its start. */
  ghost predicate InDomain(ix: Index, beg: int, d: nat)
  {
    && d < ix.domains
    && (d == 0 || ix.minBeg + ix.domainSize * d <= beg)
    && (d + 1 == ix.domains || beg < ix.minBeg + ix.domainSize * d + ix.domainSize)
  }

  /** `iitii::which_domain`. */
  function WhichDomain(ix: Index, beg: int): (d: nat)
    requires ix.domains >= 1 && ix.domainSize >= 1
    ensures d < ix.domains
  {
    if beg < ix.minBeg then 0
    else Min(ix.domains - 1, (beg - ix.minBeg) / ix.domainSize)
  }

  /** The domain found is the one whose slice holds the position, and only that. */
  lemma WhichDomainIsSlice(ix: Index, beg: int, d: nat)
    requires ix.domains >= 1 && ix.domainSize >= 1 && d < ix.domains
    ensures WhichDomain(ix, beg) == d <==> InDomain(ix, beg, d)
  {
    var ds := ix.domainSize;
    if beg < ix.minBeg {
      if d > 0 {
        MulMonotone(ds, 1, d);
      }
    } else {
      var x := beg - ix.minBeg;
      DivAtLeast(x, ds, d);
      DivAtLeast(x, ds, d + 1);
      assert ds * (d + 1) == ds * d + ds;
    }
  }

  /** Domains are laid out left to right: a later position never falls in an
      earlier domain. */
  lemma WhichDomainMonotone(ix: Index, a: int, b: int)
    requires ix.domains >= 1 && ix.domainSize >= 1 && a <= b
    ensures WhichDomain(ix, a) <= WhichDomain(ix, b)
  {
    if a >= ix.minBeg {
      var q := (a - ix.minBeg) / ix.domainSize;
      DivAtLeast(a - ix.minBeg, ix.domainSize, q);
      DivAtLeast(b - ix.minBeg, ix.domainSize, q);
    }
  }

  /** The domains are wide enough: every item's beg lies at or after the first
      domain's start, and its slice index is below the number of domains, so the
      clamp to the last domain never acts on an item. */
  lemma ItemDomainUnclamped(ix: Index, i: nat)
    requires ValidIndex(ix) && i < |ix.tree.items|
    ensures ix.tree.items[i].beg >= ix.minBeg
    ensures (ix.tree.items[i].beg - ix.minBeg) / ix.domainSize < ix.domains
  {
    var items := ix.tree.items;
    var last := |items| - 1;
    var c := ix.domains;
    var span := items[last].beg - ix.minBeg;
    var x := items[i].beg - ix.minBeg;
    assert BegOrdered(items, 0, i) && BegOrdered(items, i, last);
    assert span == c * (span / c) + span % c;
    assert ix.domainSize * c == c + c * (span / c);
    DivAtLeast(x, ix.domainSize, c);
  }

  /** `iitii::interpolate` once its floating-point estimate has been rounded and
      clamped at zero to the level-rank ofs: the node with that level-rank on level
      k, or, when that rank is past the array, the rightmost real leaf. */
  function Interpolate(size: nat, k: nat, ofs: nat): (r: nat)
    requires size > 0
    ensures r < size
    ensures RankOfLevelRank(k, ofs) < size <==> Level(r) == k && LevelRankOfRank(r) == ofs
    ensures RankOfLevelRank(k, ofs) >= size ==> Level(r) == 0 && r + 2 >= size
  {
    LevelRankRoundTrip(k, ofs);
    var r := RankOfLevelRank(k, ofs);
    if r < size then r
    else
      RankLevelRankRoundTrip(RightmostRealLeaf(size));
      RightmostRealLeaf(size)
  }

  /** `iitii::predict`: qbeg's domain supplies a level; with none, there is no
      prediction, and otherwise the domain's estimate picks the level-rank on it.
      A prediction is always a real rank, and so lies inside the tree. */
  function Predict(ix: Index, estimate: (nat, int) -> nat, qbeg: int): (p: Option<nat>)
    requires ValidIndex(ix)
    ensures p.Some? ==> p.value < |ix.tree.items| && p.value < TreeSpan(ix.tree)
    ensures p.None? <==> ix.levels[WhichDomain(ix, qbeg)] < 0
  {
    var d := WhichDomain(ix, qbeg);
    var k := ix.levels[d];
    if k < 0 then None
    else
      var p := Interpolate(|ix.tree.items|, k, estimate(d, qbeg));
      RealInTree(|ix.tree.items|, ix.tree.rootLevel, ix.tree.fullSize, ix.tree.root, p);
      Some(p)
  }

  // ---------------------------------------------------------------------------
  // The query

  /** The climb goes on from node n on level k while n is imaginary, or an item
      left of n's subtree may still reach past qbeg, or one right of it may begin
      before qend. */
  predicate KeepClimbing(ix: Index, n: nat, k: nat, qbeg: int, qend: int)
    requires |ix.ome| == |ix.tree.items| && k == Level(n)
  {
    n >= |ix.tree.items| || qbeg < ix.ome[n] || OutsideMinBeg(ix.tree.items, n, k) < qend
  }

  /** The climb of `iitii::overlap` from node n on level k: parent by parent until
      the root or a node where stopping is safe. It ends on an ancestor of n (or n
      itself) inside the tree, whose leaf range covers n's, and it does not move
      at all when n is already a place to stop; every node it passes on the way
      had to go on. */
  function Climb(ix: Index, n: nat, k: nat, qbeg: int, qend: int): (c: (nat, nat))
    requires Shaped(ix.tree) && |ix.ome| == |ix.tree.items|
    requires k == Level(n) && n < TreeSpan(ix.tree)
    ensures c.1 == Level(c.0) && c.0 < TreeSpan(ix.tree)
    ensures k <= c.1 <= ix.tree.rootLevel
    ensures c.0 == ix.tree.root || !KeepClimbing(ix, c.0, c.1, qbeg, qend)
    ensures LeftmostLeaf(c.0, c.1) <= LeftmostLeaf(n, k) && RightmostLeaf(n, k) <= RightmostLeaf(c.0, c.1)
    ensures (n == ix.tree.root || !KeepClimbing(ix, n, k, qbeg, qend)) ==> c == (n, k)
    ensures ClimbsPast(ix, n, k, qbeg, qend, c.1)
    decreases ix.tree.rootLevel - k
  {
    InTree(n, ix.tree.rootLevel);
    if n == ix.tree.root || !KeepClimbing(ix, n, k, qbeg, qend) then (n, k)
    else
      ParentInTree(ix.tree.rootLevel, n);
      Climb(ix, Parent(ix.tree.root, n, k).value, k + 1, qbeg, qend)
  }

  /** One step of the climb: from a node where it may not stop, it goes on from
      the parent. */
  lemma ClimbStep(ix: Index, n: nat, k: nat, qbeg: int, qend: int)
    requires Shaped(ix.tree) && |ix.ome| == |ix.tree.items|
    requires k == Level(n) && n < TreeSpan(ix.tree)
    requires n != ix.tree.root && KeepClimbing(ix, n, k, qbeg, qend)
    ensures Parent(ix.tree.root, n, k).Some?
    ensures var p := Parent(ix.tree.root, n, k).value;
      && Level(p) == k + 1 && p < TreeSpan(ix.tree)
      && Climb(ix, n, k, qbeg, qend) == Climb(ix, p, k + 1, qbeg, qend)
  {
    InTree(n, ix.tree.rootLevel);
    ParentInTree(ix.tree.rootLevel, n);
    var p := Parent(ix.tree.root, n, k).value;
    assert Level(p) == k + 1 && p < TreeSpan(ix.tree);
    assert !(n == ix.tree.root || !KeepClimbing(ix, n, k, qbeg, qend));
    assert Climb(ix, n, k, qbeg, qend) == Climb(ix, p, k + 1, qbeg, qend);
  }

  /** The climb from n on level k goes on through every level below e: n and each
      parent after it, up to level e - 1, is not the root and may not stop. */
  ghost predicate ClimbsPast(ix: Index, n: nat, k: nat, qbeg: int, qend: int, e: nat)
    requires Shaped(ix.tree) && |ix.ome| == |ix.tree.items|
    requires k == Level(n) && n < TreeSpan(ix.tree)
    decreases e - k
  {
    if k >= e then true
    else if n == ix.tree.root || !KeepClimbing(ix, n, k, qbeg, qend) then false
    else
      ParentUp(ix.tree.rootLevel, n);
      ClimbsPast(ix, Parent(ix.tree.root, n, k).value, k + 1, qbeg, qend, e)
  }

  /** The parent of a node other than the root: one level up, inside the tree. */
  lemma ParentUp(rootLevel: nat, n: nat)
    requires n < Pow2(rootLevel + 1) - 1
    requires n != Pow2(rootLevel) - 1
    ensures Parent(Pow2(rootLevel) - 1, n, Level(n)).Some?
    ensures var p := Parent(Pow2(rootLevel) - 1, n, Level(n)).value;
      p < Pow2(rootLevel + 1) - 1 && Level(p) == Level(n) + 1
  {
    ParentInTree(rootLevel, n);
  }

  /** A node a on a level j from k up to (not including) e that covers a leaf x
      under n lies on the path of a climb that goes past e, so it is not the root
      and may not stop. */
  lemma {:induction false} PassedNodes(ix: Index, n: nat, k: nat, qbeg: int, qend: int, e: nat, x: nat, a: nat, j: nat)
    requires Shaped(ix.tree) && |ix.ome| == |ix.tree.items|
    requires k == Level(n) && n < TreeSpan(ix.tree)
    requires ClimbsPast(ix, n, k, qbeg, qend, e)
    requires LeftmostLeaf(n, k) <= x <= RightmostLeaf(n, k)
    requires j == Level(a) && LeftmostLeaf(a, j) <= x <= RightmostLeaf(a, j)
    requires k <= j < e
    ensures a != ix.tree.root && KeepClimbing(ix, a, j, qbeg, qend)
    decreases j - k
  {
    InTree(n, ix.tree.rootLevel);
    ParentInTree(ix.tree.rootLevel, n);
    var p := Parent(ix.tree.root, n, k).value;
    assert n != ix.tree.root && KeepClimbing(ix, n, k, qbeg, qend) && ClimbsPast(ix, p, k + 1, qbeg, qend, e);
    if j == k {
      SameLevelContainment(a, n, k, x);
    } else {
      PassedNodes(ix, p, k + 1, qbeg, qend, e, x, a, j);
    }
  }

  /** The climb stops at the first place it may: every node it passes on the way
      is not the root and has to go on. This is the loop condition of
      `iitii::overlap` read as a property of the nodes the loop visits. */
  lemma ClimbIsFirst(ix: Index, n: nat, k: nat, qbeg: int, qend: int, x: nat)
    requires Shaped(ix.tree) && |ix.ome| == |ix.tree.items|
    requires k == Level(n) && n < TreeSpan(ix.tree)
    requires LeftmostLeaf(n, k) <= x <= RightmostLeaf(n, k)
    ensures forall a: nat ::
      k <= Level(a) < Climb(ix, n, k, qbeg, qend).1 && LeftmostLeaf(a, Level(a)) <= x <= RightmostLeaf(a, Level(a))
      ==> a != ix.tree.root && KeepClimbing(ix, a, Level(a), qbeg, qend)
  {
    forall a: nat | k <= Level(a) < Climb(ix, n, k, qbeg, qend).1 && LeftmostLeaf(a, Level(a)) <= x <= RightmostLeaf(a, Level(a))
      ensures a != ix.tree.root && KeepClimbing(ix, a, Level(a), qbeg, qend)
    {
      PassedNodes(ix, n, k, qbeg, qend, Climb(ix, n, k, qbeg, qend).1, x, a, Level(a));
    }
  }

  /** `iitii::overlap`: without a prediction, the base query from the root;
      otherwise climb from the predicted rank and scan the subtree reached, adding
      three to the cost for every level climbed. */
  function IitiiOverlap(ix: Index, estimate: (nat, int) -> nat, qbeg: int, qend: int): (res: ScanResult)
    requires ValidIndex(ix)
    ensures |res.hits| <= res.cost
  {
    match Predict(ix, estimate, qbeg)
    case None => Overlap(ix.tree, qbeg, qend)
    case Some(p) =>
      var c := Climb(ix, p, Level(p), qbeg, qend);
      var s := Scan(ix.tree, c.0, c.1, qbeg, qend);
      ScanResult(s.hits, s.cost + 3 * (c.1 - Level(p)))
  }

  /** At a real node where the climb may stop, no item outside the subtree
      overlaps the query: one that begins before the node ends by
      `outside_max_end`, which is at most qbeg, and one that begins no earlier
      begins at or after `outside_min_beg`, which is at least qend. */
  lemma OutsideMisses(items: seq<Interval>, n: nat, k: nat, ome: int, qbeg: int, qend: int)
    requires SortedByBeg(items)
    requires n < |items| && k == Level(n)
    requires IsOutsideMaxEnd(items, n, ome)
    requires ome <= qbeg && qend <= OutsideMinBeg(items, n, k)
    ensures forall m :: 0 <= m < |items| && (m < LeftmostLeaf(n, k) || RightmostLeaf(n, k) + 1 <= m) ==>
      !Overlaps(items[m], qbeg, qend)
  {
    OutsideMinBegIsMin(items, n, k);
    forall m | 0 <= m < |items| && (m < LeftmostLeaf(n, k) || RightmostLeaf(n, k) + 1 <= m)
      ensures !Overlaps(items[m], qbeg, qend)
    {
      if items[m].beg < items[n].beg {
        assert OutsideBefore(items, n, m);
      } else {
        assert OutsideFrom(items, n, m);
      }
    }
  }

  /** So at such a node the whole array matches what the subtree's range matches. */
  lemma StopIsSound(items: seq<Interval>, n: nat, k: nat, ome: int, qbeg: int, qend: int)
    requires SortedByBeg(items)
    requires n < |items| && k == Level(n)
    requires IsOutsideMaxEnd(items, n, ome)
    requires ome <= qbeg && qend <= OutsideMinBeg(items, n, k)
    ensures Matches(items, 0, |items|, qbeg, qend) ==
            Matches(items, LeftmostLeaf(n, k), RightmostLeaf(n, k) + 1, qbeg, qend)
  {
    OutsideMisses(items, n, k, ome, qbeg, qend);
    MatchesWithin(items, LeftmostLeaf(n, k), RightmostLeaf(n, k) + 1, qbeg, qend);
  }

  /** Wherever the climb ends, scanning from there reports what the brute force
      reports over the whole array. */
  lemma ClimbEndAgrees(ix: Index, n: nat, k: nat, qbeg: int, qend: int)
    requires ValidIndex(ix)
    requires k == Level(n) && n < TreeSpan(ix.tree)
    requires n == ix.tree.root || !KeepClimbing(ix, n, k, qbeg, qend)
    ensures Scan(ix.tree, n, k, qbeg, qend).hits == Matches(ix.tree.items, 0, |ix.tree.items|, qbeg, qend)
  {
    ScanMatches(ix.tree, n, k, qbeg, qend);
    if n == ix.tree.root {
      RootShape(ix.tree.rootLevel, ix.tree.root);
      RootAgrees(ix.tree, qbeg, qend);
    } else {
      assert IsOutsideMaxEnd(ix.tree.items, n, ix.ome[n]);
      StopIsSound(ix.tree.items, n, k, ix.ome[n], qbeg, qend);
    }
  }

  /** The climb-then-scan query answers exactly as the query from the root —
      the overlapping ranks in ascending order — whatever rank the model
      predicts. */
  lemma IitiiOverlapCorrect(ix: Index, estimate: (nat, int) -> nat, qbeg: int, qend: int)
    requires ValidIndex(ix)
    ensures IitiiOverlap(ix, estimate, qbeg, qend).hits == Overlap(ix.tree, qbeg, qend).hits
    ensures IitiiOverlap(ix, estimate, qbeg, qend).hits == Matches(ix.tree.items, 0, |ix.tree.items|, qbeg, qend)
  {
    OverlapCorrect(ix.tree, qbeg, qend);
    var pr := Predict(ix, estimate, qbeg);
    if pr.Some? {
      var p := pr.value;
      var c := Climb(ix, p, Level(p), qbeg, qend);
      ClimbEndAgrees(ix, c.0, c.1, qbeg, qend);
    }
  }

  // ---------------------------------------------------------------------------
  // Construction

  /** The level kept for each of the domains: the trained one when the array is
      not empty and that level lies below the root's, and no level (-1) otherwise. */
  function KeptLevels(nonEmpty: bool, rootLevel: nat, domains: nat, trained: seq<int>): (levels: seq<int>)
    ensures |levels| == domains
    ensures forall d :: 0 <= d < domains ==> levels[d] < rootLevel
    ensures !nonEmpty ==> forall d :: 0 <= d < domains ==> levels[d] < 0
  {
    seq(domains, d requires 0 <= d < domains =>
      if nonEmpty && d < |trained| && 0 <= trained[d] < rootLevel then trained[d] else -1)
  }

  /** The `iitii` constructor over items already in beg order: build the tree, lay
      out max(1, domainsArg) domains, fill `outside_max_end`, and keep for each
      domain the level training settled on. Training's cost-based choice is the
      parameter `trained`; a level is kept only when it lies below the root's
      level, as training requires, and an empty array is never trained. */
  method BuildIndex(items: seq<Interval>, domainsArg: nat, trained: seq<int>) returns (ix: Index)
    requires AdjacentSortedByBeg(items)
    ensures ValidIndex(ix) && ix.tree.items == items
    ensures ix.domains == Max(1, domainsArg)
    ensures |items| == 0 ==> forall d :: 0 <= d < ix.domains ==> ix.levels[d] < 0
  {
    var t := Build(items);
    var domains: nat := Max(1, domainsArg);
    var levels := KeptLevels(|items| > 0, t.rootLevel, domains, trained);
    if |items| == 0 {
      return Index(t, [], domains, PosMax, PosMax, levels);
    }
    var last := |items| - 1;
    assert BegOrdered(items, 0, last);
    var domainSize := 1 + (items[last].beg - items[0].beg) / domains;
    var rme := RunningMaxEnd(items);
    var ome := OutsideMaxEnds(items, rme);
    ix := Index(t, ome, domains, items[0].beg, domainSize, levels);
  }
}
