/**
  Items, their order and the two reference computations the tree is proved
  against: the overlap filter over a rank range and the maximum `end` over a
  rank range. Positions are integers; the sentinels are the limits of a signed
  64-bit position type, which is what `std::numeric_limits<Pos>` gives for it.
 */
module Intervals {
  import opened Arith

  /** `std::numeric_limits<Pos>::min()`: "minus infinity" for `outside_max_end`. */
  const PosMin: int := -0x8000_0000_0000_0000
  /** `std::numeric_limits<Pos>::max()`: "plus infinity" for `outside_min_beg`. */
  const PosMax: int := 0x7FFF_FFFF_FFFF_FFFF

  /** An item as the tree sees it: the half-open interval [beg, end). */
  datatype Interval = Interval(beg: int, end: int)

  /** `iit_node_base::operator<`: by beg, ties broken by end. */
  predicate Less(a: Interval, b: Interval)
  {
    if a.beg == b.beg then a.end < b.end else a.beg < b.beg
  }

  /** The order the builder's sort establishes. */
  ghost predicate Sorted(s: seq<Interval>)
  {
    forall i, j :: 0 <= i < j < |s| ==> !Less(s[j], s[i])
  }

  /** The order every query relies on (and the constructor checks): beg ascending. */
  ghost predicate SortedByBeg(s: seq<Interval>)
  {
    forall i, j :: 0 <= i <= j < |s| ==> BegOrdered(s, i, j)
  }

  /** Rank i begins no later than rank j. */
  predicate BegOrdered(s: seq<Interval>, i: nat, j: nat)
    requires i < |s| && j < |s|
  {
    s[i].beg <= s[j].beg
  }

  /** The constructor's debug assertion: each neighbour pair in beg order. */
  ghost predicate AdjacentSortedByBeg(s: seq<Interval>)
  {
    forall r :: 0 <= r < |s| - 1 ==> s[r].beg <= s[r + 1].beg
  }

  /** An item overlaps the query [qbeg, qend). */
  predicate Overlaps(it: Interval, qbeg: int, qend: int)
  {
    it.beg < qend && it.end > qbeg
  }

  /** The ranks in [lo, hi) that exist and overlap the query, in ascending order:
      the brute-force answer every scan is compared with. */
  function Matches(s: seq<Interval>, lo: nat, hi: nat, qbeg: int, qend: int): seq<nat>
    decreases hi - lo
  {
    if lo >= hi || lo >= |s| then []
    else (if Overlaps(s[lo], qbeg, qend) then [lo] else []) + Matches(s, lo + 1, hi, qbeg, qend)
  }

  /** The largest end among the ranks [lo, hi). */
  function MaxEnd(s: seq<Interval>, lo: nat, hi: nat): int
    requires lo < hi <= |s|
    decreases hi - lo
  {
    if lo + 1 == hi then s[lo].end else Max(s[lo].end, MaxEnd(s, lo + 1, hi))
  }

  // ---------------------------------------------------------------------------
  // Order

  /** `operator<` is a strict total order on (beg, end) pairs: irreflexive,
      transitive, and any two distinct pairs are comparable one way only. */
  lemma LessIsStrictTotalOrder(a: Interval, b: Interval, c: Interval)
    ensures !Less(a, a)
    ensures Less(a, b) && Less(b, c) ==> Less(a, c)
    ensures Less(a, b) ==> !Less(b, a)
    ensures a != b ==> Less(a, b) || Less(b, a)
    ensures Less(a, b) <==> a.beg < b.beg || (a.beg == b.beg && a.end < b.end)
  {
  }

  /** The builder's sort order implies the beg order the queries need. */
  lemma SortedIsSortedByBeg(s: seq<Interval>)
    requires Sorted(s)
    ensures SortedByBeg(s)
  {
    forall i, j | 0 <= i <= j < |s|
      ensures BegOrdered(s, i, j)
    {
      if i < j {
        assert !Less(s[j], s[i]);
      }
    }
  }

  /** The constructor's neighbour check is the same as beg order over all pairs. */
  lemma {:induction false} AdjacentSortedIsSorted(s: seq<Interval>)
    ensures AdjacentSortedByBeg(s) <==> SortedByBeg(s)
  {
    if AdjacentSortedByBeg(s) {
      forall i, j | 0 <= i <= j < |s|
        ensures BegOrdered(s, i, j)
      {
        AdjacentChain(s, i, j);
      }
    }
    if SortedByBeg(s) {
      forall r | 0 <= r < |s| - 1
        ensures s[r].beg <= s[r + 1].beg
      {
        assert BegOrdered(s, r, r + 1);
      }
    }
  }

  lemma {:induction false} AdjacentChain(s: seq<Interval>, i: nat, j: nat)
    requires AdjacentSortedByBeg(s)
    requires i <= j < |s|
    ensures s[i].beg <= s[j].beg
    decreases j - i
  {
    if i < j {
      AdjacentChain(s, i + 1, j);
    }
  }

  // ---------------------------------------------------------------------------
  // The overlap filter

  /** Matches holds exactly the existing overlapping ranks of [lo, hi), each once,
      in strictly ascending order. */
  lemma {:induction false} MatchesMembers(s: seq<Interval>, lo: nat, hi: nat, qbeg: int, qend: int)
    ensures forall i :: i in Matches(s, lo, hi, qbeg, qend) <==>
      lo <= i < hi && i < |s| && Overlaps(s[i], qbeg, qend)
    ensures forall a, b :: 0 <= a < b < |Matches(s, lo, hi, qbeg, qend)| ==>
      Matches(s, lo, hi, qbeg, qend)[a] < Matches(s, lo, hi, qbeg, qend)[b]
    decreases hi - lo
  {
    if lo < hi && lo < |s| {
      MatchesMembers(s, lo + 1, hi, qbeg, qend);
      var rest := Matches(s, lo + 1, hi, qbeg, qend);
      var m := Matches(s, lo, hi, qbeg, qend);
      forall a, b | 0 <= a < b < |m|
        ensures m[a] < m[b]
      {
        if Overlaps(s[lo], qbeg, qend) {
          assert m[b] == rest[b - 1] && m[b] in rest;
          if a > 0 {
            assert m[a] == rest[a - 1];
          }
        }
      }
    }
  }

  /** With qbeg == qend == p the filter keeps the items that strictly contain p. */
  lemma PointMatches(s: seq<Interval>, p: int, hits: seq<nat>)
    requires hits == Matches(s, 0, |s|, p, p)
    ensures forall i: nat :: i in hits <==> i < |s| && s[i].beg < p < s[i].end
  {
    MatchesMembers(s, 0, |s|, p, p);
  }

  /** The filter over [lo, hi) is the filter over [lo, mid) followed by [mid, hi). */
  lemma {:induction false} MatchesSplit(s: seq<Interval>, lo: nat, mid: nat, hi: nat, qbeg: int, qend: int)
    requires lo <= mid <= hi
    ensures Matches(s, lo, hi, qbeg, qend) == Matches(s, lo, mid, qbeg, qend) + Matches(s, mid, hi, qbeg, qend)
    decreases mid - lo
  {
    if lo < mid && lo < |s| {
      MatchesSplit(s, lo + 1, mid, hi, qbeg, qend);
    } else if lo < mid {
      MatchesBeyond(s, mid, hi, qbeg, qend);
    }
  }

  /** Nothing beyond the array matches. */
  lemma MatchesBeyond(s: seq<Interval>, lo: nat, hi: nat, qbeg: int, qend: int)
    requires lo >= |s|
    ensures Matches(s, lo, hi, qbeg, qend) == []
  {
  }

  /** A one-rank range matches that rank exactly when it overlaps the query. */
  lemma MatchesSingle(s: seq<Interval>, i: nat, qbeg: int, qend: int)
    requires i < |s|
    ensures Matches(s, i, i + 1, qbeg, qend) == if Overlaps(s[i], qbeg, qend) then [i] else []
  {
    assert Matches(s, i + 1, i + 1, qbeg, qend) == [];
  }

  /** The filter over [lo, hi) around an existing rank m in it: the matches before
      m, then m itself if it overlaps, then the matches after m. */
  lemma MatchesAround(s: seq<Interval>, lo: nat, m: nat, hi: nat, qbeg: int, qend: int)
    requires lo <= m < hi && m < |s|
    ensures Matches(s, lo, hi, qbeg, qend) ==
      Matches(s, lo, m, qbeg, qend) + (if Overlaps(s[m], qbeg, qend) then [m] else []) + Matches(s, m + 1, hi, qbeg, qend)
  {
    MatchesSplit(s, lo, m, hi, qbeg, qend);
    MatchesSplit(s, m, m + 1, hi, qbeg, qend);
    MatchesSingle(s, m, qbeg, qend);
    Join3(Matches(s, lo, hi, qbeg, qend), Matches(s, lo, m, qbeg, qend), Matches(s, m, hi, qbeg, qend),
      Matches(s, m, m + 1, qbeg, qend), Matches(s, m + 1, hi, qbeg, qend),
      if Overlaps(s[m], qbeg, qend) then [m] else []);
  }

  /** Substituting a two-part tail and its first part into a concatenation. */
  lemma Join3<T>(x: seq<T>, a: seq<T>, y: seq<T>, b: seq<T>, c: seq<T>, b': seq<T>)
    requires x == a + y && y == b + c && b == b'
    ensures x == a + b' + c
  {
    assert a + (b + c) == a + b + c;
  }

  /** A range none of whose existing ranks overlaps the query matches nothing. */
  lemma {:induction false} MatchesNone(s: seq<Interval>, lo: nat, hi: nat, qbeg: int, qend: int)
    requires forall i :: lo <= i < hi && i < |s| ==> !Overlaps(s[i], qbeg, qend)
    ensures Matches(s, lo, hi, qbeg, qend) == []
    decreases hi - lo
  {
    if lo < hi && lo < |s| {
      MatchesNone(s, lo + 1, hi, qbeg, qend);
    }
  }

  /** Only ranks below |s| take part: the upper bound may be cut to |s|. */
  lemma MatchesClip(s: seq<Interval>, lo: nat, hi: nat, qbeg: int, qend: int)
    requires lo <= hi
    ensures Matches(s, lo, hi, qbeg, qend) == Matches(s, lo, Min(hi, |s|), qbeg, qend)
  {
    if |s| < hi {
      if lo <= |s| {
        MatchesSplit(s, lo, |s|, hi, qbeg, qend);
        MatchesBeyond(s, |s|, hi, qbeg, qend);
      }
    }
  }

  /** When nothing outside [lo, hi) overlaps the query, the filter over the whole
      array is the filter over [lo, hi). */
  lemma MatchesWithin(s: seq<Interval>, lo: nat, hi: nat, qbeg: int, qend: int)
    requires lo <= hi && lo <= |s|
    requires forall i :: 0 <= i < |s| && (i < lo || hi <= i) ==> !Overlaps(s[i], qbeg, qend)
    ensures Matches(s, 0, |s|, qbeg, qend) == Matches(s, lo, hi, qbeg, qend)
  {
    var h := Min(hi, |s|);
    MatchesClip(s, lo, hi, qbeg, qend);
    MatchesSplit(s, 0, lo, |s|, qbeg, qend);
    MatchesSplit(s, lo, h, |s|, qbeg, qend);
    MatchesNone(s, 0, lo, qbeg, qend);
    MatchesNone(s, h, |s|, qbeg, qend);
    assert Matches(s, lo, |s|, qbeg, qend) == Matches(s, lo, h, qbeg, qend) + [];
  }

  /** Under beg order, once a rank starts at or after qend, nothing from it onwards
      can overlap the query. */
  lemma MatchesPastQuery(s: seq<Interval>, lo: nat, hi: nat, qbeg: int, qend: int)
    requires SortedByBeg(s)
    requires lo < |s| && s[lo].beg >= qend
    ensures Matches(s, lo, hi, qbeg, qend) == []
  {
    forall i | lo <= i < hi && i < |s|
      ensures !Overlaps(s[i], qbeg, qend)
    {
      if lo <= i {
        assert BegOrdered(s, lo, i);
      }
    }
    MatchesNone(s, lo, hi, qbeg, qend);
  }

  // ---------------------------------------------------------------------------
  // Maximum end

  /** MaxEnd is the maximum: every end in the range is at most it, and some end in
      the range equals it. */
  lemma {:induction false} MaxEndIsMax(s: seq<Interval>, lo: nat, hi: nat)
    requires lo < hi <= |s|
    ensures forall i :: lo <= i < hi ==> s[i].end <= MaxEnd(s, lo, hi)
    ensures exists i :: lo <= i < hi && s[i].end == MaxEnd(s, lo, hi)
    decreases hi - lo
  {
    if lo + 1 < hi {
      MaxEndIsMax(s, lo + 1, hi);
      var i :| lo + 1 <= i < hi && s[i].end == MaxEnd(s, lo + 1, hi);
      if s[lo].end < s[i].end {
        assert s[i].end == MaxEnd(s, lo, hi);
      } else {
        assert s[lo].end == MaxEnd(s, lo, hi);
      }
    } else {
      assert s[lo].end == MaxEnd(s, lo, hi);
    }
  }

  /** The maximum over [lo, hi) combines the maxima over [lo, mid) and [mid, hi). */
  lemma {:induction false} MaxEndSplit(s: seq<Interval>, lo: nat, mid: nat, hi: nat)
    requires lo < mid < hi <= |s|
    ensures MaxEnd(s, lo, hi) == Max(MaxEnd(s, lo, mid), MaxEnd(s, mid, hi))
    decreases mid - lo
  {
    if lo + 1 < mid {
      MaxEndSplit(s, lo + 1, mid, hi);
    }
  }
}
