/**
 * The specification side of counting sort: how many times a value occurs,
 * how many values lie at or below a bound (the cumulative count that the
 * prefix-sum stage leaves in the frequency table), the slot each input
 * element is placed in, and what it means for a sequence to hold every input
 * element in its slot.
 *
 * Sequences here are 0-based: s[j] stands for vec[j + 1] of the program,
 * whose arrays leave slot 0 unused. Slot numbers (ranks) are 1-based, as the
 * counts in the program's frequency table are.
 */
module Counts {

  // ---------------------------------------------------------------------------
  // Counting
  // ---------------------------------------------------------------------------

  /** Number of copies of v among the first i elements of s. */
  ghost function Occ(s: seq<int>, i: int, v: int): (r: nat)
    requires 0 <= i <= |s|
    ensures r <= i
  {
    if i == 0 then 0
    else Occ(s, i - 1, v) + (if s[i - 1] == v then 1 else 0)
  }

  /** Number of elements among the first i of s that are at most v. */
  ghost function CountLe(s: seq<int>, i: int, v: int): (r: nat)
    requires 0 <= i <= |s|
    ensures r <= i
  {
    if i == 0 then 0
    else CountLe(s, i - 1, v) + (if s[i - 1] <= v then 1 else 0)
  }

  ghost predicate NonNegative(s: seq<int>) {
    forall k :: 0 <= k < |s| ==> s[k] >= 0
  }

  ghost predicate Sorted(s: seq<int>) {
    forall p, q :: 0 <= p < q < |s| ==> s[p] <= s[q]
  }

  /**
   * The largest of the first i elements of s; ties keep the earlier one, as
   * a scan that replaces its candidate only on a strictly larger value does.
   */
  ghost function MaxOf(s: seq<int>, i: int): (m: int)
    requires 1 <= i <= |s|
    ensures forall k :: 0 <= k < i ==> s[k] <= m
    ensures exists k :: 0 <= k < i && s[k] == m
  {
    if i == 1 then s[0]
    else
      var m := MaxOf(s, i - 1);
      if s[i - 1] > m then s[i - 1] else m
  }

  /** The smallest of the first i elements of s. */
  ghost function MinOf(s: seq<int>, i: int): (m: int)
    requires 1 <= i <= |s|
    ensures forall k :: 0 <= k < i ==> m <= s[k]
    ensures exists k :: 0 <= k < i && s[k] == m
  {
    if i == 1 then s[0]
    else
      var m := MinOf(s, i - 1);
      if s[i - 1] < m then s[i - 1] else m
  }

  /** Looking at more elements never loses an occurrence. */
  lemma {:induction false} OccMono(s: seq<int>, i: int, j: int, v: int)
    requires 0 <= i <= j <= |s|
    ensures Occ(s, i, v) <= Occ(s, j, v)
    decreases j - i
  {
    if i < j {
      OccMono(s, i, j - 1, v);
    }
  }

  /** The count of v among the first i elements is its multiplicity in s[..i]. */
  lemma {:induction false} OccIsMultiplicity(s: seq<int>, i: int, v: int)
    requires 0 <= i <= |s|
    ensures Occ(s, i, v) == multiset(s[..i])[v]
  {
    if i > 0 {
      assert s[..i] == s[..i - 1] + [s[i - 1]];
      OccIsMultiplicity(s, i - 1, v);
    }
  }

  /**
   * If, among the first i elements, v occupies exactly the positions
   * lo..hi-1, they hold hi - lo copies of v.
   */
  lemma {:induction false} OccInterval(t: seq<int>, i: int, v: int, lo: int, hi: int)
    requires 0 <= lo <= hi <= i <= |t|
    requires forall p :: 0 <= p < i ==> (t[p] == v <==> lo <= p < hi)
    ensures Occ(t, i, v) == hi - lo
  {
    if i > 0 {
      var lo' := if lo < i - 1 then lo else i - 1;
      var hi' := if hi < i - 1 then hi else i - 1;
      OccInterval(t, i - 1, v, lo', hi');
    }
  }

  /** The prefix-sum step: the values at most v are those at most v - 1 and the copies of v. */
  lemma {:induction false} CountLeSplit(s: seq<int>, i: int, v: int)
    requires 0 <= i <= |s|
    ensures CountLe(s, i, v) == CountLe(s, i, v - 1) + Occ(s, i, v)
  {
    if i > 0 {
      CountLeSplit(s, i - 1, v);
    }
  }

  /** Cumulative counts never decrease as the bound grows. */
  lemma {:induction false} CountLeMono(s: seq<int>, i: int, v: int, w: int)
    requires 0 <= i <= |s|
    ensures v <= w ==> CountLe(s, i, v) <= CountLe(s, i, w)
  {
    if i > 0 {
      CountLeMono(s, i - 1, v, w);
    }
  }

  /** At a bound no element exceeds, the cumulative count is the whole count. */
  lemma {:induction false} CountLeAbove(s: seq<int>, i: int, hi: int)
    requires 0 <= i <= |s|
    requires forall k :: 0 <= k < i ==> s[k] <= hi
    ensures CountLe(s, i, hi) == i
  {
    if i > 0 {
      CountLeAbove(s, i - 1, hi);
    }
  }

  /** Below every element, the cumulative count is zero. */
  lemma {:induction false} CountLeBelow(s: seq<int>, i: int, lo: int)
    requires 0 <= i <= |s|
    requires forall k :: 0 <= k < i ==> lo < s[k]
    ensures CountLe(s, i, lo) == 0
  {
    if i > 0 {
      CountLeBelow(s, i - 1, lo);
    }
  }

  // ---------------------------------------------------------------------------
  // Placement
  // ---------------------------------------------------------------------------

  /**
   * The 1-based output slot of input element j: the number of elements
   * smaller than s[j], plus the number of copies of s[j] at or before j.
   * It is what count[s[j]] holds when the back-to-front walk reaches j.
   */
  ghost function Rank(s: seq<int>, j: int): (r: int)
    requires 0 <= j < |s|
    ensures CountLe(s, |s|, s[j] - 1) < r <= CountLe(s, |s|, s[j])
    ensures 1 <= r <= |s|
  {
    OccMono(s, j + 1, |s|, s[j]);
    CountLeSplit(s, |s|, s[j]);
    CountLe(s, |s|, s[j] - 1) + Occ(s, j + 1, s[j])
  }

  /**
   * Slots follow the order (value, input position): an element goes before
   * every later element that is not smaller, and after every later element
   * that is smaller. With equal values this is stability.
   */
  lemma RankOrder(s: seq<int>, j: int, k: int)
    requires 0 <= j < k < |s|
    ensures s[j] <= s[k] ==> Rank(s, j) < Rank(s, k)
    ensures s[k] < s[j] ==> Rank(s, k) < Rank(s, j)
  {
    if s[j] == s[k] {
      OccMono(s, j + 1, k, s[j]);
    } else if s[j] < s[k] {
      CountLeMono(s, |s|, s[j], s[k] - 1);
    } else {
      CountLeMono(s, |s|, s[k], s[j] - 1);
    }
  }

  /** Some v in lo+1..hi has the 1-based slot p inside its block of slots. */
  lemma {:induction false} FindValue(s: seq<int>, p: int, lo: int, hi: int)
    requires lo < hi
    requires CountLe(s, |s|, lo) < p <= CountLe(s, |s|, hi)
    ensures exists v :: lo < v <= hi && CountLe(s, |s|, v - 1) < p <= CountLe(s, |s|, v)
    decreases hi - lo
  {
    if CountLe(s, |s|, hi - 1) >= p {
      CountLeMono(s, |s|, hi - 1, lo);
      FindValue(s, p, lo, hi - 1);
    }
  }

  /** For 1 <= m <= Occ(s, i, v), one of the first i positions holds the m-th copy of v. */
  lemma {:induction false} NthOccurrence(s: seq<int>, i: int, v: int, m: int)
    requires 0 <= i <= |s|
    requires 1 <= m <= Occ(s, i, v)
    ensures exists j :: 0 <= j < i && s[j] == v && Occ(s, j + 1, v) == m
  {
    if s[i - 1] == v && m == Occ(s, i, v) {
      assert Occ(s, (i - 1) + 1, v) == m;
    } else {
      NthOccurrence(s, i - 1, v, m);
    }
  }

  /** Every slot 1..|s| is the rank of some input element. */
  lemma RankOnto(s: seq<int>, p: int)
    requires 1 <= p <= |s|
    ensures exists j :: 0 <= j < |s| && Rank(s, j) == p
  {
    var lo := MinOf(s, |s|) - 1;
    var hi := MaxOf(s, |s|);
    CountLeAbove(s, |s|, hi);
    CountLeBelow(s, |s|, lo);
    FindValue(s, p, lo, hi);
    var v :| lo < v <= hi && CountLe(s, |s|, v - 1) < p <= CountLe(s, |s|, v);
    CountLeSplit(s, |s|, v);
    var m := p - CountLe(s, |s|, v - 1);
    NthOccurrence(s, |s|, v, m);
    var j :| 0 <= j < |s| && s[j] == v && Occ(s, j + 1, v) == m;
    assert Rank(s, j) == p;
  }

  /** t holds every element of s in its slot (t[0] is slot 1). */
  ghost predicate Placed(s: seq<int>, t: seq<int>) {
    |t| == |s| && forall j :: 0 <= j < |s| ==> t[Rank(s, j) - 1] == s[j]
  }

  /**
   * src records where each slot's element came from: for every input element
   * j, slot Rank(s, j) names the 1-based input position j + 1. Slot 0 is not
   * used, as in the program's arrays.
   */
  ghost predicate Tracks(s: seq<int>, src: seq<int>) {
    |src| == |s| + 1 && forall j :: 0 <= j < |s| ==> src[Rank(s, j)] == j + 1
  }

  /** Each slot 1..|s| names an input position in 1..|s| whose rank is that slot. */
  lemma SourceOf(s: seq<int>, src: seq<int>, p: int)
    requires Tracks(s, src)
    requires 1 <= p <= |s|
    ensures 1 <= src[p] <= |s| && Rank(s, src[p] - 1) == p
  {
    RankOnto(s, p);
    var j :| 0 <= j < |s| && Rank(s, j) == p;
  }

  /**
   * Two slots never name the same input position, and two slots holding
   * equal values name their positions in input order.
   */
  lemma SourcePair(s: seq<int>, t: seq<int>, src: seq<int>, p: int, q: int)
    requires Placed(s, t) && Tracks(s, src)
    requires 1 <= p < q <= |s|
    ensures src[p] != src[q]
    ensures t[p - 1] == t[q - 1] ==> src[p] < src[q]
  {
    SourceOf(s, src, p);
    SourceOf(s, src, q);
    if t[p - 1] == t[q - 1] && src[q] < src[p] {
      RankOrder(s, src[q] - 1, src[p] - 1);
    }
  }

  /**
   * What a tracked, placed output promises: slot p holds the input element
   * src[p]; no input position is the source of two slots, so every one is
   * the source of exactly one; and two slots holding equal values keep their
   * elements in input order, which is stability.
   */
  lemma TrackedStable(s: seq<int>, t: seq<int>, src: seq<int>)
    requires Placed(s, t) && Tracks(s, src)
    ensures forall p :: 1 <= p <= |s| ==> 1 <= src[p] <= |s| && t[p - 1] == s[src[p] - 1]
    ensures forall p, q :: 1 <= p < q <= |s| ==> src[p] != src[q]
    ensures forall p, q :: 1 <= p < q <= |s| && t[p - 1] == t[q - 1] ==> src[p] < src[q]
  {
    forall p | 1 <= p <= |s|
      ensures 1 <= src[p] <= |s| && t[p - 1] == s[src[p] - 1]
    {
      SourceOf(s, src, p);
    }
    forall p, q | 1 <= p < q <= |s|
      ensures src[p] != src[q]
      ensures t[p - 1] == t[q - 1] ==> src[p] < src[q]
    {
      SourcePair(s, t, src, p, q);
    }
  }

  /** In a placed sequence, position p lies in the block of slots of its own value. */
  lemma SlotValue(s: seq<int>, t: seq<int>, p: int)
    requires Placed(s, t)
    requires 0 <= p < |t|
    ensures CountLe(s, |s|, t[p] - 1) <= p < CountLe(s, |s|, t[p])
  {
    RankOnto(s, p + 1);
    var j :| 0 <= j < |s| && Rank(s, j) == p + 1;
  }

  /** A placed sequence is sorted. */
  lemma PlacedSorted(s: seq<int>, t: seq<int>)
    requires Placed(s, t)
    ensures Sorted(t)
  {
    forall p, q | 0 <= p < q < |t|
      ensures t[p] <= t[q]
    {
      SlotValue(s, t, p);
      SlotValue(s, t, q);
      CountLeMono(s, |s|, t[q], t[p] - 1);
    }
  }

  /** A placed sequence holds as many copies of each value as the input. */
  lemma PlacedOcc(s: seq<int>, t: seq<int>, v: int)
    requires Placed(s, t)
    ensures Occ(t, |t|, v) == Occ(s, |s|, v)
  {
    CountLeMono(s, |s|, v - 1, v);
    CountLeSplit(s, |s|, v);
    forall p | 0 <= p < |t|
      ensures t[p] == v <==> CountLe(s, |s|, v - 1) <= p < CountLe(s, |s|, v)
    {
      SlotValue(s, t, p);
      CountLeMono(s, |s|, t[p], v - 1);
      CountLeMono(s, |s|, v, t[p] - 1);
    }
    OccInterval(t, |t|, v, CountLe(s, |s|, v - 1), CountLe(s, |s|, v));
  }

  /** A placed sequence is a permutation of the input. */
  lemma PlacedPermutation(s: seq<int>, t: seq<int>)
    requires Placed(s, t)
    ensures multiset(t) == multiset(s)
  {
    forall v
      ensures multiset(t)[v] == multiset(s)[v]
    {
      PlacedOcc(s, t, v);
      OccIsMultiplicity(t, |t|, v);
      OccIsMultiplicity(s, |s|, v);
      assert t[..|t|] == t && s[..|s|] == s;
    }
  }

  /** The first element of a sorted sequence is at most any of its elements. */
  lemma SortedFirst(s: seq<int>, x: int)
    requires Sorted(s) && x in s
    ensures s[0] <= x
  {
  }

  /** Equal multisets with equal first elements have equal tails. */
  lemma TailMultiset(a: seq<int>, b: seq<int>)
    requires a != [] && b != [] && a[0] == b[0] && multiset(a) == multiset(b)
    ensures multiset(a[1..]) == multiset(b[1..])
  {
    assert a == [a[0]] + a[1..] && b == [b[0]] + b[1..];
    assert multiset(a[1..]) == multiset(a) - multiset{a[0]};
    assert multiset(b[1..]) == multiset(b) - multiset{a[0]};
  }

  /** Two sorted sequences with the same elements are equal. */
  lemma {:induction false} SortedUnique(a: seq<int>, b: seq<int>)
    requires Sorted(a) && Sorted(b) && multiset(a) == multiset(b)
    ensures a == b
    decreases |a|
  {
    assert |a| == |multiset(a)| == |multiset(b)| == |b|;
    if a != [] {
      assert a[0] in multiset(b);
      SortedFirst(b, a[0]);
      assert b[0] in multiset(a);
      SortedFirst(a, b[0]);
      TailMultiset(a, b);
      SortedUnique(a[1..], b[1..]);
      assert a == [a[0]] + a[1..] && b == [b[0]] + b[1..];
    }
  }

  /**
   * A placed sequence is the sorted permutation of the input; in particular
   * an input that is already sorted is placed as itself.
   */
  lemma PlacedSortedPermutation(s: seq<int>, t: seq<int>)
    requires Placed(s, t)
    ensures Sorted(t) && multiset(t) == multiset(s)
    ensures Sorted(s) ==> t == s
  {
    PlacedSorted(s, t);
    PlacedPermutation(s, t);
    if Sorted(s) {
      SortedUnique(t, s);
    }
  }
}
