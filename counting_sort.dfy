/**
 * Counting sort as the program runs it: in place on an array whose slots
 * 1..n hold the values (slot 0 is never touched), with a frequency table
 * count[0..max] and an output buffer output[1..n].
 */
module CountingSort {
  import opened Counts

  /** The largest of vec[1..n], found by a left-to-right scan. */
  method GetMax(vec: array<int>, n: int) returns (max: int)
    requires 1 <= n < vec.Length
    ensures max == MaxOf(vec[1..n + 1], n)
    ensures forall k :: 1 <= k <= n ==> vec[k] <= max
    ensures exists k :: 1 <= k <= n && vec[k] == max
  {
    ghost var s := vec[1..n + 1];
    max := vec[1];
    var i := 2;
    while i <= n
      invariant 2 <= i <= n + 1
      invariant max == MaxOf(s, i - 1)
    {
      assert vec[i] == s[i - 1];
      if vec[i] > max {
        max := vec[i];
      }
      i := i + 1;
    }
    assert forall k :: 1 <= k <= n ==> vec[k] == s[k - 1];
  }

  /**
   * Builds the frequency table: a fresh count[0..max], zeroed, then
   * count[v] is the number of copies of v in vec[1..n].
   */
  method Tally(vec: array<int>, n: int, max: int) returns (count: array<int>)
    requires 1 <= n < vec.Length
    requires forall k :: 1 <= k <= n ==> 0 <= vec[k] <= max
    ensures fresh(count) && count.Length == max + 1
    ensures forall v :: 0 <= v <= max ==> count[v] == Occ(vec[1..n + 1], n, v)
  {
    ghost var s := vec[1..n + 1];
    assert 0 <= vec[1] <= max;
    count := new int[max + 1];
    var i := 0;
    while i <= max
      invariant 0 <= i <= max + 1
      invariant forall v :: 0 <= v < i ==> count[v] == 0
    {
      count[i] := 0;
      i := i + 1;
    }
    i := 1;
    while i <= n
      invariant 1 <= i <= n + 1
      invariant forall v :: 0 <= v <= max ==> count[v] == Occ(s, i - 1, v)
    {
      assert vec[i] == s[i - 1];
      count[vec[i]] := count[vec[i]] + 1;
      i := i + 1;
    }
  }

  /**
   * Turns the frequency table of s, in place, into cumulative counts:
   * afterwards count[v] is the number of elements of s that are at most v.
   */
  method PrefixSums(count: array<int>, ghost s: seq<int>)
    requires count.Length >= 1 && NonNegative(s)
    requires forall v :: 0 <= v < count.Length ==> count[v] == Occ(s, |s|, v)
    modifies count
    ensures forall v :: 0 <= v < count.Length ==> count[v] == CountLe(s, |s|, v)
    ensures (forall k :: 0 <= k < |s| ==> s[k] < count.Length) ==> count[count.Length - 1] == |s|
  {
    CountLeBelow(s, |s|, -1);
    CountLeSplit(s, |s|, 0);
    var i := 1;
    while i < count.Length
      invariant 1 <= i <= count.Length
      invariant forall v :: 0 <= v < i ==> count[v] == CountLe(s, |s|, v)
      invariant forall v :: i <= v < count.Length ==> count[v] == Occ(s, |s|, v)
    {
      CountLeSplit(s, |s|, i);
      count[i] := count[i] + count[i - 1];
      i := i + 1;
    }
    if forall k :: 0 <= k < |s| ==> s[k] < count.Length {
      CountLeAbove(s, |s|, count.Length - 1);
    }
  }

  /**
   * Walks vec[n] down to vec[1], putting each element into output at slot
   * count[vec[i]] and then decrementing that count, so the next copy of the
   * same value lands one slot earlier. Each element is written to its rank,
   * every slot 1..n exactly once, and count[v] ends as the number of values
   * below v. The ghost src records, for each slot written, the position i of
   * the element written there.
   */
  method Place(vec: array<int>, n: int, count: array<int>, output: array<int>) returns (ghost src: seq<int>)
    requires 1 <= n < vec.Length && output.Length == n + 1
    requires vec != count && vec != output && count != output
    requires forall k :: 1 <= k <= n ==> 0 <= vec[k] < count.Length
    requires forall v :: 0 <= v < count.Length ==> count[v] == CountLe(vec[1..n + 1], n, v)
    modifies count, output
    ensures forall v :: 0 <= v < count.Length ==> count[v] == CountLe(vec[1..n + 1], n, v - 1)
    ensures Placed(vec[1..n + 1], output[1..n + 1])
    ensures Tracks(vec[1..n + 1], src)
  {
    ghost var s := vec[1..n + 1];
    forall v | 0 <= v < count.Length
      ensures count[v] == CountLe(s, n, v - 1) + Occ(s, n, v)
    {
      CountLeSplit(s, n, v);
    }
    src := seq(n + 1, _ => 0);
    var i := n;
    while i >= 1
      invariant 0 <= i <= n && |src| == n + 1
      invariant forall v :: 0 <= v < count.Length ==> count[v] == CountLe(s, n, v - 1) + Occ(s, i, v)
      invariant forall j {:trigger Rank(s, j)} :: i <= j < n ==> output[Rank(s, j)] == s[j] && src[Rank(s, j)] == j + 1
    {
      assert vec[i] == s[i - 1];
      assert count[vec[i]] == Rank(s, i - 1);
      forall j | i <= j < n
        ensures Rank(s, j) != Rank(s, i - 1)
      {
        RankOrder(s, i - 1, j);
      }
      output[count[vec[i]]] := vec[i];
      src := src[count[vec[i]] := i];
      count[vec[i]] := count[vec[i]] - 1;
      i := i - 1;
    }
  }

  /**
   * Copies output[1..n] back over vec[1..n]; slot 0 and the slots past n
   * keep their values.
   */
  method CopyBack(vec: array<int>, output: array<int>, n: int)
    requires 1 <= n < vec.Length && n < output.Length && vec != output
    modifies vec
    ensures vec[1..n + 1] == output[1..n + 1]
    ensures forall k :: 0 <= k < vec.Length && !(1 <= k <= n) ==> vec[k] == old(vec[k])
  {
    var i := 1;
    while i <= n
      invariant 1 <= i <= n + 1
      invariant forall k :: 1 <= k < i ==> vec[k] == output[k]
      invariant forall k :: 0 <= k < vec.Length && !(1 <= k < i) ==> vec[k] == old(vec[k])
    {
      vec[i] := output[i];
      i := i + 1;
    }
  }

  /**
   * If vec agrees with before outside 1..n, and on 1..n whenever s is
   * sorted, then vec holds before whenever s is sorted.
   */
  lemma UnchangedIfSorted(vec: array<int>, before: seq<int>, s: seq<int>, n: int)
    requires 1 <= n < vec.Length == |before| && s == before[1..n + 1]
    requires forall k :: 0 <= k < vec.Length && !(1 <= k <= n) ==> vec[k] == before[k]
    requires Sorted(s) ==> vec[1..n + 1] == s
    ensures Sorted(s) ==> vec[..] == before
  {
  }

  /**
   * Read on the array: in a placed, tracked result each slot p of 1..n holds
   * the input element before[src[p]], src is a bijection of 1..n, and slots
   * holding equal values name their input positions in order.
   */
  lemma StableResult(vec: array<int>, before: seq<int>, n: int, src: seq<int>)
    requires 1 <= n < vec.Length == |before|
    requires Placed(before[1..n + 1], vec[1..n + 1]) && Tracks(before[1..n + 1], src)
    ensures forall p :: 1 <= p <= n ==> 1 <= src[p] <= n && vec[p] == before[src[p]]
    ensures forall p, q :: 1 <= p < q <= n ==> src[p] != src[q]
    ensures forall p, q :: 1 <= p < q <= n && vec[p] == vec[q] ==> src[p] < src[q]
  {
    var s, t := before[1..n + 1], vec[1..n + 1];
    TrackedStable(s, t, src);
    forall p | 1 <= p <= n
      ensures 1 <= src[p] <= n && vec[p] == before[src[p]]
    {
      assert vec[p] == t[p - 1] && before[src[p]] == s[src[p] - 1];
    }
    forall p, q | 1 <= p < q <= n && vec[p] == vec[q]
      ensures src[p] < src[q]
    {
      assert vec[p] == t[p - 1] && vec[q] == t[q - 1];
    }
  }

  /**
   * The counting pass: allocates output, finds the maximum, builds the
   * frequency table, turns it into cumulative counts and places every
   * element of vec[1..n] into output[1..n] at its rank; src[p] is the
   * position in vec of the element placed in slot p. vec is only read.
   */
  method CountingPass(vec: array<int>, n: int) returns (output: array<int>, ghost src: seq<int>)
    requires 1 <= n < vec.Length
    requires forall k :: 1 <= k <= n ==> vec[k] >= 0
    ensures fresh(output) && output.Length == n + 1
    ensures Placed(vec[1..n + 1], output[1..n + 1])
    ensures Tracks(vec[1..n + 1], src)
  {
    ghost var s := vec[1..n + 1];
    assert NonNegative(s) by {
      assert forall k :: 0 <= k < n ==> s[k] == vec[k + 1];
    }
    output := new int[n + 1];
    var max := GetMax(vec, n);
    var count := Tally(vec, n, max);
    PrefixSums(count, s);
    src := Place(vec, n, count, output);
  }

  /**
   * Sorts vec[1..n] in place, stably: every input element ends in the slot
   * given by its rank, so the result is sorted and a permutation of the
   * input; slot 0 and the slots past n keep their values, and an input that
   * is already sorted is left as it was. The ghost src maps each slot p in
   * 1..n to the position src[p] its element came from: a bijection of 1..n
   * under which equal values keep their input order.
   */
  method CountSort(vec: array<int>, n: int) returns (ghost src: seq<int>)
    requires 1 <= n < vec.Length
    requires forall k :: 1 <= k <= n ==> vec[k] >= 0
    modifies vec
    ensures forall k :: 0 <= k < vec.Length && !(1 <= k <= n) ==> vec[k] == old(vec[k])
    ensures Placed(old(vec[1..n + 1]), vec[1..n + 1])
    ensures Sorted(vec[1..n + 1])
    ensures multiset(vec[1..n + 1]) == multiset(old(vec[1..n + 1]))
    ensures Sorted(old(vec[1..n + 1])) ==> vec[..] == old(vec[..])
    ensures |src| == n + 1
    ensures forall p :: 1 <= p <= n ==> 1 <= src[p] <= n && vec[p] == old(vec[src[p]])
    ensures forall p, q :: 1 <= p < q <= n ==> src[p] != src[q]
    ensures forall p, q :: 1 <= p < q <= n && vec[p] == vec[q] ==> src[p] < src[q]
  {
    ghost var before := vec[..];
    var output;
    output, src := CountingPass(vec, n);
    CopyBack(vec, output, n);
    ghost var s := before[1..n + 1];
    PlacedSortedPermutation(s, vec[1..n + 1]);
    UnchangedIfSorted(vec, before, s, n);
    StableResult(vec, before, n, src);
  }
}
