/**
 * The recorder of directory sizes (`Aggregator`, index.ts): a running total and
 * the list of every size recorded, which it hands out sorted in ascending
 * numeric order.
 */
module SizeRecorder {

  /** The sum of a list of sizes. */
  function Sum(s: seq<int>): int {
    if s == [] then 0 else Sum(s[..|s| - 1]) + s[|s| - 1]
  }

  predicate SortedAscending(s: seq<int>) {
    forall i, j :: 0 <= i < j < |s| ==> s[i] <= s[j]
  }

  lemma {:induction false} SumConcat(a: seq<int>, b: seq<int>)
    ensures Sum(a + b) == Sum(a) + Sum(b)
    decreases |b|
  {
    if b == [] {
      assert a + b == a;
    } else {
      var last := |b| - 1;
      assert (a + b)[..|a + b| - 1] == a + b[..last];
      SumConcat(a, b[..last]);
    }
  }

  /** The total does not depend on the order of the sizes. */
  lemma {:induction false} SumPermutation(a: seq<int>, b: seq<int>)
    requires multiset(a) == multiset(b)
    ensures Sum(a) == Sum(b)
    decreases |a|
  {
    if a == [] {
      assert |b| == |multiset(b)| == 0;
    } else {
      var x := a[|a| - 1];
      var front := a[..|a| - 1];
      assert a == front + [x];
      assert x in multiset(b);
      var i :| 0 <= i < |b| && b[i] == x;
      var rest := b[..i] + b[i + 1..];
      assert b == b[..i] + [x] + b[i + 1..];
      assert multiset(b) == multiset(b[..i]) + multiset{x} + multiset(b[i + 1..]);
      assert multiset(a) == multiset(front) + multiset{x};
      assert multiset(rest) == multiset(b[..i]) + multiset(b[i + 1..]);
      assert multiset(front) == multiset(a) - multiset{x};
      assert multiset(rest) == multiset(b) - multiset{x};
      SumPermutation(front, rest);
      SumConcat(b[..i] + [x], b[i + 1..]);
      SumConcat(b[..i], [x]);
      SumConcat(b[..i], b[i + 1..]);
    }
  }

  /** Puts `x` into its place in an ascending list. */
  function Insert(x: int, s: seq<int>): (r: seq<int>)
    requires SortedAscending(s)
    ensures SortedAscending(r)
    ensures multiset(r) == multiset(s) + multiset{x}
  {
    if s == [] || x <= s[0] then [x] + s
    else
      var tail := Insert(x, s[1..]);
      InsertBehind(x, s, tail);
      [s[0]] + tail
  }

  /** `x` inserted into the rest of `s` can go behind the head `s[0] < x`. */
  lemma InsertBehind(x: int, s: seq<int>, tail: seq<int>)
    requires SortedAscending(s) && s != [] && s[0] < x
    requires SortedAscending(tail) && multiset(tail) == multiset(s[1..]) + multiset{x}
    ensures SortedAscending([s[0]] + tail)
    ensures multiset([s[0]] + tail) == multiset(s) + multiset{x}
  {
    assert s == [s[0]] + s[1..];
    var r := [s[0]] + tail;
    forall i, j | 0 <= i < j < |r| ensures r[i] <= r[j] {
      if i == 0 {
        assert r[j] == tail[j - 1] && tail[j - 1] in multiset(tail);
        if tail[j - 1] != x {
          assert tail[j - 1] in multiset(s[1..]);
          var k :| 0 <= k < |s[1..]| && s[1..][k] == tail[j - 1];
          assert s[k + 1] == tail[j - 1];
        }
      } else {
        assert r[i] == tail[i - 1] && r[j] == tail[j - 1];
      }
    }
  }

  /** Sorts sizes numerically, ascending; the order among equal sizes is not specified. */
  method SortAscending(s: seq<int>) returns (r: seq<int>)
    ensures SortedAscending(r)
    ensures multiset(r) == multiset(s)
  {
    r := [];
    for i := 0 to |s|
      invariant SortedAscending(r)
      invariant multiset(r) == multiset(s[..i])
    {
      assert s[..i + 1] == s[..i] + [s[i]];
      r := Insert(s[i], r);
    }
    assert s[..|s|] == s;
  }

  class Aggregator {
    var count: int
    var sizes: seq<int>

    /** The running total is the sum of everything recorded so far. */
    ghost predicate Valid()
      reads this
    {
      count == Sum(sizes)
    }

    constructor ()
      ensures Valid() && count == 0 && sizes == []
    {
      count := 0;
      sizes := [];
    }

    /** Adds one size to the total and to the end of the list. */
    method Record(size: int)
      requires Valid()
      modifies this
      ensures Valid()
      ensures sizes == old(sizes) + [size]
      ensures count == old(count) + size
    {
      count := count + size;
      sizes := sizes + [size];
      assert sizes[..|sizes| - 1] == old(sizes);
    }

    /** The sum over every recorded size (nested directories are counted once per ancestor). */
    method ReportOverallUsage() returns (usage: int)
      requires Valid()
      ensures usage == Sum(sizes)
    {
      usage := count;
    }

    /** Sorts the recorded list in place, ascending, and returns it. */
    method ReportSizes() returns (sorted: seq<int>)
      requires Valid()
      modifies this
      ensures Valid() && count == old(count)
      ensures SortedAscending(sizes)
      ensures multiset(sizes) == multiset(old(sizes))
      ensures sorted == sizes
    {
      var r := SortAscending(sizes);
      SumPermutation(r, sizes);
      sizes := r;
      sorted := sizes;
    }
  }
}
