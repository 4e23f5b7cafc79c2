/** Sums and concatenations: the arithmetic behind the running move counter,
    the car count, and the MPI_SUM reductions over ranks. */
module Aggregate {

  /** Sum of a sequence, accumulated from the front as the source's counting
      loops do (so the last element is the one added most recently). */
  function Sum(s: seq<int>): int
  {
    if |s| == 0 then 0 else Sum(s[..|s| - 1]) + s[|s| - 1]
  }

  /** Summation distributes over concatenation; this is what makes a sum
      reduction independent of how the summands are grouped. */
  lemma {:induction false} SumConcat(a: seq<int>, b: seq<int>)
    ensures Sum(a + b) == Sum(a) + Sum(b)
  {
    if |b| == 0 {
      assert a + b == a;
    } else {
      SumConcat(a, b[..|b| - 1]);
      assert (a + b)[..|a + b| - 1] == a + b[..|b| - 1];
    }
  }

  /** Rotating a sequence one place to the right keeps its sum. */
  lemma SumRotate(s: seq<int>)
    requires |s| > 0
    ensures Sum([s[|s| - 1]] + s[..|s| - 1]) == Sum(s)
  {
    var m := |s| - 1;
    SumConcat([s[m]], s[..m]);
    assert [s[m]][..0] == [];
  }

  /** Sums respect a pointwise linear relation d = a + b - c. */
  lemma {:induction false} SumLinear(a: seq<int>, b: seq<int>, c: seq<int>, d: seq<int>)
    requires |a| == |b| == |c| == |d|
    requires forall i :: 0 <= i < |d| ==> d[i] == a[i] + b[i] - c[i]
    ensures Sum(d) == Sum(a) + Sum(b) - Sum(c)
  {
    if |d| > 0 {
      var m := |d| - 1;
      SumLinear(a[..m], b[..m], c[..m], d[..m]);
    }
  }

  /** A sequence that lies pointwise between 0 and another has a sum between
      0 and the other's sum. */
  lemma {:induction false} SumBounds(a: seq<int>, b: seq<int>)
    requires |a| == |b|
    requires forall i :: 0 <= i < |a| ==> 0 <= a[i] <= b[i]
    ensures 0 <= Sum(a) <= Sum(b)
  {
    if |a| > 0 {
      var m := |a| - 1;
      SumBounds(a[..m], b[..m]);
    }
  }

  /** Concatenation of a sequence of slices, in order (the gather of a
      scattered road). */
  function Flatten(parts: seq<seq<int>>): seq<int>
  {
    if |parts| == 0 then [] else Flatten(parts[..|parts| - 1]) + parts[|parts| - 1]
  }

  /** Every slice has exactly `len` elements. */
  ghost predicate Uniform(parts: seq<seq<int>>, len: nat)
  {
    forall r :: 0 <= r < |parts| ==> |parts[r]| == len
  }

  /** Where slice r starts in the concatenation of slices of length `len`
      (r * len, built up by addition so that index arithmetic stays linear). */
  function Offset(r: nat, len: nat): nat
  {
    if r == 0 then 0 else Offset(r - 1, len) + len
  }

  /** Slice r ends no later than slice s starts, for r < s. */
  lemma {:induction false} OffsetBelow(r: nat, s: nat, len: nat)
    requires r < s
    ensures Offset(r, len) + len <= Offset(s, len)
  {
    if r < s - 1 {
      OffsetBelow(r, s - 1, len);
    }
  }

  /** Every slice of a road of `size` slices lies within it. */
  lemma OffsetsFit(size: nat, len: nat)
    ensures forall r :: 0 <= r < size ==> Offset(r, len) + len <= Offset(size, len)
  {
    forall r | 0 <= r < size
      ensures Offset(r, len) + len <= Offset(size, len)
    {
      OffsetBelow(r, size, len);
    }
  }

  lemma {:induction false} OffsetIsProduct(r: nat, len: nat)
    ensures Offset(r, len) == r * len
  {
    if r > 0 {
      OffsetIsProduct(r - 1, len);
      assert r * len == (r - 1) * len + len;
    }
  }

  lemma {:induction false} FlattenLength(parts: seq<seq<int>>, len: nat)
    requires Uniform(parts, len)
    ensures |Flatten(parts)| == Offset(|parts|, len)
  {
    if |parts| > 0 {
      FlattenLength(parts[..|parts| - 1], len);
    }
  }

  /** Element k of slice r sits at Offset(r, len) + k in the concatenation. */
  lemma {:induction false} FlattenAt(parts: seq<seq<int>>, len: nat, r: nat, k: nat)
    requires Uniform(parts, len) && r < |parts| && k < len
    ensures Offset(r, len) + k < |Flatten(parts)|
    ensures Flatten(parts)[Offset(r, len) + k] == parts[r][k]
  {
    var m := |parts| - 1;
    FlattenLength(parts, len);
    FlattenLength(parts[..m], len);
    if r < m {
      FlattenAt(parts[..m], len, r, k);
      OffsetBelow(r, m, len);
    }
  }

  /** A sequence that agrees with slice r at every Offset(r, len) + k is the
      concatenation of the slices. */
  lemma {:induction false} FlattenUnique(parts: seq<seq<int>>, len: nat, s: seq<int>)
    requires Uniform(parts, len)
    requires |s| == Offset(|parts|, len)
    requires forall r, k :: 0 <= r < |parts| && 0 <= k < len ==>
      Offset(r, len) + k < |s| && s[Offset(r, len) + k] == parts[r][k]
    ensures Flatten(parts) == s
  {
    if |parts| > 0 {
      var m := |parts| - 1;
      var front := s[..Offset(m, len)];
      forall r, k | 0 <= r < m && 0 <= k < len
        ensures Offset(r, len) + k < |front| && front[Offset(r, len) + k] == parts[..m][r][k]
      {
        OffsetBelow(r, m, len);
      }
      OffsetsFit(m, len);
      FlattenUnique(parts[..m], len, front);
      assert s == front + parts[m];
    }
  }

  /** Summing the concatenation equals summing the per-slice sums: the
      all-reduce of local totals gives the global total. */
  lemma {:induction false} SumFlatten(parts: seq<seq<int>>)
    ensures Sum(Flatten(parts)) == Sum(seq(|parts|, r requires 0 <= r < |parts| => Sum(parts[r])))
  {
    var sums := seq(|parts|, r requires 0 <= r < |parts| => Sum(parts[r]));
    if |parts| > 0 {
      var m := |parts| - 1;
      SumFlatten(parts[..m]);
      SumConcat(Flatten(parts[..m]), parts[m]);
      assert sums[..m] == seq(m, r requires 0 <= r < m => Sum(parts[..m][r]));
    }
  }
}
