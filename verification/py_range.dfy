/**
 * Python's range(start, stop, step) and extended slice s[::step] for a
 * positive step, as the two selectors use them.
 */
module PyRange {
  import opened Common

  /**
   * range(start, stop, step) with step >= 1: the arithmetic progression from
   * start, stopping before stop. The length is characterised without
   * division: the last element is below stop and one more step reaches it.
   */
  function Range(start: int, stop: int, step: nat): (r: seq<int>)
    requires step >= 1
    ensures forall k :: 0 <= k < |r| ==> r[k] == start + k * step
    ensures start >= stop ==> |r| == 0
    ensures start < stop ==> |r| > 0 && start + (|r| - 1) * step < stop <= start + |r| * step
    decreases stop - start
  {
    if start >= stop then []
    else
      var rest := Range(start + step, stop, step);
      var r := [start] + rest;
      assert forall k :: 1 <= k < |r| ==> r[k] == rest[k - 1];
      assert forall k :: 1 <= k < |r| ==> start + step + (k - 1) * step == start + k * step;
      assert |rest| > 0 ==> start + step + (|rest| - 1) * step == start + (|r| - 1) * step;
      assert start + step + |rest| * step == start + |r| * step;
      r
  }

  /** The progression from 0 is strictly increasing. */
  lemma RangeIncreasing(stop: int, step: nat, i: int, j: int)
    requires step >= 1
    requires 0 <= i < j < |Range(0, stop, step)|
    ensures Range(0, stop, step)[i] < Range(0, stop, step)[j]
  {
    var r := Range(0, stop, step);
    assert r[j] - r[i] == (j - i) * step;
    assert (j - i) * step >= 1 by { PositiveProduct(j - i, step); }
  }

  lemma PositiveProduct(a: int, b: int)
    requires a >= 1 && b >= 1
    ensures a * b >= 1
  {
  }

  /**
   * Python's s[::step] for step >= 1: the elements at the positions
   * range(0, len(s), step). Taken from a strictly increasing sequence, they
   * are strictly increasing and all belong to it.
   */
  function EveryNth(s: seq<int>, step: nat): (r: seq<int>)
    requires step >= 1
    ensures |r| == |Range(0, |s|, step)|
    ensures forall k :: 0 <= k < |r| ==> 0 <= Range(0, |s|, step)[k] < |s| && r[k] == s[Range(0, |s|, step)[k]]
    ensures forall x :: x in r ==> x in s
    ensures StrictlyIncreasing(s) ==> StrictlyIncreasing(r)
  {
    var idx := Range(0, |s|, step);
    IndicesInBounds(|s|, step);
    var r := seq(|idx|, k requires 0 <= k < |idx| => s[idx[k]]);
    assert forall x :: x in r ==> x in s by {
      forall x | x in r ensures x in s {
        var k :| 0 <= k < |r| && r[k] == x;
        assert s[idx[k]] == x;
      }
    }
    assert StrictlyIncreasing(s) ==> StrictlyIncreasing(r) by {
      if StrictlyIncreasing(s) {
        forall i, j | 0 <= i < j < |r| ensures r[i] < r[j] {
          RangeIncreasing(|s|, step, i, j);
        }
      }
    }
    r
  }

  /** Every element of range(0, n, step) is a valid index below n. */
  lemma IndicesInBounds(n: nat, step: nat)
    requires step >= 1
    ensures forall k :: 0 <= k < |Range(0, n, step)| ==> 0 <= Range(0, n, step)[k] < n
  {
    var idx := Range(0, n, step);
    forall k | 0 <= k < |idx|
      ensures 0 <= idx[k] < n
    {
      MulMono(0, k, step);
      MulMono(k, |idx| - 1, step);
    }
  }

  /**
   * When a sequence of length n is cut with step n / m (and at least one),
   * at least m elements survive: range(0, n, n // m) never under-fills m.
   */
  lemma {:induction false} StrideCoversQuota(n: nat, m: nat)
    requires 1 <= m <= n
    ensures |Range(0, n, Max1(n / m))| >= m
  {
    var step := Max1(n / m);
    var len := |Range(0, n, step)|;
    assert n / m >= 1 by { DivAtLeastOne(n, m); }
    assert step * m <= n by { DivMul(n, m); }
    assert n <= len * step;
    MulCancel(m, len, step);
  }

  function Max1(x: int): int { if x < 1 then 1 else x }

  /** With step 1, range(start, stop) has stop - start elements (none when stop <= start). */
  lemma {:induction false} UnitRangeLength(start: int, stop: int)
    ensures |Range(start, stop, 1)| == if start < stop then stop - start else 0
    decreases stop - start
  {
    if start < stop {
      UnitRangeLength(start + 1, stop);
    }
  }

  lemma DivSmall(m: nat, d: nat)
    requires m < d
    ensures m / d == 0
  {
  }

  lemma DivAtLeastOne(n: nat, m: nat)
    requires 1 <= m <= n
    ensures n / m >= 1
  {
  }

  lemma DivMul(n: nat, m: nat)
    requires m >= 1
    ensures (n / m) * m <= n
  {
  }

  lemma MulCancel(a: int, b: int, c: int)
    requires c >= 1 && a * c <= b * c
    ensures a <= b
  {
    assert (a - b) * c == a * c - b * c;
  }

  lemma MulMono(a: int, b: int, c: nat)
    requires a <= b
    ensures a * c <= b * c
  {
  }
}
