/**
 * Small building blocks shared by the sampler model: the exceptions the
 * scripts can raise on well-typed input, optional values, and facts about
 * duplicate-free sequences.
 */
module Common {

  /** The exceptions the scripts raise on inputs the model admits. */
  datatype Error =
    | DivisionByZero          // `/` or `//` by a count that is zero
    | NoObjectsToConcatenate  // pd.concat of an empty list of blocks

  datatype Result<+T> = Ok(value: T) | Err(error: Error)

  datatype Option<+T> = None | Some(value: T)

  function Min(a: int, b: int): int { if a <= b then a else b }

  function Max(a: int, b: int): int { if a <= b then b else a }

  /** No element occurs twice. */
  predicate Distinct<T(==)>(s: seq<T>) {
    forall i, j :: 0 <= i < j < |s| ==> s[i] != s[j]
  }

  /** Strictly increasing: sorted and duplicate-free. */
  predicate StrictlyIncreasing(s: seq<int>) {
    forall i, j :: 0 <= i < j < |s| ==> s[i] < s[j]
  }

  lemma IncreasingIsDistinct(s: seq<int>)
    requires StrictlyIncreasing(s)
    ensures Distinct(s)
  {
  }

  /** The elements of a sequence, as a set. */
  function Elems<T(==)>(s: seq<T>): set<T> {
    set x | x in s
  }

  /** The elements of a sequence with one more element in front. */
  lemma ElemsCons<T>(a: T, t: seq<T>)
    ensures Elems([a] + t) == {a} + Elems(t)
  {
    assert forall y :: y in [a] + t <==> y == a || y in t;
  }

  /** Concatenation of a list of blocks, in list order (pd.concat). */
  function Flatten<T>(ss: seq<seq<T>>): seq<T> {
    if |ss| == 0 then [] else ss[0] + Flatten(ss[1..])
  }

  /**
   * a is b with some elements left out, the rest keeping their relative
   * order (what a boolean-mask selection of a table produces).
   */
  predicate IsSubsequence<T(==)>(a: seq<T>, b: seq<T>)
    decreases |b|
  {
    if |a| == 0 then true
    else if |b| == 0 then false
    else (a[0] == b[0] && IsSubsequence(a[1..], b[1..])) || IsSubsequence(a, b[1..])
  }

  /** Python's `s[:k]` for k >= 0. */
  function Take<T>(s: seq<T>, k: nat): (r: seq<T>)
    ensures |r| == Min(k, |s|)
    ensures r == s[..|r|]
  {
    if k <= |s| then s[..k] else s
  }

  /** Disjoint sets: the size of the union is the sum of the sizes. */
  lemma DisjointCard<T>(a: set<T>, b: set<T>)
    requires a !! b
    ensures |a + b| == |a| + |b|
  {
  }

  /** A duplicate-free sequence has as many elements as its set. */
  lemma {:induction false} DistinctCard<T>(s: seq<T>)
    requires Distinct(s)
    ensures |Elems(s)| == |s|
  {
    if |s| > 0 {
      DistinctCard(s[1..]);
      assert Elems(s) == {s[0]} + Elems(s[1..]);
      assert s[0] !in Elems(s[1..]);
    }
  }

  /** A duplicate-free sequence drawn from a set is no longer than the set. */
  lemma DistinctSubsetLength<T>(s: seq<T>, t: set<T>)
    requires Distinct(s)
    requires Elems(s) <= t
    ensures |s| <= |t|
  {
    DistinctCard(s);
    assert |Elems(s)| <= |t| by { SubsetCard(Elems(s), t); }
  }

  lemma {:induction false} SubsetCard<T>(a: set<T>, b: set<T>)
    requires a <= b
    ensures |a| <= |b|
    decreases |b|
  {
    if a != {} {
      var x :| x in a;
      SubsetCard(a - {x}, b - {x});
    }
  }

  /** A subset as large as its finite superset is the superset. */
  lemma SubsetEqualCard<T>(a: set<T>, b: set<T>)
    requires a <= b && |a| == |b|
    ensures a == b
  {
    forall x | x in b ensures x in a {
      if x !in a {
        SubsetCard(a, b - {x});
        assert false;
      }
    }
  }

  /** A sub-multiset of a duplicate-free sequence is duplicate-free. */
  lemma SubMultisetDistinct<T>(s: seq<T>, t: seq<T>)
    requires Distinct(t)
    requires multiset(s) <= multiset(t)
    ensures Distinct(s)
  {
    forall i, j | 0 <= i < j < |s|
      ensures s[i] != s[j]
    {
      if s[i] == s[j] {
        assert multiset(s[..j])[s[i]] >= 1 by { assert s[..j][i] == s[i]; }
        assert s == s[..j] + s[j..];
        assert s[j..][0] == s[j];
        assert multiset(s)[s[i]] >= 2;
        DistinctCount(t, s[i]);
      }
    }
  }

  /** In a duplicate-free sequence every element occurs at most once. */
  lemma {:induction false} DistinctCount<T>(t: seq<T>, x: T)
    requires Distinct(t)
    ensures multiset(t)[x] <= 1
  {
    if |t| > 0 {
      DistinctCount(t[1..], x);
      assert t == [t[0]] + t[1..];
      if t[0] == x {
        assert x !in t[1..];
      }
    }
  }

  /** Concatenating duplicate-free, pairwise disjoint blocks yields no duplicate. */
  lemma {:induction false} FlattenDistinct<T>(ss: seq<seq<T>>)
    requires forall i :: 0 <= i < |ss| ==> Distinct(ss[i])
    requires forall i, j, x :: 0 <= i < j < |ss| && x in ss[i] ==> x !in ss[j]
    ensures Distinct(Flatten(ss))
  {
    if |ss| > 0 {
      FlattenDistinct(ss[1..]);
      var rest := Flatten(ss[1..]);
      forall x | x in ss[0]
        ensures x !in rest
      {
        FlattenMember(ss[1..], x);
      }
      AppendDistinct(ss[0], rest);
    }
  }

  /** An element of a concatenation comes from one of its blocks. */
  lemma {:induction false} FlattenMember<T>(ss: seq<seq<T>>, x: T)
    ensures x in Flatten(ss) <==> exists i :: 0 <= i < |ss| && x in ss[i]
  {
    if |ss| > 0 {
      FlattenMember(ss[1..], x);
      if x in ss[0] {
        assert 0 < |ss| && x in ss[0];
      }
      if exists i :: 0 < i < |ss| && x in ss[i] {
        var i :| 0 < i < |ss| && x in ss[i];
        assert x in ss[1..][i - 1];
      }
    }
  }

  lemma AppendDistinct<T>(a: seq<T>, b: seq<T>)
    requires Distinct(a) && Distinct(b)
    requires forall x :: x in a ==> x !in b
    ensures Distinct(a + b)
  {
    var c := a + b;
    forall i, j | 0 <= i < j < |c|
      ensures c[i] != c[j]
    {
      if i < |a| && j >= |a| {
        assert c[i] in a && c[j] == b[j - |a|];
      }
    }
  }
}
