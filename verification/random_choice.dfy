/**
 * np.random.choice(pool, size=k, replace=False) under a seeded generator.
 *
 * The generator is an oracle: an arbitrary draw stream standing in for the
 * seeded generator, one position per element drawn; the positions do not
 * follow how numpy itself consumes the generator. A draw picks one of
 * the elements still left in the pool and removes it, so the outcome is a
 * duplicate-free sample whatever the stream holds, and (ChooseReaches) every
 * duplicate-free sample of the pool is the outcome of some stream. A property
 * proved for all streams therefore holds for every choice the library can make.
 */
module RandomChoice {
  import opened Common

  /** The draw at position k of the stream that stands in for the seeded generator. */
  type Rng = nat -> nat

  /** A sample together with the stream position after it. */
  datatype Draw<T> = Draw(picked: seq<T>, next: nat)

  /** The position, among n remaining elements, that a raw draw selects. */
  function Pick(draw: nat, n: nat): (i: nat)
    requires n > 0
    ensures i < n
  {
    draw % n
  }

  /**
   * Sample k elements of pool without replacement, consuming k draws from
   * position pos. numpy raises ValueError when k exceeds the pool; every
   * call in the scripts clamps k first, which is what the requires states.
   */
  function Choose<T>(pool: seq<T>, k: nat, rng: Rng, pos: nat): (d: Draw<T>)
    requires k <= |pool|
    ensures |d.picked| == k
    ensures d.next == pos + k
    decreases k
  {
    if k == 0 then Draw([], pos)
    else
      var i := Pick(rng(pos), |pool|);
      var rest := pool[..i] + pool[i + 1..];
      var tail := Choose(rest, k - 1, rng, pos + 1);
      Draw([pool[i]] + tail.picked, tail.next)
  }

  /** Sampling never reuses an element: the sample is a sub-multiset of the pool. */
  lemma {:induction false} ChooseWithoutReplacement<T>(pool: seq<T>, k: nat, rng: Rng, pos: nat)
    requires k <= |pool|
    ensures multiset(Choose(pool, k, rng, pos).picked) <= multiset(pool)
    decreases k
  {
    if k > 0 {
      var i := Pick(rng(pos), |pool|);
      var rest := pool[..i] + pool[i + 1..];
      assert pool == pool[..i] + [pool[i]] + pool[i + 1..];
      ChooseWithoutReplacement(rest, k - 1, rng, pos + 1);
    }
  }

  /** A sample of a duplicate-free pool is duplicate-free and drawn from the pool. */
  lemma ChooseDistinct<T>(pool: seq<T>, k: nat, rng: Rng, pos: nat)
    requires k <= |pool|
    requires Distinct(pool)
    ensures Distinct(Choose(pool, k, rng, pos).picked)
    ensures Elems(Choose(pool, k, rng, pos).picked) <= Elems(pool)
  {
    var d := Choose(pool, k, rng, pos);
    ChooseWithoutReplacement(pool, k, rng, pos);
    SubMultisetDistinct(d.picked, pool);
    forall x | x in d.picked ensures x in pool {
      assert x in multiset(d.picked);
    }
  }

  /** Choose reads the stream only at positions pos .. pos + k - 1. */
  lemma {:induction false} ChooseLocal<T>(pool: seq<T>, k: nat, rng1: Rng, rng2: Rng, pos: nat)
    requires k <= |pool|
    requires forall n :: pos <= n < pos + k ==> rng1(n) == rng2(n)
    ensures Choose(pool, k, rng1, pos) == Choose(pool, k, rng2, pos)
    decreases k
  {
    if k > 0 {
      var i := Pick(rng1(pos), |pool|);
      var rest := pool[..i] + pool[i + 1..];
      ChooseLocal(rest, k - 1, rng1, rng2, pos + 1);
    }
  }

  /**
   * Every sample without replacement is reachable: for any sequence whose
   * elements can be taken from the pool without reuse, some stream makes
   * Choose return exactly that sequence.
   */
  lemma {:induction false} ChooseReaches<T>(pool: seq<T>, s: seq<T>, pos: nat)
    requires multiset(s) <= multiset(pool)
    ensures |s| <= |pool|
    ensures exists rng: Rng :: Choose(pool, |s|, rng, pos).picked == s
    decreases |s|
  {
    assert |multiset(s)| <= |multiset(pool)| by { MultisetSubCard(multiset(s), multiset(pool)); }
    if |s| == 0 {
      var rng: Rng := n => 0;
      assert Choose(pool, 0, rng, pos).picked == s;
    } else {
      assert s[0] in multiset(pool) by { assert s[0] in multiset(s); }
      assert s[0] in pool;
      var i :| 0 <= i < |pool| && pool[i] == s[0];
      var rest := pool[..i] + pool[i + 1..];
      RemoveMatched(pool, i, s);
      ChooseReaches(rest, s[1..], pos + 1);
      var rng' :| Choose(rest, |s| - 1, rng', pos + 1).picked == s[1..];
      OverrideReaches(pool, s, i, rng', pos);
    }
  }

  /** The stream rng with its draw at pos replaced by v. */
  function Override(rng: Rng, pos: nat, v: nat): (r: Rng)
    ensures r(pos) == v
    ensures forall n :: n != pos ==> r(n) == rng(n)
  {
    n => if n == pos then v else rng(n)
  }

  /** Forcing the first draw to select pool[i] prepends pool[i] to a sample of the rest. */
  lemma OverrideReaches<T>(pool: seq<T>, s: seq<T>, i: nat, rng': Rng, pos: nat)
    requires i < |pool| && 0 < |s| <= |pool| && pool[i] == s[0]
    requires Choose(pool[..i] + pool[i + 1..], |s| - 1, rng', pos + 1).picked == s[1..]
    ensures Choose(pool, |s|, Override(rng', pos, i), pos).picked == s
  {
    var rng := Override(rng', pos, i);
    ChooseLocal(pool[..i] + pool[i + 1..], |s| - 1, rng, rng', pos + 1);
    PickBelow(i, |pool|);
    PrependDraw(pool, s, i, rng, pos);
  }

  /** A stream whose draw at pos selects pool[i] extends a sample of the rest by pool[i]. */
  lemma PrependDraw<T>(pool: seq<T>, s: seq<T>, i: nat, rng: Rng, pos: nat)
    requires i < |pool| && 0 < |s| <= |pool| && pool[i] == s[0]
    requires Pick(rng(pos), |pool|) == i
    requires Choose(pool[..i] + pool[i + 1..], |s| - 1, rng, pos + 1).picked == s[1..]
    ensures Choose(pool, |s|, rng, pos).picked == s
  {
    var tail := Choose(pool[..i] + pool[i + 1..], |s| - 1, rng, pos + 1);
    assert Choose(pool, |s|, rng, pos).picked == [pool[i]] + tail.picked;
    assert [s[0]] + s[1..] == s;
  }

  /** Taking the matched element out of both sides keeps the sub-multiset relation. */
  lemma RemoveMatched<T>(pool: seq<T>, i: nat, s: seq<T>)
    requires i < |pool| && |s| > 0 && pool[i] == s[0]
    requires multiset(s) <= multiset(pool)
    ensures multiset(s[1..]) <= multiset(pool[..i] + pool[i + 1..])
  {
    var rest := pool[..i] + pool[i + 1..];
    assert pool == pool[..i] + [pool[i]] + pool[i + 1..];
    assert s == [s[0]] + s[1..];
    assert multiset(pool) == multiset(rest) + multiset{s[0]};
    assert multiset(s) == multiset(s[1..]) + multiset{s[0]};
    forall y ensures multiset(s[1..])[y] <= multiset(rest)[y] {
      assert multiset(s)[y] <= multiset(pool)[y];
    }
  }

  /** A draw that is already a valid index selects that index. */
  lemma PickBelow(i: nat, n: nat)
    requires i < n
    ensures Pick(i, n) == i
  {
  }

  lemma MultisetSubCard<T>(a: multiset<T>, b: multiset<T>)
    requires a <= b
    ensures |a| <= |b|
  {
    assert b == a + (b - a);
  }
}
