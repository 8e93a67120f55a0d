/**
 * sample_images of sample.py: per selected typhoon, its chronologically
 * sorted block, cut down to at most images_per_typhoon rows when it is
 * longer. A long block always keeps three anchors (the first row, the first
 * row of maximum grade, the last row); the rest of the quota goes to evenly
 * spaced positions among the others and then, if still short, to positions
 * drawn at random from what is left.
 *
 * Positions are kept in a Python set, and the model lists a set of
 * positions in ascending order. CPython lists a set of ints in hash-table
 * order, which is ascending only while every value is below the table
 * size, so for a long typhoon the program's kept rows can come out in
 * another order. Which rows are kept, how many, and that none is taken
 * twice do not depend on the listing order; the ascending order that
 * Positions states, and hence the order of a long block's rows, does.
 */
module CappedCollector {
  import opened Common
  import opened Records
  import opened PyRange
  import opened RandomChoice

  /** The positions below n that are in s (inside) or not in s (not inside), ascending. */
  function PositionList(n: nat, s: set<int>, inside: bool): seq<int>
    decreases n
  {
    if n == 0 then []
    else
      var prefix := PositionList(n - 1, s, inside);
      if (n - 1 in s) == inside then prefix + [n - 1] else prefix
  }

  /** The list holds exactly the positions below n on the requested side of s, ascending. */
  lemma {:induction false} PositionListFacts(n: nat, s: set<int>, inside: bool)
    ensures StrictlyIncreasing(PositionList(n, s, inside))
    ensures forall x :: x in PositionList(n, s, inside) <==> 0 <= x < n && (x in s) == inside
    decreases n
  {
    if n > 0 {
      var prefix := PositionList(n - 1, s, inside);
      PositionListFacts(n - 1, s, inside);
      if (n - 1 in s) == inside {
        var r := prefix + [n - 1];
        assert PositionList(n, s, inside) == r;
        forall i, j | 0 <= i < j < |r| ensures r[i] < r[j] {
          assert r[i] == prefix[i] && prefix[i] in prefix;
          if j < |prefix| {
            assert r[j] == prefix[j];
          }
        }
      }
    }
  }

  /**
   * list(s) (inside) and list(set(range(n)) - s) (not inside) for a set of
   * positions: the positions below n on that side of s, ascending.
   */
  function Positions(n: nat, s: set<int>, inside: bool): (r: seq<int>)
    ensures StrictlyIncreasing(r)
    ensures forall x :: x in r <==> 0 <= x < n && (x in s) == inside
  {
    PositionListFacts(n, s, inside);
    PositionList(n, s, inside)
  }

  /** The positions below n split between those in s and those not in s. */
  lemma {:induction false} PositionsSplit(n: nat, s: set<int>)
    ensures |PositionList(n, s, true)| + |PositionList(n, s, false)| == n
  {
    if n > 0 {
      PositionsSplit(n - 1, s);
    }
  }

  /** Every position of a set of positions below n is listed once. */
  lemma PositionsCount(n: nat, s: set<int>)
    requires forall x :: x in s ==> 0 <= x < n
    ensures |Positions(n, s, true)| == |s|
    ensures |Positions(n, s, false)| == n - |s|
  {
    var r := Positions(n, s, true);
    assert Elems(r) == s;
    IncreasingIsDistinct(r);
    DistinctCard(r);
    PositionsSplit(n, s);
    assert r == PositionList(n, s, true);
    assert Positions(n, s, false) == PositionList(n, s, false);
  }

  /** typhoon_data['grade'].idxmax(): the first position of maximum grade. */
  function PeakIndex(block: seq<Record>): (p: nat)
    requires |block| > 0
    ensures p < |block|
    ensures forall j :: 0 <= j < |block| ==> block[j].grade <= block[p].grade
    ensures forall j :: 0 <= j < p ==> block[j].grade < block[p].grade
  {
    if |block| == 1 then 0
    else
      var p := 1 + PeakIndex(block[1..]);
      assert forall j :: 1 <= j < |block| ==> block[j] == block[1..][j - 1];
      if block[0].grade >= block[p].grade then 0 else p
  }

  /** A set of kept positions and the generator position after choosing them. */
  datatype Kept = Kept(indices: set<int>, next: nat)

  /** Every element of a set of positions lies below n. */
  predicate Below(s: set<int>, n: nat) {
    forall x :: x in s ==> 0 <= x < n
  }

  /**
   * Lines 47-53 of sample.py: with cap - |anchors| slots left, take every
   * step-th free position (step = max(1, free // slots)), at most slots of them.
   */
  function Spread(n: nat, anchors: set<int>, cap: nat): (s: set<int>)
    requires Below(anchors, n)
    ensures anchors <= s && Below(s, n)
    ensures cap <= |anchors| ==> s == anchors
    ensures cap > |anchors| ==> |s| == Min(cap, n)
  {
    var remaining := cap - |anchors|;
    if remaining > 0 then
      var available := Positions(n, anchors, false);
      if |available| > 0 then
        var step := Max1(|available| / remaining);
        var evenly := Take(EveryNth(available, step), remaining);
        SpreadSize(n, anchors, cap, available, step, evenly);
        anchors + Elems(evenly)
      else
        PositionsCount(n, anchors);
        anchors
    else anchors
  }

  /** The evenly spaced positions fill the free slots, or take every free position when there are fewer. */
  lemma SpreadSize(n: nat, anchors: set<int>, cap: nat, available: seq<int>, step: nat, evenly: seq<int>)
    requires Below(anchors, n) && cap > |anchors|
    requires available == Positions(n, anchors, false) && |available| > 0
    requires step == Max1(|available| / (cap - |anchors|))
    requires evenly == Take(EveryNth(available, step), cap - |anchors|)
    ensures Below(anchors + Elems(evenly), n)
    ensures |anchors + Elems(evenly)| == Min(cap, n)
  {
    var remaining := cap - |anchors|;
    var m := |available|;
    PositionsCount(n, anchors);
    var every := EveryNth(available, step);
    assert StrictlyIncreasing(evenly) by {
      assert evenly == every[..|evenly|];
    }
    assert Elems(evenly) <= Elems(available) by {
      forall x | x in evenly ensures x in available {
        assert x in every;
      }
    }
    IncreasingIsDistinct(evenly);
    DistinctCard(evenly);
    assert anchors !! Elems(evenly);
    if remaining <= m {
      StrideCoversQuota(m, remaining);
      assert |evenly| == remaining;
    } else {
      DivSmall(m, remaining);
      assert |Range(0, m, 1)| == m;
      assert |evenly| == m;
    }
    DisjointCard(anchors, Elems(evenly));
  }

  /**
   * Lines 55-64 of sample.py: when fewer than cap positions are kept, draw
   * the shortfall (or all that is left) at random from the free positions.
   */
  function TopUp(n: nat, spread: set<int>, cap: nat, rng: Rng, pos: nat): (k: Kept)
    requires Below(spread, n)
    ensures spread <= k.indices && Below(k.indices, n)
    ensures |spread| >= Min(cap, n) ==> k == Kept(spread, pos)
    ensures |spread| < Min(cap, n) ==> |k.indices| == Min(cap, n)
  {
    PositionsCount(n, spread);
    if |spread| < cap then
      var still := Positions(n, spread, false);
      if |still| > 0 then
        var need := Min(cap - |spread|, |still|);
        var add := Choose(still, need, rng, pos);
        IncreasingIsDistinct(still);
        ChooseDistinct(still, need, rng, pos);
        DistinctCard(add.picked);
        assert Elems(add.picked) <= Elems(still);
        assert spread !! Elems(add.picked);
        DisjointCard(spread, Elems(add.picked));
        Kept(spread + Elems(add.picked), add.next)
      else Kept(spread, pos)
    else Kept(spread, pos)
  }

  /** The anchor positions: the first row, the peak row and the last row; one, two or three positions. */
  function Anchors(n: nat, peak: nat): (a: set<int>)
    requires peak < n
    ensures 0 in a && peak in a && n - 1 in a && Below(a, n)
    ensures 1 <= |a| <= 3
  {
    var a := {0, peak, n - 1};
    assert a == {0} + {peak} + {n - 1};
    a
  }

  /**
   * The kept positions of a block of n rows longer than cap (lines 41-64):
   * the anchors, the spread positions, then the top-up, which never draws.
   */
  function CappedIndices(n: nat, peak: nat, cap: nat, rng: Rng, pos: nat): (k: Kept)
    requires peak < n && cap < n
    ensures Anchors(n, peak) <= k.indices && Below(k.indices, n)
    ensures |k.indices| == Max(cap, |Anchors(n, peak)|)
    ensures k.next == pos
  {
    var anchors := Anchors(n, peak);
    var spread := Spread(n, anchors, cap);
    TopUp(n, spread, cap, rng, pos)
  }

  /**
   * One chronologically sorted block (sample.py lines 36-66): kept whole
   * when it has at most cap rows; otherwise its rows at the kept positions,
   * which include the first, the peak-grade and the last row and number
   * max(cap, number of distinct anchors), no position twice.
   */
  function CapBlock(block: seq<Record>, cap: nat, rng: Rng, pos: nat): (d: Draw<Record>)
    ensures forall x :: x in d.picked ==> x in block
    ensures d.next == pos
    ensures |block| <= cap ==> d.picked == block
    ensures |block| > cap ==>
      && block[0] in d.picked && block[|block| - 1] in d.picked && block[PeakIndex(block)] in d.picked
      && |d.picked| == Max(cap, |Anchors(|block|, PeakIndex(block))|)
      && cap <= |d.picked| <= Max(cap, 3)
  {
    var n := |block|;
    if n <= cap then Draw(block, pos)
    else
      var peak := PeakIndex(block);
      var kept := CappedIndices(n, peak, cap, rng, pos);
      var idx := Positions(n, kept.indices, true);
      PositionsCount(n, kept.indices);
      assert |idx| == Max(cap, |Anchors(n, peak)|) <= Max(cap, 3);
      assert 0 in idx && peak in idx && n - 1 in idx;
      assert forall k :: 0 <= k < |idx| ==> 0 <= idx[k] < n by {
        forall k | 0 <= k < |idx| ensures 0 <= idx[k] < n {
          assert idx[k] in idx;
        }
      }
      Draw(Iloc(block, idx), kept.next)
  }

  /** picked is block.iloc[idx]: the rows at the listed positions, in the order listed. */
  predicate RowsAt(block: seq<Record>, idx: seq<int>, picked: seq<Record>) {
    && |picked| == |idx|
    && forall k :: 0 <= k < |idx| ==> 0 <= idx[k] < |block| && picked[k] == block[idx[k]]
  }

  /**
   * A long block's kept rows are the block's rows at the kept positions:
   * the listing holds every kept position exactly once, whatever order it
   * comes in, so no row position is taken twice.
   */
  lemma RowsAtDistinctPositions(block: seq<Record>, cap: nat, rng: Rng, pos: nat)
    requires |block| > cap
    ensures var kept := CappedIndices(|block|, PeakIndex(block), cap, rng, pos).indices;
            var idx := Positions(|block|, kept, true);
            Distinct(idx) && Elems(idx) == kept && RowsAt(block, idx, CapBlock(block, cap, rng, pos).picked)
  {
    var n := |block|;
    var kept := CappedIndices(n, PeakIndex(block), cap, rng, pos);
    var idx := Positions(n, kept.indices, true);
    KeptListing(n, kept.indices);
    forall k | 0 <= k < |idx| ensures 0 <= idx[k] < n {
      assert idx[k] in idx;
    }
    var picked := Iloc(block, idx);
    assert CapBlock(block, cap, rng, pos).picked == picked;
  }

  /** list(s) for a set of positions below n lists each of them exactly once. */
  lemma KeptListing(n: nat, s: set<int>)
    requires Below(s, n)
    ensures Distinct(Positions(n, s, true)) && Elems(Positions(n, s, true)) == s
  {
    var idx := Positions(n, s, true);
    IncreasingIsDistinct(idx);
    forall i ensures i in Elems(idx) <==> i in s {
      assert i in Elems(idx) <==> i in idx;
    }
  }

  /** One selected typhoon: its rows sorted by time, then capped. */
  function CappedBlock(rows: seq<Record>, id: int, cap: nat, rng: Rng, pos: nat): (d: Draw<Record>)
    ensures OfTyphoon(rows, id, d.picked)
    ensures d.next == pos
  {
    var block := SortByTime(RowsOf(rows, id));
    BlockRows(rows, id, block);
    CapBlock(block, cap, rng, pos)
  }

  /** A typhoon with at most cap rows is kept whole, in chronological order. */
  lemma ShortBlockKeptWhole(rows: seq<Record>, id: int, cap: nat, rng: Rng, pos: nat)
    requires CountOf(rows, id) <= cap
    ensures var d := CappedBlock(rows, id, cap, rng, pos);
            multiset(d.picked) == multiset(RowsOf(rows, id)) && SortedByTime(d.picked)
  {
    var block := SortByTime(RowsOf(rows, id));
    BlockRows(rows, id, block);
    assert CappedBlock(rows, id, cap, rng, pos).picked == block;
  }

  /** A typhoon with more than cap rows keeps its first row, its first row of peak grade and its last row. */
  lemma LongBlockKeepsAnchors(rows: seq<Record>, id: int, cap: nat, rng: Rng, pos: nat)
    requires CountOf(rows, id) > cap
    ensures var block := SortByTime(RowsOf(rows, id));
            var d := CappedBlock(rows, id, cap, rng, pos);
            block[0] in d.picked && block[|block| - 1] in d.picked && block[PeakIndex(block)] in d.picked
  {
    var block := SortByTime(RowsOf(rows, id));
    BlockRows(rows, id, block);
  }

  /** A typhoon with more than cap rows keeps at least cap of them and at most max(cap, 3). */
  lemma LongBlockSize(rows: seq<Record>, id: int, cap: nat, rng: Rng, pos: nat)
    requires CountOf(rows, id) > cap
    ensures cap <= |CappedBlock(rows, id, cap, rng, pos).picked| <= Max(cap, 3)
  {
    var block := SortByTime(RowsOf(rows, id));
    BlockRows(rows, id, block);
  }

  /** With a cap of at least three, a typhoon keeps exactly min(cap, its row count) rows. */
  lemma CapOfThreeIsExact(rows: seq<Record>, id: int, cap: nat, rng: Rng, pos: nat)
    requires cap >= 3
    ensures |CappedBlock(rows, id, cap, rng, pos).picked| == Min(cap, CountOf(rows, id))
  {
    var block := SortByTime(RowsOf(rows, id));
    BlockRows(rows, id, block);
  }

  /** block.iloc[idx]: the rows at the given positions, in the order listed. */
  function Iloc(block: seq<Record>, idx: seq<int>): (r: seq<Record>)
    requires forall k :: 0 <= k < |idx| ==> 0 <= idx[k] < |block|
    ensures |r| == |idx|
    ensures forall x :: x in r ==> x in block
    ensures forall i :: i in idx ==> block[i] in r
  {
    var r := seq(|idx|, k requires 0 <= k < |idx| => block[idx[k]]);
    assert forall i :: i in idx ==> block[i] in r by {
      forall i | i in idx ensures block[i] in r {
        var k :| 0 <= k < |idx| && idx[k] == i;
        assert r[k] == block[i];
      }
    }
    r
  }

  /** Every row of the block is a row of the table belonging to the typhoon. */
  predicate OfTyphoon(rows: seq<Record>, id: int, block: seq<Record>) {
    forall x :: x in block ==> x in rows && x.id == id
  }

  /** Every row of a typhoon's sorted block is one of the table's rows of that typhoon. */
  lemma BlockRows(rows: seq<Record>, id: int, block: seq<Record>)
    requires block == SortByTime(RowsOf(rows, id))
    ensures |block| == CountOf(rows, id)
    ensures forall x :: x in block ==> x in rows && x.id == id
  {
    forall x | x in block ensures x in rows && x.id == id {
      assert multiset(block)[x] > 0;
    }
  }

  /** All blocks, threading the generator through the typhoons in selection order. */
  function CappedBlocks(rows: seq<Record>, sel: seq<int>, cap: nat, rng: Rng, pos: nat): (d: Draw<seq<Record>>)
    ensures |d.picked| == |sel|
    ensures d.next == pos
    ensures forall k :: 0 <= k < |sel| ==> OfTyphoon(rows, sel[k], d.picked[k])
  {
    if |sel| == 0 then Draw([], pos)
    else
      var first := CappedBlock(rows, sel[0], cap, rng, pos);
      var rest := CappedBlocks(rows, sel[1..], cap, rng, first.next);
      var bs := [first.picked] + rest.picked;
      assert forall k :: 1 <= k < |sel| ==> bs[k] == rest.picked[k - 1] && sel[k] == sel[1..][k - 1];
      Draw(bs, rest.next)
  }

  /**
   * Since no block advances the generator, block k is what CappedBlock
   * gives for the k-th selected typhoon alone: the blocks do not depend on
   * one another.
   */
  lemma {:induction false} BlockAt(rows: seq<Record>, sel: seq<int>, cap: nat, rng: Rng, pos: nat, k: nat)
    requires k < |sel|
    ensures CappedBlocks(rows, sel, cap, rng, pos).picked[k] == CappedBlock(rows, sel[k], cap, rng, pos).picked
  {
    var first := CappedBlock(rows, sel[0], cap, rng, pos);
    var rest := CappedBlocks(rows, sel[1..], cap, rng, pos);
    assert first.next == pos;
    assert CappedBlocks(rows, sel, cap, rng, pos).picked == [first.picked] + rest.picked;
    if k > 0 {
      BlockAt(rows, sel[1..], cap, rng, pos, k - 1);
      assert sel[1..][k - 1] == sel[k];
    }
  }

  /**
   * sample_images(df, sampled_typhoons, images_per_typhoon) of sample.py;
   * rng is an arbitrary draw stream standing in for the global generator.
   */
  function SampleImagesCapped(rows: seq<Record>, sel: seq<int>, cap: nat, rng: Rng): (r: Result<seq<Record>>)
    ensures r.Err? <==> |sel| == 0
    ensures r.Err? ==> r.error == NoObjectsToConcatenate
    ensures r.Ok? ==> forall x :: x in r.value ==> x in rows && x.id in sel
  {
    if |sel| == 0 then Err(NoObjectsToConcatenate)
    else
      var blocks := CappedBlocks(rows, sel, cap, rng, 0).picked;
      assert forall x :: x in Flatten(blocks) ==> x in rows && x.id in sel by {
        forall x | x in Flatten(blocks) ensures x in rows && x.id in sel {
          FlattenMember(blocks, x);
          var k :| 0 <= k < |blocks| && x in blocks[k];
          assert OfTyphoon(rows, sel[k], blocks[k]);
        }
      }
      Ok(Flatten(blocks))
  }

  /** The output is block k of typhoon sel[k], for each k in selection order. */
  lemma CappedOutput(rows: seq<Record>, sel: seq<int>, cap: nat, rng: Rng)
    requires |sel| > 0
    ensures exists bs :: |bs| == |sel| && SampleImagesCapped(rows, sel, cap, rng).value == Flatten(bs) &&
                         forall k :: 0 <= k < |sel| ==> bs[k] == CappedBlock(rows, sel[k], cap, rng, 0).picked
  {
    var bs := CappedBlocks(rows, sel, cap, rng, 0).picked;
    forall k | 0 <= k < |sel| ensures bs[k] == CappedBlock(rows, sel[k], cap, rng, 0).picked {
      BlockAt(rows, sel, cap, rng, 0, k);
    }
  }
}
