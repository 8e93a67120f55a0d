/**
 * sample_typhoons of sample_v2.py: year-stratified selection of typhoon ids.
 *
 * Each typhoon gets one first year (the year of its first row in table
 * order). Every first year contributes min(quota, size of its group) ids drawn
 * without replacement, quota being total / #years rounded half to even. The
 * selection is then topped up from the ids not yet taken and, if it overshot,
 * cut down to total without replacement.
 */
module StratifiedSelector {
  import opened Common
  import opened Records
  import opened RandomChoice

  /** Position of the first row, in table order, that carries the id. */
  function FirstRowOf(rows: seq<Record>, id: int): (i: nat)
    requires id in IdSet(rows)
    ensures i < |rows| && rows[i].id == id
    ensures forall j :: 0 <= j < i ==> rows[j].id != id
  {
    if rows[0].id == id then 0
    else
      assert id in IdSet(rows[1..]) by {
        var r :| r in rows && r.id == id;
        assert r in rows[1..] by { assert r != rows[0]; }
      }
      1 + FirstRowOf(rows[1..], id)
  }

  /** groupby('id')['year'].first(): the year of the typhoon's first row in table order. */
  function FirstYear(rows: seq<Record>, id: int): int
    requires id in IdSet(rows)
  {
    rows[FirstRowOf(rows, id)].year
  }

  /** The first-year column of the grouped table, one entry per id. */
  function FirstYears(rows: seq<Record>, ids: seq<int>): (ys: seq<int>)
    requires Elems(ids) <= IdSet(rows)
    ensures |ys| == |ids|
    ensures forall k :: 0 <= k < |ids| ==> ys[k] == FirstYear(rows, ids[k])
  {
    if |ids| == 0 then []
    else
      assert ids[0] in Elems(ids);
      assert Elems(ids[1..]) <= Elems(ids);
      [FirstYear(rows, ids[0])] + FirstYears(rows, ids[1..])
  }

  /** sorted(df_with_years['year'].unique()): the distinct first years, ascending. */
  function Years(rows: seq<Record>): (years: seq<int>)
    ensures StrictlyIncreasing(years)
    ensures forall y :: y in years <==> exists id :: id in IdSet(rows) && FirstYear(rows, id) == y
    ensures |years| == 0 <==> |rows| == 0
  {
    var ids := SortedIds(rows);
    var ys := FirstYears(rows, ids);
    var years := SortedUnique(ys);
    assert forall y :: y in years <==> y in ys by {
      forall y ensures y in years <==> y in ys {
        assert y in years <==> y in Elems(years);
        assert y in ys <==> y in Elems(ys);
      }
    }
    assert forall y :: y in ys ==> exists id :: id in IdSet(rows) && FirstYear(rows, id) == y;
    assert forall id :: id in IdSet(rows) ==> FirstYear(rows, id) in ys by {
      forall id | id in IdSet(rows) ensures FirstYear(rows, id) in ys {
        assert id in Elems(ids);
        var k :| 0 <= k < |ids| && ids[k] == id;
        assert ys[k] == FirstYear(rows, id);
      }
    }
    assert |rows| > 0 ==> |years| > 0 by {
      if |rows| > 0 {
        assert rows[0].id in IdSet(rows);
        assert FirstYear(rows, rows[0].id) in years;
      }
    }
    years
  }

  /** The ids whose first year is the given year, in id order. */
  function YearGroup(rows: seq<Record>, ids: seq<int>, year: int): (g: seq<int>)
    requires Elems(ids) <= IdSet(rows)
    ensures forall id :: id in g <==> id in ids && FirstYear(rows, id) == year
    ensures Distinct(ids) ==> Distinct(g)
  {
    if |ids| == 0 then []
    else
      assert ids[0] in Elems(ids);
      assert Elems(ids[1..]) <= Elems(ids);
      var rest := YearGroup(rows, ids[1..], year);
      if FirstYear(rows, ids[0]) == year then
        assert Distinct(ids) ==> ids[0] !in ids[1..];
        [ids[0]] + rest
      else rest
  }

  /**
   * int(np.round(total / n)) computed exactly: the integer nearest to the
   * quotient, ties going to the even neighbour.
   */
  function RoundHalfEven(total: nat, n: nat): (q: nat)
    requires n > 0
    ensures var twiceError := 2 * (total - q * n); -twiceError <= n && twiceError <= n
    ensures var twiceError := 2 * (total - q * n); (twiceError == n || -twiceError == n) ==> q % 2 == 0
  {
    var q := total / n;
    var r := total % n;
    DivModParts(total, n, q, r);
    assert total - q * n == r;
    assert total - (q + 1) * n == r - n;
    if 2 * r < n then q
    else if 2 * r > n then q + 1
    else if q % 2 == 0 then q
    else q + 1
  }

  lemma DivModParts(total: nat, n: nat, q: nat, r: nat)
    requires n > 0 && q == total / n && r == total % n
    ensures total == q * n + r && 0 <= r < n
    ensures (q + 1) * n == q * n + n
  {
  }

  /** One year's chunk of the per-year pass: its size, no repeats, and every id of that first year. */
  predicate ChunkOk(rows: seq<Record>, ids: seq<int>, year: int, quota: nat, chunk: seq<int>)
    requires Elems(ids) <= IdSet(rows)
  {
    && |chunk| == Min(quota, |YearGroup(rows, ids, year)|)
    && Distinct(chunk)
    && forall id :: id in chunk ==> id in ids && FirstYear(rows, id) == year
  }

  /**
   * The loop over the sorted years (sample_v2.py lines 29-36): one chunk per
   * year, drawn from that year's group, threading the generator.
   */
  function PerYearPass(rows: seq<Record>, ids: seq<int>, years: seq<int>, quota: nat, rng: Rng, pos: nat): (d: Draw<seq<int>>)
    requires Distinct(ids) && Elems(ids) <= IdSet(rows)
    ensures |d.picked| == |years|
    ensures forall k :: 0 <= k < |years| ==> ChunkOk(rows, ids, years[k], quota, d.picked[k])
    decreases |years|
  {
    if |years| == 0 then Draw([], pos)
    else
      var group := YearGroup(rows, ids, years[0]);
      var n := Min(quota, |group|);
      var chosen := if n > 0 then Choose(group, n, rng, pos) else Draw([], pos);
      ChooseDistinct(group, n, rng, pos);
      var more := PerYearPass(rows, ids, years[1..], quota, rng, chosen.next);
      var picked := [chosen.picked] + more.picked;
      assert ChunkOk(rows, ids, years[0], quota, picked[0]) by {
        assert forall id :: id in chosen.picked ==> id in Elems(chosen.picked);
      }
      assert forall k :: 1 <= k < |years| ==> picked[k] == more.picked[k - 1] && years[k] == years[1..][k - 1];
      Draw(picked, more.next)
  }

  /** list(set(pool) - set(taken)), keeping the order of pool. */
  function Unselected(pool: seq<int>, taken: seq<int>): (r: seq<int>)
    ensures forall x :: x in r <==> x in pool && x !in taken
    ensures Distinct(pool) ==> Distinct(r)
  {
    if |pool| == 0 then []
    else
      var rest := Unselected(pool[1..], taken);
      if pool[0] in taken then rest
      else
        assert Distinct(pool) ==> pool[0] !in pool[1..];
        [pool[0]] + rest
  }

  /**
   * The top-up step (sample_v2.py lines 39-45): while short of total, draw
   * the shortfall, or everything left, from the ids not yet selected.
   */
  function TopUp(rows: seq<Record>, sampled: seq<int>, total: nat, rng: Rng, pos: nat): (d: Draw<int>)
    requires Distinct(sampled) && Elems(sampled) <= IdSet(rows)
    ensures Distinct(d.picked) && Elems(d.picked) <= IdSet(rows)
    ensures |sampled| <= |d.picked| && d.picked[..|sampled|] == sampled
    ensures |d.picked| == if |sampled| < total then Min(total, |IdSet(rows)|) else |sampled|
  {
    if |sampled| < total then
      var remaining := total - |sampled|;
      var available := Unselected(UniqueIds(rows), sampled);
      PoolSize(rows, sampled, available);
      if |available| > 0 then
        var add := Choose(available, Min(remaining, |available|), rng, pos);
        ChooseDistinct(available, Min(remaining, |available|), rng, pos);
        ExtendSelection(rows, sampled, available, add.picked);
        assert (sampled + add.picked)[..|sampled|] == sampled;
        Draw(sampled + add.picked, add.next)
      else
        Draw(sampled, pos)
    else
      Draw(sampled, pos)
  }

  /** Appending ids drawn from the unselected pool keeps the selection duplicate-free and within the table. */
  lemma ExtendSelection(rows: seq<Record>, sampled: seq<int>, available: seq<int>, add: seq<int>)
    requires Distinct(sampled) && Elems(sampled) <= IdSet(rows)
    requires available == Unselected(UniqueIds(rows), sampled)
    requires Distinct(add) && Elems(add) <= Elems(available)
    ensures Distinct(sampled + add) && Elems(sampled + add) <= IdSet(rows)
  {
    var u := UniqueIds(rows);
    forall x | x in add ensures x !in sampled && x in IdSet(rows) {
      assert x in Elems(add);
      assert x in available;
      assert x in Elems(u);
    }
    AppendDistinct(sampled, add);
    forall x | x in Elems(sampled + add) ensures x in IdSet(rows) {
      if x !in add {
        assert x in sampled;
        assert x in Elems(sampled);
      }
    }
  }

  /** The ids not yet selected number exactly the distinct ids minus the selected ones. */
  lemma PoolSize(rows: seq<Record>, sampled: seq<int>, available: seq<int>)
    requires Distinct(sampled) && Elems(sampled) <= IdSet(rows)
    requires available == Unselected(UniqueIds(rows), sampled)
    ensures |available| == |IdSet(rows)| - |sampled|
  {
    var all := IdSet(rows);
    var taken := Elems(sampled);
    var u := UniqueIds(rows);
    forall x ensures x in Elems(available) <==> x in all - taken {
      assert x in available <==> x in u && x !in sampled;
      assert x in u <==> x in Elems(u);
      assert x in sampled <==> x in taken;
    }
    assert Elems(available) == all - taken;
    DistinctCard(available);
    DistinctCard(sampled);
    DisjointCard(all - taken, taken);
    assert all == (all - taken) + taken;
  }

  /** The trim step (sample_v2.py lines 48-49): cut an overshoot down to total without replacement. */
  function Trim(sampled: seq<int>, total: nat, rng: Rng, pos: nat): (d: Draw<int>)
    requires Distinct(sampled)
    ensures Distinct(d.picked) && Elems(d.picked) <= Elems(sampled)
    ensures |d.picked| == Min(|sampled|, total)
    ensures |sampled| <= total ==> d == Draw(sampled, pos)
  {
    if |sampled| > total then
      ChooseDistinct(sampled, total, rng, pos);
      Choose(sampled, total, rng, pos)
    else
      Draw(sampled, pos)
  }

  /**
   * sample_typhoons(df, total_typhoons, seed): rng is an arbitrary draw
   * stream standing in for the seeded generator. An empty table has no
   * years, and total / 0 raises.
   */
  function SampleTyphoons(rows: seq<Record>, total: nat, rng: Rng): (r: Result<seq<int>>)
    ensures r.Err? <==> |rows| == 0
    ensures r.Err? ==> r.error == DivisionByZero
    ensures r.Ok? ==> Distinct(r.value) && Elems(r.value) <= IdSet(rows)
    ensures r.Ok? ==> |r.value| == Min(total, |IdSet(rows)|)
  {
    var years := Years(rows);
    if |years| == 0 then Err(DivisionByZero)
    else
      var ids := SortedIds(rows);
      var quota := RoundHalfEven(total, |years|);
      var pass := PerYearPass(rows, ids, years, quota, rng, 0);
      var sampled := Flatten(pass.picked);
      PassDistinct(rows, ids, years, quota, pass.picked);
      DistinctSubsetLength(sampled, IdSet(rows));
      var topped := TopUp(rows, sampled, total, rng, pass.next);
      var trimmed := Trim(topped.picked, total, rng, topped.next);
      Ok(trimmed.picked)
  }

  /** The per-year chunks together hold distinct ids of the table: years are distinct and each id has one first year. */
  lemma PassDistinct(rows: seq<Record>, ids: seq<int>, years: seq<int>, quota: nat, chunks: seq<seq<int>>)
    requires StrictlyIncreasing(years) && Elems(ids) == IdSet(rows)
    requires |chunks| == |years|
    requires forall k :: 0 <= k < |years| ==> ChunkOk(rows, ids, years[k], quota, chunks[k])
    ensures Distinct(Flatten(chunks))
    ensures Elems(Flatten(chunks)) <= IdSet(rows)
  {
    forall i, j, x | 0 <= i < j < |chunks| && x in chunks[i]
      ensures x !in chunks[j]
    {
      assert ChunkOk(rows, ids, years[i], quota, chunks[i]);
      assert ChunkOk(rows, ids, years[j], quota, chunks[j]);
      assert years[i] < years[j];
    }
    forall i | 0 <= i < |chunks| ensures Distinct(chunks[i]) {
      assert ChunkOk(rows, ids, years[i], quota, chunks[i]);
    }
    FlattenDistinct(chunks);
    forall x | x in Elems(Flatten(chunks)) ensures x in IdSet(rows) {
      FlattenMember(chunks, x);
      var i :| 0 <= i < |chunks| && x in chunks[i];
      assert ChunkOk(rows, ids, years[i], quota, chunks[i]);
      assert x in Elems(ids);
    }
  }

  /**
   * When the per-year pass does not overshoot, nothing is trimmed: the
   * selection starts with the per-year chunks, year by year, and the top-up
   * only appends.
   */
  lemma StratifiedPrefix(rows: seq<Record>, total: nat, rng: Rng)
    requires |rows| > 0
    ensures var years := Years(rows);
            var pass := PerYearPass(rows, SortedIds(rows), years, RoundHalfEven(total, |years|), rng, 0);
            var flat := Flatten(pass.picked);
            var r := SampleTyphoons(rows, total, rng);
            |flat| <= total ==> r.Ok? && |flat| <= |r.value| && r.value[..|flat|] == flat
  {
    var years := Years(rows);
    var ids := SortedIds(rows);
    var quota := RoundHalfEven(total, |years|);
    var pass := PerYearPass(rows, ids, years, quota, rng, 0);
    var flat := Flatten(pass.picked);
    PassDistinct(rows, ids, years, quota, pass.picked);
    var topped := TopUp(rows, flat, total, rng, pass.next);
    var trimmed := Trim(topped.picked, total, rng, topped.next);
    assert SampleTyphoons(rows, total, rng) == Ok(trimmed.picked);
    if |flat| <= total {
      assert |topped.picked| <= total;
      assert trimmed.picked == topped.picked;
    }
  }

  /**
   * When the per-year pass overshoots, the top-up adds nothing and the trim
   * keeps exactly total of the per-year picks: every selected typhoon was
   * drawn in its first year's pass.
   */
  lemma OvershootTrimsPass(rows: seq<Record>, total: nat, rng: Rng)
    requires |rows| > 0
    ensures var years := Years(rows);
            var pass := PerYearPass(rows, SortedIds(rows), years, RoundHalfEven(total, |years|), rng, 0);
            var flat := Flatten(pass.picked);
            var r := SampleTyphoons(rows, total, rng);
            |flat| > total ==> r.Ok? && |r.value| == total && Elems(r.value) <= Elems(flat)
  {
    var years := Years(rows);
    var ids := SortedIds(rows);
    var quota := RoundHalfEven(total, |years|);
    var pass := PerYearPass(rows, ids, years, quota, rng, 0);
    var flat := Flatten(pass.picked);
    PassDistinct(rows, ids, years, quota, pass.picked);
    var topped := TopUp(rows, flat, total, rng, pass.next);
    var trimmed := Trim(topped.picked, total, rng, topped.next);
    assert SampleTyphoons(rows, total, rng) == Ok(trimmed.picked);
    if |flat| > total {
      assert topped.picked == topped.picked[..|flat|] == flat;
    }
  }

  /** Requesting at least as many typhoons as exist selects every typhoon (no error, no shortfall). */
  lemma SelectsAllWhenShort(rows: seq<Record>, total: nat, rng: Rng)
    requires |rows| > 0
    requires total >= |IdSet(rows)|
    ensures SampleTyphoons(rows, total, rng).Ok?
    ensures Elems(SampleTyphoons(rows, total, rng).value) == IdSet(rows)
  {
    var r := SampleTyphoons(rows, total, rng).value;
    DistinctCard(r);
    SubsetEqualCard(Elems(r), IdSet(rows));
  }
}
