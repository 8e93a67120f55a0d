/**
 * sample_typhoons of sample.py: the deterministic year-stride selector.
 *
 * Each typhoon's first year is the minimum year over its rows. The distinct
 * first years are sorted, every step-th one is taken (step = max(1, #years //
 * total), at most total of them), and for each chosen year the typhoon with
 * the smallest id among those first seen that year is selected. No generator
 * is involved. total = 0 makes `//` raise.
 */
module StrideSelector {
  import opened Common
  import opened Records
  import opened PyRange

  /** Position of a row of the typhoon holding its minimum year (the first such row). */
  function MinYearRow(rows: seq<Record>, id: int): (i: nat)
    requires id in IdSet(rows)
    ensures i < |rows| && rows[i].id == id
    ensures forall j :: 0 <= j < |rows| && rows[j].id == id ==> rows[i].year <= rows[j].year
  {
    if rows[0].id == id && id !in IdSet(rows[1..]) then 0
    else if rows[0].id != id then
      assert id in IdSet(rows[1..]) by {
        var r :| r in rows && r.id == id;
        assert r in rows[1..] by { assert r != rows[0]; }
      }
      1 + MinYearRow(rows[1..], id)
    else
      var k := 1 + MinYearRow(rows[1..], id);
      assert forall j :: 1 <= j < |rows| ==> rows[j] == rows[1..][j - 1];
      if rows[k].year < rows[0].year then k else 0
  }

  /** groupby('id').agg({'year': 'min'}): the typhoon's first year in this variant. */
  function MinYear(rows: seq<Record>, id: int): int
    requires id in IdSet(rows)
  {
    rows[MinYearRow(rows, id)].year
  }

  /** The first_year column of typhoon_info, one entry per id. */
  function MinYears(rows: seq<Record>, ids: seq<int>): (ys: seq<int>)
    requires Elems(ids) <= IdSet(rows)
    ensures |ys| == |ids|
    ensures forall k :: 0 <= k < |ids| ==> ys[k] == MinYear(rows, ids[k])
  {
    if |ids| == 0 then []
    else
      assert ids[0] in Elems(ids);
      assert Elems(ids[1..]) <= Elems(ids);
      [MinYear(rows, ids[0])] + MinYears(rows, ids[1..])
  }

  /** The distinct minimum years of the typhoons, ascending. */
  function AllYears(rows: seq<Record>): (years: seq<int>)
    ensures StrictlyIncreasing(years)
    ensures forall y :: y in years <==> exists id :: id in IdSet(rows) && MinYear(rows, id) == y
  {
    var ids := SortedIds(rows);
    var ys := MinYears(rows, ids);
    var years := SortedUnique(ys);
    assert forall y :: y in years <==> y in ys by {
      forall y ensures y in years <==> y in ys {
        assert y in years <==> y in Elems(years);
        assert y in ys <==> y in Elems(ys);
      }
    }
    assert forall id :: id in IdSet(rows) ==> MinYear(rows, id) in ys by {
      forall id | id in IdSet(rows) ensures MinYear(rows, id) in ys {
        assert id in Elems(ids);
        var k :| 0 <= k < |ids| && ids[k] == id;
        assert ys[k] == MinYear(rows, id);
      }
    }
    years
  }

  /**
   * target_year_indices (sample.py lines 19-20): list(range(0, n, step))[:total]
   * with step = max(1, n // total). They are every step-th position from 0,
   * strictly increasing, below n, and exactly min(total, n) of them.
   */
  function TargetPositions(n: nat, total: nat): (p: seq<int>)
    requires total > 0
    ensures |p| == Min(total, n)
    ensures forall k :: 0 <= k < |p| ==> 0 <= p[k] < n && p[k] == k * Max1(n / total)
    ensures forall i, j :: 0 <= i < j < |p| ==> p[i] < p[j]
  {
    var step := Max1(n / total);
    PositionFacts(n, step);
    TargetCount(n, total);
    Take(Range(0, n, step), total)
  }

  /** The progression range(0, n, step) lies in [0, n) and increases. */
  lemma PositionFacts(n: nat, step: nat)
    requires step >= 1
    ensures forall k :: 0 <= k < |Range(0, n, step)| ==> 0 <= Range(0, n, step)[k] < n
    ensures forall i, j :: 0 <= i < j < |Range(0, n, step)| ==> Range(0, n, step)[i] < Range(0, n, step)[j]
  {
    IndicesInBounds(n, step);
    forall i, j | 0 <= i < j < |Range(0, n, step)| ensures Range(0, n, step)[i] < Range(0, n, step)[j] {
      RangeIncreasing(n, step, i, j);
    }
  }

  /** range(0, n, max(1, n // total))[:total] has exactly min(total, n) entries. */
  lemma TargetCount(n: nat, total: nat)
    requires total > 0
    ensures |Take(Range(0, n, Max1(n / total)), total)| == Min(total, n)
  {
    var step := Max1(n / total);
    var r := Range(0, n, step);
    if total <= n {
      StrideCoversQuota(n, total);
    } else {
      DivSmall(n, total);
      assert step == 1;
      UnitRangeLength(0, n);
    }
  }

  /** target_years (sample.py line 21): the sorted years at the target positions. */
  function TargetYears(years: seq<int>, total: nat): (t: seq<int>)
    requires total > 0
    ensures |t| == Min(total, |years|)
    ensures forall k :: 0 <= k < |t| ==> t[k] in years
    ensures StrictlyIncreasing(years) ==> StrictlyIncreasing(t)
  {
    var p := TargetPositions(|years|, total);
    seq(|p|, k requires 0 <= k < |p| => years[p[k]])
  }

  /** The k-th target year is the year at position k * step, step = max(1, num_years // total_typhoons). */
  lemma TargetYearAt(years: seq<int>, total: nat, k: nat)
    requires total > 0 && k < |TargetYears(years, total)|
    ensures k * Max1(|years| / total) < |years|
    ensures TargetYears(years, total)[k] == years[k * Max1(|years| / total)]
  {
    var p := TargetPositions(|years|, total);
    assert p[k] == k * Max1(|years| / total);
  }

  /**
   * candidates.iloc[0]: the first id, in id order, whose first year is the
   * given year; None when no typhoon starts that year.
   */
  function FirstIdOfYear(rows: seq<Record>, ids: seq<int>, year: int): (r: Option<int>)
    requires Elems(ids) <= IdSet(rows)
    ensures r.Some? ==> r.value in ids && MinYear(rows, r.value) == year
    ensures r.Some? ==> forall j :: 0 <= j < |ids| && MinYear(rows, ids[j]) == year ==>
      (StrictlyIncreasing(ids) ==> r.value <= ids[j])
    ensures r.None? <==> forall j :: 0 <= j < |ids| ==> MinYear(rows, ids[j]) != year
  {
    if |ids| == 0 then None
    else
      assert ids[0] in Elems(ids);
      assert Elems(ids[1..]) <= Elems(ids);
      assert forall j :: 1 <= j < |ids| ==> ids[j] == ids[1..][j - 1];
      if MinYear(rows, ids[0]) == year then Some(ids[0])
      else FirstIdOfYear(rows, ids[1..], year)
  }

  /** Some typhoon of ids first appears in the year. */
  predicate HasCandidate(rows: seq<Record>, ids: seq<int>, year: int)
    requires Elems(ids) <= IdSet(rows)
  {
    exists id :: id in ids && MinYear(rows, id) == year
  }

  /** Every target year has a candidate. */
  predicate AllHaveCandidates(rows: seq<Record>, ids: seq<int>, targets: seq<int>)
    requires Elems(ids) <= IdSet(rows)
  {
    forall k :: 0 <= k < |targets| ==> HasCandidate(rows, ids, targets[k])
  }

  /** The loop over target years (sample.py lines 23-28): one id per year that has candidates. */
  function PickPerYear(rows: seq<Record>, ids: seq<int>, targets: seq<int>): (r: seq<int>)
    requires Elems(ids) <= IdSet(rows)
    ensures |r| <= |targets|
    ensures forall k :: 0 <= k < |r| ==> r[k] in ids
    ensures AllHaveCandidates(rows, ids, targets) ==> |r| == |targets|
  {
    if |targets| == 0 then []
    else
      var rest := PickPerYear(rows, ids, targets[1..]);
      CandidatesTail(rows, ids, targets);
      match FirstIdOfYear(rows, ids, targets[0])
      case Some(id) =>
        [id] + rest
      case None =>
        NoCandidate(rows, ids, targets[0]);
        rest
  }

  /** When every target year has a candidate, the k-th pick is the candidates.iloc[0] of the k-th target year. */
  lemma {:induction false} PickAt(rows: seq<Record>, ids: seq<int>, targets: seq<int>, k: nat)
    requires Elems(ids) <= IdSet(rows)
    requires AllHaveCandidates(rows, ids, targets) && k < |targets|
    ensures k < |PickPerYear(rows, ids, targets)|
    ensures FirstIdOfYear(rows, ids, targets[k]) == Some(PickPerYear(rows, ids, targets)[k])
  {
    var rest := PickPerYear(rows, ids, targets[1..]);
    CandidatesTail(rows, ids, targets);
    CandidateFound(rows, ids, targets[0]);
    var first := FirstIdOfYear(rows, ids, targets[0]);
    assert PickPerYear(rows, ids, targets) == [first.value] + rest;
    if k > 0 {
      PickAt(rows, ids, targets[1..], k - 1);
      assert targets[1..][k - 1] == targets[k];
    }
  }

  /** A year that no listed typhoon starts in has no candidate. */
  lemma NoCandidate(rows: seq<Record>, ids: seq<int>, year: int)
    requires Elems(ids) <= IdSet(rows)
    requires forall j :: 0 <= j < |ids| ==> MinYear(rows, ids[j]) != year
    ensures !HasCandidate(rows, ids, year)
  {
    forall id | id in ids ensures MinYear(rows, id) != year {
      var j :| 0 <= j < |ids| && ids[j] == id;
    }
  }

  /** A year with a candidate yields a pick. */
  lemma CandidateFound(rows: seq<Record>, ids: seq<int>, year: int)
    requires Elems(ids) <= IdSet(rows)
    requires HasCandidate(rows, ids, year)
    ensures FirstIdOfYear(rows, ids, year).Some?
  {
    var id :| id in ids && MinYear(rows, id) == year;
    var j :| 0 <= j < |ids| && ids[j] == id;
  }

  /** When every target year has a candidate, so does every later one. */
  lemma CandidatesTail(rows: seq<Record>, ids: seq<int>, targets: seq<int>)
    requires Elems(ids) <= IdSet(rows) && |targets| > 0
    ensures AllHaveCandidates(rows, ids, targets) ==> AllHaveCandidates(rows, ids, targets[1..])
  {
    if AllHaveCandidates(rows, ids, targets) {
      forall k | 0 <= k < |targets| - 1 ensures HasCandidate(rows, ids, targets[1..][k]) {
        assert targets[1..][k] == targets[k + 1];
      }
    }
  }

  /**
   * sample_typhoons(df, total_typhoons) of sample.py. Every chosen year has a
   * candidate, so exactly one id is picked per target year.
   */
  function SampleTyphoons(rows: seq<Record>, total: nat): (r: Result<seq<int>>)
    ensures r.Err? <==> total == 0
    ensures r.Err? ==> r.error == DivisionByZero
    ensures r.Ok? ==> |r.value| == Min(total, |AllYears(rows)|)
    ensures r.Ok? ==> forall k :: 0 <= k < |r.value| ==> r.value[k] in IdSet(rows)
  {
    if total == 0 then Err(DivisionByZero)
    else
      var ids := SortedIds(rows);
      var years := AllYears(rows);
      var targets := TargetYears(years, total);
      TargetsHaveCandidates(rows, ids, years, total);
      var picked := PickPerYear(rows, ids, targets);
      assert forall k :: 0 <= k < |picked| ==> picked[k] in Elems(ids);
      Ok(picked)
  }

  lemma TargetsHaveCandidates(rows: seq<Record>, ids: seq<int>, years: seq<int>, total: nat)
    requires total > 0 && ids == SortedIds(rows) && years == AllYears(rows)
    ensures AllHaveCandidates(rows, ids, TargetYears(years, total))
  {
    var t := TargetYears(years, total);
    forall k | 0 <= k < |t| ensures HasCandidate(rows, ids, t[k]) {
      assert t[k] in years;
      var id :| id in IdSet(rows) && MinYear(rows, id) == t[k];
      assert id in Elems(ids);
    }
  }

  /**
   * The k-th selected typhoon first appears in the k-th target year, it is
   * the smallest id among the typhoons first seen that year, and the target
   * years strictly increase, so no id is selected twice.
   */
  lemma SmallestIdPerTargetYear(rows: seq<Record>, total: nat)
    requires total > 0
    ensures var r := SampleTyphoons(rows, total).value;
            var targets := TargetYears(AllYears(rows), total);
            && |r| == |targets|
            && (forall k :: 0 <= k < |r| ==> MinYear(rows, r[k]) == targets[k])
            && (forall k, id :: 0 <= k < |r| && id in IdSet(rows) && MinYear(rows, id) == targets[k] ==> r[k] <= id)
            && StrictlyIncreasing(targets)
            && Distinct(r)
  {
    var ids := SortedIds(rows);
    var years := AllYears(rows);
    var targets := TargetYears(years, total);
    TargetsHaveCandidates(rows, ids, years, total);
    var r := PickPerYear(rows, ids, targets);
    assert SampleTyphoons(rows, total) == Ok(r);
    forall k | 0 <= k < |r| ensures r[k] in IdSet(rows) && MinYear(rows, r[k]) == targets[k] {
      PickAt(rows, ids, targets, k);
      assert r[k] in Elems(ids);
    }
    forall k, id | 0 <= k < |r| && id in IdSet(rows) && MinYear(rows, id) == targets[k]
      ensures r[k] <= id
    {
      PickAt(rows, ids, targets, k);
      FirstIdIsSmallest(rows, ids, targets[k], r[k], id);
    }
    forall i, j | 0 <= i < j < |r| ensures r[i] != r[j] {
      assert targets[i] < targets[j];
    }
  }

  /**
   * The stride end to end: the k-th selected typhoon first appears in the
   * year at position k * max(1, num_years // total_typhoons) of the sorted
   * first years.
   */
  lemma PickFollowsStride(rows: seq<Record>, total: nat, picked: seq<int>, k: nat)
    requires SampleTyphoons(rows, total) == Ok(picked) && k < |picked|
    ensures var years := AllYears(rows);
            var step := Max1(|years| / total);
            0 <= k * step < |years| && MinYear(rows, picked[k]) == years[k * step]
  {
    SmallestIdPerTargetYear(rows, total);
    TargetYearAt(AllYears(rows), total, k);
  }

  /** The candidate iloc[0] picks precedes, in id order, every typhoon first seen in that year. */
  lemma FirstIdIsSmallest(rows: seq<Record>, ids: seq<int>, year: int, first: int, id: int)
    requires ids == SortedIds(rows)
    requires FirstIdOfYear(rows, ids, year) == Some(first)
    requires id in IdSet(rows) && MinYear(rows, id) == year
    ensures first <= id
  {
    assert id in Elems(ids);
    var j :| 0 <= j < |ids| && ids[j] == id;
  }
}
