/**
 * The per-image table both script variants load from aux_data.csv, and the
 * table operations they lean on pandas for: boolean-mask selection of one
 * typhoon's rows, sort_values on (year, month, day, hour), value_counts,
 * unique() and the id-sorted key order of groupby.
 */
module Records {
  import opened Common

  /** One row of aux_data.csv: one observed image of one typhoon. */
  datatype Record = Record(
    id: int,
    year: int,
    month: int,
    day: int,
    hour: int,
    grade: int,
    imagePath: string)

  /** Lexicographic order on (year, month, day, hour), the sort_values key. */
  predicate TimeLeq(a: Record, b: Record) {
    if a.year != b.year then a.year < b.year
    else if a.month != b.month then a.month < b.month
    else if a.day != b.day then a.day < b.day
    else a.hour <= b.hour
  }

  /** Non-decreasing in (year, month, day, hour). */
  predicate SortedByTime(s: seq<Record>) {
    forall i, j :: 0 <= i < j < |s| ==> TimeLeq(s[i], s[j])
  }

  /** Insert one row into a chronologically sorted block, before any row with an equal key. */
  function InsertByTime(x: Record, s: seq<Record>): (r: seq<Record>)
    requires SortedByTime(s)
    ensures |r| == |s| + 1
    ensures multiset(r) == multiset(s) + multiset{x}
    ensures SortedByTime(r)
  {
    if |s| == 0 then [x]
    else if TimeLeq(x, s[0]) then [x] + s
    else
      var rest := InsertByTime(x, s[1..]);
      assert s == [s[0]] + s[1..];
      HeadBelowInsert(x, s, rest);
      [s[0]] + rest
  }

  /** The head of a sorted block precedes every row of the block after inserting a later row. */
  lemma HeadBelowInsert(x: Record, s: seq<Record>, rest: seq<Record>)
    requires |s| > 0 && SortedByTime(s) && !TimeLeq(x, s[0])
    requires multiset(rest) == multiset(s[1..]) + multiset{x}
    ensures forall k :: 0 <= k < |rest| ==> TimeLeq(s[0], rest[k])
  {
    forall k | 0 <= k < |rest|
      ensures TimeLeq(s[0], rest[k])
    {
      assert rest[k] in multiset(rest);
      if rest[k] != x {
        assert rest[k] in s[1..];
      }
    }
  }

  /** sort_values(['year', 'month', 'day', 'hour']) on one block of rows. */
  function SortByTime(s: seq<Record>): (r: seq<Record>)
    ensures |r| == |s|
    ensures multiset(r) == multiset(s)
    ensures SortedByTime(r)
  {
    if |s| == 0 then []
    else
      assert s == [s[0]] + s[1..];
      InsertByTime(s[0], SortByTime(s[1..]))
  }

  /** The id column of the table. */
  function IdColumn(rows: seq<Record>): (c: seq<int>)
    ensures |c| == |rows|
    ensures forall i :: 0 <= i < |rows| ==> c[i] == rows[i].id
  {
    if |rows| == 0 then [] else [rows[0].id] + IdColumn(rows[1..])
  }

  /** The ids that occur in the table. */
  function IdSet(rows: seq<Record>): set<int> {
    set r | r in rows :: r.id
  }

  /** Number of rows carrying the given id (value_counts()[id]). */
  function CountOf(rows: seq<Record>, id: int): nat {
    if |rows| == 0 then 0
    else (if rows[0].id == id then 1 else 0) + CountOf(rows[1..], id)
  }

  /** df[df['id'] == id]: the rows of one typhoon, in table order. */
  function RowsOf(rows: seq<Record>, id: int): (r: seq<Record>)
    ensures |r| == CountOf(rows, id)
    ensures forall x :: multiset(r)[x] == (if x.id == id then multiset(rows)[x] else 0)
  {
    if |rows| == 0 then []
    else
      assert rows == [rows[0]] + rows[1..];
      (if rows[0].id == id then [rows[0]] else []) + RowsOf(rows[1..], id)
  }

  /** df[df['id'].isin(valid)]: the rows whose id is in valid, in table order. */
  function Retain(rows: seq<Record>, valid: set<int>): (r: seq<Record>)
    ensures forall x :: multiset(r)[x] == if x.id in valid then multiset(rows)[x] else 0
    ensures forall id :: CountOf(r, id) == if id in valid then CountOf(rows, id) else 0
    ensures IsSubsequence(r, rows)
  {
    if |rows| == 0 then []
    else
      assert rows == [rows[0]] + rows[1..];
      var rest := Retain(rows[1..], valid);
      if rows[0].id in valid then
        assert ([rows[0]] + rest)[1..] == rest;
        [rows[0]] + rest
      else rest
  }

  /** Selecting with a set that holds every id of the table keeps the whole table. */
  lemma {:induction false} RetainAll(rows: seq<Record>, valid: set<int>)
    requires forall x :: x in rows ==> x.id in valid
    ensures Retain(rows, valid) == rows
  {
    if |rows| > 0 {
      assert rows[0] in rows;
      forall x | x in rows[1..] ensures x.id in valid {
        assert x in rows;
      }
      RetainAll(rows[1..], valid);
      assert Retain(rows, valid) == [rows[0]] + Retain(rows[1..], valid);
      assert rows == [rows[0]] + rows[1..];
    }
  }

  /** A row's typhoon occurs at least once. */
  lemma {:induction false} CountPositive(rows: seq<Record>, x: Record)
    requires x in rows
    ensures CountOf(rows, x.id) >= 1
  {
    if rows[0] != x {
      assert x in rows[1..];
      CountPositive(rows[1..], x);
    }
  }

  /** df['id'].unique(): each id once, in order of first appearance. */
  function UniqueIds(rows: seq<Record>): (u: seq<int>)
    ensures Distinct(u)
    ensures Elems(u) == IdSet(rows)
  {
    if |rows| == 0 then []
    else
      var prefix := rows[..|rows| - 1];
      var last := rows[|rows| - 1];
      var u := UniqueIds(prefix);
      assert rows == prefix + [last];
      assert IdSet(rows) == IdSet(prefix) + {last.id};
      if last.id in u then u
      else
        AppendDistinct(u, [last.id]);
        u + [last.id]
  }

  /** Insert a value into a strictly increasing sequence unless it is already there. */
  function InsertUnique(x: int, s: seq<int>): (r: seq<int>)
    requires StrictlyIncreasing(s)
    ensures StrictlyIncreasing(r)
    ensures Elems(r) == Elems(s) + {x}
  {
    if |s| == 0 then [x]
    else if x < s[0] then
      ElemsCons(x, s);
      assert forall y :: y in Elems(s) ==> x < y by {
        forall y | y in Elems(s) ensures x < y {
          var m :| 0 <= m < |s| && s[m] == y;
          assert m > 0 ==> s[0] < s[m];
        }
      }
      ConsIncreasing(x, s);
      [x] + s
    else if x == s[0] then s
    else
      IncreasingTail(s);
      var rest := InsertUnique(x, s[1..]);
      ElemsCons(s[0], s[1..]);
      ElemsCons(s[0], rest);
      ConsIncreasing(s[0], rest);
      [s[0]] + rest
  }

  /** The tail of a strictly increasing sequence is strictly increasing. */
  lemma IncreasingTail(s: seq<int>)
    requires |s| > 0 && StrictlyIncreasing(s)
    ensures StrictlyIncreasing(s[1..])
  {
    forall i, j | 0 <= i < j < |s| - 1 ensures s[1..][i] < s[1..][j] {
      assert s[1..][i] == s[i + 1] && s[1..][j] == s[j + 1];
    }
  }

  /** A value below every element of a strictly increasing sequence can be put in front of it. */
  lemma ConsIncreasing(a: int, t: seq<int>)
    requires StrictlyIncreasing(t)
    requires forall y :: y in Elems(t) ==> a < y
    ensures StrictlyIncreasing([a] + t)
  {
    var r := [a] + t;
    forall i, j | 0 <= i < j < |r| ensures r[i] < r[j] {
      assert r[j] == t[j - 1];
      assert t[j - 1] in Elems(t);
      if i > 0 {
        assert r[i] == t[i - 1];
      }
    }
  }

  /** sorted(set(xs)): the distinct values in ascending order. */
  function SortedUnique(xs: seq<int>): (r: seq<int>)
    ensures StrictlyIncreasing(r)
    ensures Elems(r) == Elems(xs)
  {
    if |xs| == 0 then []
    else
      assert Elems(xs) == {xs[0]} + Elems(xs[1..]);
      InsertUnique(xs[0], SortedUnique(xs[1..]))
  }

  /** The group keys of df.groupby('id'): the distinct ids in ascending order. */
  function SortedIds(rows: seq<Record>): (ids: seq<int>)
    ensures StrictlyIncreasing(ids)
    ensures Elems(ids) == IdSet(rows)
  {
    var col := IdColumn(rows);
    assert Elems(col) == IdSet(rows) by {
      forall x | x in IdSet(rows) ensures x in Elems(col) {
        var r :| r in rows && r.id == x;
        var i :| 0 <= i < |rows| && rows[i] == r;
        assert col[i] == x;
      }
    }
    SortedUnique(col)
  }
}
