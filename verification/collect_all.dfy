/**
 * sample_images of sample_v2.py: for each selected id, in selection order,
 * the typhoon's rows sorted by (year, month, day, hour); the blocks are
 * concatenated. pd.concat of no blocks raises.
 */
module CollectAll {
  import opened Common
  import opened Records

  /** One typhoon's block: exactly its rows, in chronological order. */
  predicate BlockFor(rows: seq<Record>, id: int, block: seq<Record>) {
    multiset(block) == multiset(RowsOf(rows, id)) && SortedByTime(block)
  }

  /** The list all_sampled_rows: one block per selected id, in selection order. */
  function Blocks(rows: seq<Record>, sel: seq<int>): (bs: seq<seq<Record>>)
    ensures |bs| == |sel|
    ensures forall k :: 0 <= k < |sel| ==> BlockFor(rows, sel[k], bs[k])
  {
    seq(|sel|, k requires 0 <= k < |sel| => SortByTime(RowsOf(rows, sel[k])))
  }

  /** sample_images(df, sampled_typhoons) of sample_v2.py. */
  function SampleImages(rows: seq<Record>, sel: seq<int>): (r: Result<seq<Record>>)
    ensures r.Err? <==> |sel| == 0
    ensures r.Err? ==> r.error == NoObjectsToConcatenate
    ensures r.Ok? ==> exists bs :: |bs| == |sel| && r.value == Flatten(bs) &&
                                  forall k :: 0 <= k < |sel| ==> BlockFor(rows, sel[k], bs[k])
  {
    if |sel| == 0 then Err(NoObjectsToConcatenate)
    else Ok(Flatten(Blocks(rows, sel)))
  }

  /** Blocks, one per selected id, each holding exactly that typhoon's rows. */
  predicate BlocksFor(rows: seq<Record>, sel: seq<int>, bs: seq<seq<Record>>) {
    |bs| == |sel| && forall k :: 0 <= k < |sel| ==> multiset(bs[k]) == multiset(RowsOf(rows, sel[k]))
  }

  /** Dropping the first selected id and its block keeps the blocks matched. */
  lemma BlocksForTail(rows: seq<Record>, sel: seq<int>, bs: seq<seq<Record>>)
    requires |sel| > 0 && BlocksFor(rows, sel, bs)
    ensures BlocksFor(rows, sel[1..], bs[1..])
  {
    forall k | 0 <= k < |sel| - 1 ensures multiset(bs[1..][k]) == multiset(RowsOf(rows, sel[1..][k])) {
      assert bs[1..][k] == bs[k + 1] && sel[1..][k] == sel[k + 1];
    }
  }

  /** A duplicate-free selection collects each row of a selected typhoon as often as the table holds it, and nothing else. */
  lemma {:induction false} FlattenBlocksCount(rows: seq<Record>, sel: seq<int>, bs: seq<seq<Record>>, x: Record)
    requires Distinct(sel) && BlocksFor(rows, sel, bs)
    ensures multiset(Flatten(bs))[x] == if x.id in sel then multiset(rows)[x] else 0
  {
    if |sel| > 0 {
      BlocksForTail(rows, sel, bs);
      DistinctTail(sel);
      FlattenBlocksCount(rows, sel[1..], bs[1..], x);
      var head := multiset(bs[0])[x];
      var tail := multiset(Flatten(bs[1..]))[x];
      assert multiset(Flatten(bs))[x] == head + tail by {
        assert Flatten(bs) == bs[0] + Flatten(bs[1..]);
      }
      assert head == if x.id == sel[0] then multiset(rows)[x] else 0 by {
        assert multiset(bs[0]) == multiset(RowsOf(rows, sel[0]));
      }
      assert x.id in sel <==> x.id == sel[0] || x.id in sel[1..] by {
        assert sel == [sel[0]] + sel[1..];
      }
    }
  }

  /** The tail of a duplicate-free sequence is duplicate-free and misses the head. */
  lemma DistinctTail(s: seq<int>)
    requires |s| > 0 && Distinct(s)
    ensures Distinct(s[1..]) && s[0] !in s[1..]
  {
    forall i, j | 0 <= i < j < |s| - 1 ensures s[1..][i] != s[1..][j] {
      assert s[1..][i] == s[i + 1] && s[1..][j] == s[j + 1];
    }
  }

  /** Whatever the selection, a collected row is a table row of a selected typhoon. */
  lemma {:induction false} FlattenBlocksMember(rows: seq<Record>, sel: seq<int>, bs: seq<seq<Record>>, x: Record)
    requires BlocksFor(rows, sel, bs)
    requires x in Flatten(bs)
    ensures x in rows && x.id in sel
  {
    assert Flatten(bs) == bs[0] + Flatten(bs[1..]);
    if x in bs[0] {
      assert multiset(bs[0])[x] > 0;
      assert multiset(RowsOf(rows, sel[0]))[x] > 0;
    } else {
      BlocksForTail(rows, sel, bs);
      FlattenBlocksMember(rows, sel[1..], bs[1..], x);
    }
  }

  /** The blocks sample_images builds satisfy BlocksFor. */
  lemma BlocksMatch(rows: seq<Record>, sel: seq<int>)
    ensures BlocksFor(rows, sel, Blocks(rows, sel))
  {
    var bs := Blocks(rows, sel);
    forall k | 0 <= k < |sel| ensures multiset(bs[k]) == multiset(RowsOf(rows, sel[k])) {
      assert BlockFor(rows, sel[k], bs[k]);
    }
  }

  /**
   * With a duplicate-free selection the collected rows are, as a multiset,
   * exactly the table's rows of the selected typhoons: none lost, none
   * duplicated, none foreign.
   */
  lemma CollectedRows(rows: seq<Record>, sel: seq<int>)
    requires |sel| > 0 && Distinct(sel)
    ensures multiset(SampleImages(rows, sel).value) == multiset(Retain(rows, Elems(sel)))
  {
    var out := SampleImages(rows, sel).value;
    var kept := Retain(rows, Elems(sel));
    BlocksMatch(rows, sel);
    forall x ensures multiset(out)[x] == multiset(kept)[x] {
      FlattenBlocksCount(rows, sel, Blocks(rows, sel), x);
      assert x.id in sel <==> x.id in Elems(sel);
    }
  }

  /** Every collected row is a row of the table whose typhoon was selected. */
  lemma NoForeignRows(rows: seq<Record>, sel: seq<int>, x: Record)
    requires |sel| > 0
    requires x in SampleImages(rows, sel).value
    ensures x in rows && x.id in sel
  {
    BlocksMatch(rows, sel);
    FlattenBlocksMember(rows, sel, Blocks(rows, sel), x);
  }
}
