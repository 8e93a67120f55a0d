/**
 * The data flow of the __main__ block of sample_v2.py, without the printing
 * and the file writes: clamp the target to the number of typhoons, pick the
 * typhoons year-stratified, collect all their rows, drop the typhoons with
 * too few rows, and filter metadata.json by the picked ids. The metadata is
 * filtered by the selection made BEFORE the low-count filter. The averages
 * the block prints divide by the number of typhoons, before and after the
 * filter, so an empty table or a filter that keeps no typhoon raises.
 */
module Pipeline {
  import opened Common
  import opened Records
  import opened RandomChoice
  import StratifiedSelector
  import CollectAll
  import LowCountFilter
  import MetadataFilter

  /** What the script writes: the picked ids, the aux_data table and the filtered metadata. */
  datatype Subset<V> = Subset(selected: seq<int>, table: seq<Record>, metadata: map<string, V>)

  /** The typhoons the run picks: the target clamped to the number of typhoons, then the stratified selector. */
  function Picked(rows: seq<Record>, targetTyphoons: nat, rng: Rng): (sel: seq<int>)
    requires |rows| > 0
    ensures Distinct(sel) && Elems(sel) <= IdSet(rows)
    ensures |sel| == Min(targetTyphoons, |IdSet(rows)|)
  {
    StratifiedSelector.SampleTyphoons(rows, Min(targetTyphoons, |IdSet(rows)|), rng).value
  }

  /** Some picked typhoon has at least minImages rows, so it survives the low-count filter. */
  predicate HasSurvivor(rows: seq<Record>, sel: seq<int>, minImages: int) {
    exists id :: id in sel && CountOf(rows, id) >= minImages
  }

  /**
   * The script's run on the table rows and the parsed metadata.json, with
   * target_typhoons, min_images_per_typhoon and the draw stream as
   * parameters. The average printed after the filter divides by the number
   * of typhoons kept, so a run whose filter drops every picked typhoon
   * raises before anything is written.
   */
  function BuildSubset<V>(rows: seq<Record>, meta: map<string, V>, targetTyphoons: nat, minImages: int, rng: Rng): (r: Result<Subset<V>>)
    ensures r.Err? <==> |rows| == 0 || targetTyphoons == 0 || !HasSurvivor(rows, Picked(rows, targetTyphoons, rng), minImages)
    ensures r.Err? ==> r.error == if |rows| > 0 && targetTyphoons == 0 then NoObjectsToConcatenate else DivisionByZero
    ensures r.Ok? ==> r.value.selected == Picked(rows, targetTyphoons, rng)
    ensures r.Ok? ==> Distinct(r.value.selected) && Elems(r.value.selected) <= IdSet(rows)
    ensures r.Ok? ==> |r.value.selected| == Min(targetTyphoons, |IdSet(rows)|)
    ensures r.Ok? ==> r.value.table != [] && HasSurvivor(rows, r.value.selected, minImages)
    ensures r.Ok? ==> r.value.metadata == MetadataFilter.FilterMetadata(meta, r.value.selected)
  {
    var target := Min(targetTyphoons, |IdSet(rows)|);
    match StratifiedSelector.SampleTyphoons(rows, target, rng)
    case Err(e) => Err(e)
    case Ok(sel) =>
      assert rows[0].id in IdSet(rows);
      match CollectAll.SampleImages(rows, sel)
      case Err(e) => Err(e)
      case Ok(collected) =>
        var table := LowCountFilter.FilterLowCount(collected, minImages);
        SurvivorIff(rows, sel, minImages);
        if table == [] then Err(DivisionByZero)
        else Ok(Subset(sel, table, MetadataFilter.FilterMetadata(meta, sel)))
  }

  /** After collection and filtering, the table is empty iff no picked typhoon has minImages rows. */
  lemma SurvivorIff(rows: seq<Record>, sel: seq<int>, minImages: int)
    requires |sel| > 0 && Distinct(sel) && Elems(sel) <= IdSet(rows)
    ensures LowCountFilter.FilterLowCount(CollectAll.SampleImages(rows, sel).value, minImages) != [] <==> HasSurvivor(rows, sel, minImages)
  {
    var t := LowCountFilter.FilterLowCount(CollectAll.SampleImages(rows, sel).value, minImages);
    FilteredCollection(rows, sel, minImages);
    if t != [] {
      assert t[0] in t;
    }
    if HasSurvivor(rows, sel, minImages) {
      var id :| id in sel && CountOf(rows, id) >= minImages;
      assert id in Elems(sel);
      var x :| x in rows && x.id == id;
      assert x in t;
    }
  }

  /** value_counts() depends only on the multiset of rows, not on their order. */
  lemma CountOfMultiset(a: seq<Record>, b: seq<Record>, id: int)
    requires multiset(a) == multiset(b)
    ensures CountOf(a, id) == CountOf(b, id)
  {
    var ra := RowsOf(a, id);
    var rb := RowsOf(b, id);
    assert multiset(ra) == multiset(rb);
    assert |ra| == |multiset(ra)| && |rb| == |multiset(rb)|;
  }

  /** For a duplicate-free selection, the collected table counts each picked typhoon's rows as the input does, and no others. */
  lemma CollectedCounts(rows: seq<Record>, sel: seq<int>, id: int)
    requires |sel| > 0 && Distinct(sel)
    ensures CountOf(CollectAll.SampleImages(rows, sel).value, id) == if id in sel then CountOf(rows, id) else 0
  {
    CollectAll.CollectedRows(rows, sel);
    CountOfMultiset(CollectAll.SampleImages(rows, sel).value, Retain(rows, Elems(sel)), id);
  }

  /** The low-count filter applied to the collected rows of a duplicate-free selection. */
  lemma FilteredCollection(rows: seq<Record>, sel: seq<int>, minImages: int)
    requires |sel| > 0 && Distinct(sel)
    ensures var t := LowCountFilter.FilterLowCount(CollectAll.SampleImages(rows, sel).value, minImages);
            forall x :: x in t <==> x in rows && x.id in sel && CountOf(rows, x.id) >= minImages
    ensures var t := LowCountFilter.FilterLowCount(CollectAll.SampleImages(rows, sel).value, minImages);
            forall id :: CountOf(t, id) == if id in sel && CountOf(rows, id) >= minImages then CountOf(rows, id) else 0
  {
    var collected := CollectAll.SampleImages(rows, sel).value;
    forall id ensures CountOf(collected, id) == if id in sel then CountOf(rows, id) else 0 {
      CollectedCounts(rows, sel, id);
    }
    forall x ensures x in collected <==> x in rows && x.id in sel {
      if x in collected {
        CollectAll.NoForeignRows(rows, sel, x);
      }
      if x in rows && x.id in sel {
        CollectAll.CollectedRows(rows, sel);
        assert multiset(Retain(rows, Elems(sel)))[x] > 0;
        assert multiset(collected)[x] > 0;
      }
    }
  }

  /**
   * A row reaches the saved table iff it is a row of the input, its typhoon
   * was picked, and the input holds at least minImages rows of that typhoon;
   * such a typhoon keeps all of its rows.
   */
  lemma FinalTable<V>(rows: seq<Record>, meta: map<string, V>, targetTyphoons: nat, minImages: int, rng: Rng)
    requires BuildSubset(rows, meta, targetTyphoons, minImages, rng).Ok?
    ensures var s := BuildSubset(rows, meta, targetTyphoons, minImages, rng).value;
            forall x :: x in s.table <==> x in rows && x.id in s.selected && CountOf(rows, x.id) >= minImages
    ensures var s := BuildSubset(rows, meta, targetTyphoons, minImages, rng).value;
            forall id :: CountOf(s.table, id) == if id in s.selected && CountOf(rows, id) >= minImages then CountOf(rows, id) else 0
  {
    var s := BuildSubset(rows, meta, targetTyphoons, minImages, rng).value;
    FilteredCollection(rows, s.selected, minImages);
  }

  /**
   * metadata.json is filtered by the picked ids, not by the ids left after
   * the low-count filter: a picked typhoon whose rows were all dropped
   * still has its metadata entry.
   */
  lemma MetadataOfDroppedTyphoon<V>(rows: seq<Record>, meta: map<string, V>, targetTyphoons: nat, minImages: int, rng: Rng, id: int)
    requires BuildSubset(rows, meta, targetTyphoons, minImages, rng).Ok?
    requires var s := BuildSubset(rows, meta, targetTyphoons, minImages, rng).value;
             id in s.selected && CountOf(rows, id) < minImages
    requires MetadataFilter.IntToString(id) in meta
    ensures var s := BuildSubset(rows, meta, targetTyphoons, minImages, rng).value;
            MetadataFilter.IntToString(id) in s.metadata && id !in IdSet(s.table)
  {
    FinalTable(rows, meta, targetTyphoons, minImages, rng);
    MetadataFilter.ParseIntToString(id);
  }
}
