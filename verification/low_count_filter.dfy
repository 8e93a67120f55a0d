/**
 * filter_low_image_typhoons of sample_v2.py: drop every typhoon with fewer
 * than min_images rows. value_counts() counts the rows per id, the ids
 * whose count reaches the threshold form the index of valid ids, and an
 * isin mask keeps their rows in table order.
 */
module LowCountFilter {
  import opened Common
  import opened Records

  /** The index of valid ids: the ids of the table with at least minImages rows. */
  function ValidIds(rows: seq<Record>, minImages: int): (valid: set<int>)
    ensures forall id :: id in valid <==> id in IdSet(rows) && CountOf(rows, id) >= minImages
  {
    set id | id in IdSet(rows) && CountOf(rows, id) >= minImages
  }

  /**
   * filter_low_image_typhoons(df_sampled, min_images): a row survives iff
   * its typhoon has at least minImages rows; survivors keep their count and
   * their relative order.
   */
  function FilterLowCount(rows: seq<Record>, minImages: int): (r: seq<Record>)
    ensures forall x :: x in r <==> x in rows && CountOf(rows, x.id) >= minImages
    ensures forall id :: CountOf(r, id) == if CountOf(rows, id) >= minImages then CountOf(rows, id) else 0
    ensures IsSubsequence(r, rows)
  {
    var valid := ValidIds(rows, minImages);
    var r := Retain(rows, valid);
    assert forall x :: x in r <==> x in rows && CountOf(rows, x.id) >= minImages by {
      forall x ensures x in r <==> x in rows && CountOf(rows, x.id) >= minImages {
        assert x in r <==> multiset(r)[x] > 0;
        assert x in rows <==> multiset(rows)[x] > 0;
        assert x in rows ==> x.id in IdSet(rows);
      }
    }
    assert forall id :: CountOf(r, id) == if CountOf(rows, id) >= minImages then CountOf(rows, id) else 0 by {
      forall id ensures CountOf(r, id) == if CountOf(rows, id) >= minImages then CountOf(rows, id) else 0 {
        if id !in IdSet(rows) {
          CountAbsent(rows, id);
        }
      }
    }
    r
  }

  /** An id that labels no row is counted zero times. */
  lemma {:induction false} CountAbsent(rows: seq<Record>, id: int)
    requires id !in IdSet(rows)
    ensures CountOf(rows, id) == 0
  {
    if |rows| > 0 {
      assert rows[0] in rows;
      assert IdSet(rows[1..]) <= IdSet(rows);
      CountAbsent(rows[1..], id);
    }
  }

  /** With a threshold of at most one every typhoon in the table qualifies: the filter changes nothing (min_images = 0 disables it). */
  lemma FilterDisabled(rows: seq<Record>, minImages: int)
    requires minImages <= 1
    ensures FilterLowCount(rows, minImages) == rows
  {
    var valid := ValidIds(rows, minImages);
    forall x | x in rows ensures x.id in valid {
      CountPositive(rows, x);
    }
    RetainAll(rows, valid);
  }

  /** Filtering twice with the same threshold is filtering once. */
  lemma FilterIdempotent(rows: seq<Record>, minImages: int)
    ensures FilterLowCount(FilterLowCount(rows, minImages), minImages) == FilterLowCount(rows, minImages)
  {
    var once := FilterLowCount(rows, minImages);
    var valid := ValidIds(once, minImages);
    forall x | x in once ensures x.id in valid {
      CountPositive(once, x);
    }
    RetainAll(once, valid);
  }
}
