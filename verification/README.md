# Typhoon subset sampler — Dafny model

This project models the selection core of a small dataset tool. The tool builds a
reduced copy of a typhoon satellite-image dataset. Its input is a table with one
row per image: typhoon id, year, month, day, hour, intensity grade and image file
name. The tool does four things:

- picks a subset of typhoons;
- collects their rows (all of them, or a capped number per typhoon);
- drops typhoons with too few images;
- copies the images it can find and filters the per-typhoon metadata to the
  picked ids.

Two variants of the script are modelled.

- `sample_v2.py`:
  - the year-stratified random selector;
  - the collect-all image collector;
  - the low-count filter;
  - the image lookup;
  - the metadata filter;
  - the data flow of its `__main__` block.
- `sample.py`:
  - the deterministic year-stride selector;
  - the capped image collector.

`sample.py`'s image lookup and metadata filter are the same code as the v2 ones.

Modules, one per concern:

| module | file | models |
|---|---|---|
| `Common` | common.dfy | errors the scripts raise, `Result`/`Option`, duplicate-free sequences, concatenation |
| `Records` | records.dfy | the table row, chronological sort, per-id selection, `value_counts`, `isin` masks, `unique()` and groupby key order |
| `PyRange` | py_range.dfy | `range(start, stop, step)` and `s[::step]` |
| `RandomChoice` | random_choice.dfy | `np.random.choice(..., replace=False)` over a seeded draw stream |
| `StratifiedSelector` | stratified_selector.dfy | v2 `sample_typhoons` |
| `StrideSelector` | stride_selector.dfy | `sample.py` `sample_typhoons` |
| `CollectAll` | collect_all.dfy | v2 `sample_images` |
| `CappedCollector` | capped_collector.dfy | `sample.py` `sample_images` |
| `LowCountFilter` | low_count_filter.dfy | `filter_low_image_typhoons` |
| `MetadataFilter` | metadata_filter.dfy | the key filter of `copy_metadata` |
| `ImageLookup` | image_lookup.dfy | `copy_images` over a given directory walk |
| `Pipeline` | pipeline.dfy | the v2 `__main__` data flow |

## How randomness is modelled

The random generator is modelled as an oracle: `Rng = nat -> nat` is an
arbitrary draw stream standing in for the seeded generator, one position per
element drawn. Every random operation takes the stream plus the position of
the next unused draw, and returns the position after it. One stream is
threaded through the per-year draws, the top-up and the trim, as the script
keeps one generator across them.

A draw picks one of the elements still left and removes it. So every outcome is
a duplicate-free sample. `RandomChoice.ChooseReaches` proves the converse:
every duplicate-free sample of the pool is produced by some stream. A property
proved for all streams therefore holds for every sample numpy can return, and
the model does not depend on numpy's internal algorithm.

## Points of the code the model makes explicit

- **First year, v2 selector.** `sample_v2.py` line 19 takes
  `groupby('id')['year'].first()`: the year of the typhoon's first row in
  table order, not its smallest year. `StratifiedSelector.FirstRowOf` models
  that. `sample.py` line 14 takes the minimum instead, which
  `StrideSelector.MinYearRow` models.
- **The random top-up never draws.** The random top-up at `sample.py` lines
  55-64 never runs, for a block longer than the cap:
  - when slots remain (cap greater than the number of anchors), the evenly
    spaced pass at lines 49-53 fills the set to exactly min(cap, rows);
  - otherwise line 48 skips lines 49-64 as a whole, and the set keeps its
    anchors only;
  - `CappedCollector.Spread` proves both cases, and
    `CappedCollector.CappedIndices` ends with the generator position
    unchanged (`k.next == pos`).
- **The cap can be exceeded.** The capped collector keeps the first, peak and
  last rows even when `images_per_typhoon` is smaller than 3. A long typhoon
  then keeps `max(cap, number of distinct anchors)` rows, up to 3, which is more
  than the cap:
  - `CappedCollector.LongBlockSize` proves the bound;
  - `CappedCollector.CapOfThreeIsExact` shows that from 3 upward the count is
    exactly `min(cap, rows)`.
- **Metadata uses the pre-filter selection.** In v2 the metadata is filtered
  by the ids picked before the low-count filter (line 174 passes
  `sampled_typhoons`). A picked typhoon whose rows were all dropped keeps its
  metadata entry (`Pipeline.MetadataOfDroppedTyphoon`), provided some other
  picked typhoon survives.
- **A run that keeps no typhoon raises.** `sample_v2.py` line 164 divides
  the kept image count by the kept typhoon count. When the low-count filter
  drops every picked typhoon, that division raises ZeroDivisionError before
  the table, the images or the metadata are written. `Pipeline.BuildSubset`
  returns that error, and `Pipeline.SurvivorIff` characterises when it
  happens.

## Model

| member | source | states |
|---|---|---|
| Records.SortByTime | sample_v2.py:59 | sort_values on (year, month, day, hour) returns a permutation of the block that is non-decreasing in that key |
| Records.RowsOf | sample_v2.py:58 | df[df['id'] == id] holds every row of that typhoon as often as the table does and no other row; its length is the typhoon's row count |
| Records.Retain | sample_v2.py:69 | an isin mask keeps exactly the rows whose id is in the valid set, each as often as before, in table order (a subsequence); counts of kept ids are unchanged, others drop to 0 |
| Records.RetainAll | sample_v2.py:69 | a mask that admits every id of the table returns the table unchanged |
| Records.UniqueIds | sample_v2.py:41 | df['id'].unique() lists every id of the table exactly once |
| Records.SortedIds | sample_v2.py:19 | the groupby keys are the table's ids, strictly ascending |
| RandomChoice.Choose | sample_v2.py:35 | choice(pool, k, replace=False) returns k elements of the pool, each draw removing the element it picks |
| RandomChoice.ChooseWithoutReplacement | sample_v2.py:35 | the sample never uses an element more often than the pool holds it |
| RandomChoice.ChooseDistinct | sample_v2.py:35 | a sample of a duplicate-free pool is duplicate-free and drawn from the pool |
| RandomChoice.ChooseReaches | sample_v2.py:35 | every duplicate-free sample of the pool is the outcome of some generator stream |
| StratifiedSelector.FirstRowOf | sample_v2.py:19 | groupby first() reads the typhoon's first row in table order: that row has the id and no earlier row does |
| StratifiedSelector.Years | sample_v2.py:18-23 | the sorted unique first years: strictly ascending, a year is listed iff some typhoon's first row is in it, empty iff the table is |
| StratifiedSelector.YearGroup | sample_v2.py:30 | the ids of one first year: an id is in the group iff its first year is that year; no repeats |
| StratifiedSelector.RoundHalfEven | sample_v2.py:26-31 | int(np.round(total / years)) is the integer nearest the exact quotient, ties going to the even one |
| StratifiedSelector.PerYearPass | sample_v2.py:29-36 | per sorted year, min(quota, group size) distinct ids of that year, one chunk per year |
| StratifiedSelector.PassDistinct | sample_v2.py:29-36 | the concatenated per-year chunks contain no id twice and only ids of the table |
| StratifiedSelector.Unselected | sample_v2.py:41-42 | the available pool holds exactly the table ids not yet selected, without repeats |
| StratifiedSelector.PoolSize | sample_v2.py:41-42 | the available pool has (number of ids) minus (number selected) elements |
| StratifiedSelector.TopUp | sample_v2.py:39-45 | when short, the selection grows to min(total, number of ids) while staying duplicate-free and keeping its prefix; otherwise it is unchanged |
| StratifiedSelector.Trim | sample_v2.py:47-49 | an overshoot is cut to exactly total distinct ids taken from the selection; otherwise the selection and the generator position are returned unchanged |
| StratifiedSelector.SampleTyphoons | sample_v2.py:14-51 | raises ZeroDivisionError iff the table is empty; otherwise returns min(total, number of typhoons) distinct ids of the table |
| StratifiedSelector.StratifiedPrefix | sample_v2.py:38-49 | when the per-year pass does not overshoot, the result starts with the per-year chunks in year order (nothing is trimmed) |
| StratifiedSelector.OvershootTrimsPass | sample_v2.py:38-49 | when the per-year pass overshoots, the result is exactly total ids, all taken from the per-year picks (the top-up adds nothing) |
| StratifiedSelector.SelectsAllWhenShort | sample_v2.py:38-45 | asking for at least as many typhoons as exist selects every typhoon |
| StrideSelector.MinYearRow | sample.py:13-16 | agg 'min' finds a row of the typhoon whose year is at most the year of each of its rows |
| StrideSelector.AllYears | sample.py:17 | the sorted unique first years: strictly ascending, a year is listed iff it is some typhoon's minimum year |
| StrideSelector.TargetPositions | sample.py:19-20 | list(range(0, n, max(1, n // total)))[:total] has min(total, n) positions, each k * step, all below n, strictly increasing |
| StrideSelector.TargetCount | sample.py:19-20 | the stride never under-fills: the truncated range has exactly min(total, n) entries |
| StrideSelector.TargetYears | sample.py:21 | min(total, number of years) target years, each a first year, strictly ascending |
| StrideSelector.TargetYearAt | sample.py:19-21 | the k-th target year is the sorted year at position k * max(1, num_years // total) |
| StrideSelector.FirstIdOfYear | sample.py:25-27 | candidates.iloc[0] is an id of that first year that is at most every other such id; None iff no typhoon starts that year |
| StrideSelector.PickPerYear | sample.py:23-28 | at most one id per target year, each an id of the table; one per year when every year has candidates |
| StrideSelector.PickAt | sample.py:23-28 | the k-th pick is candidates.iloc[0] of the k-th target year |
| StrideSelector.TargetsHaveCandidates | sample.py:17-25 | every target year is the first year of some typhoon, so the len(candidates) > 0 test always passes |
| StrideSelector.SampleTyphoons | sample.py:12-29 | raises ZeroDivisionError iff total is 0; otherwise returns min(total, number of years) ids of the table |
| StrideSelector.SmallestIdPerTargetYear | sample.py:12-29 | the k-th id first appears in the k-th target year and is the smallest id among typhoons first seen that year; target years ascend, so no id repeats |
| StrideSelector.PickFollowsStride | sample.py:17-28 | the k-th selected typhoon's first year is the sorted year at position k * max(1, num_years // total) |
| PyRange.Range | sample.py:20 | range(start, stop, step) is start + k * step for each k, and ends at the last such value below stop |
| PyRange.EveryNth | sample.py:52 | available[::step] has len(range(0, n, step)) elements, the k-th being the element at the k-th entry of range(0, n, step), that is at position k * step; all from the sequence, ascending when it is |
| PyRange.StrideCoversQuota | sample.py:51-52 | with step = max(1, n // m) and m <= n, the slice keeps at least m elements |
| CollectAll.Blocks | sample_v2.py:56-60 | one block per selected id, in selection order, each exactly that typhoon's rows in chronological order |
| CollectAll.SampleImages | sample_v2.py:54-62 | pd.concat raises iff the selection is empty; otherwise the result is the concatenation of those blocks |
| CollectAll.FlattenBlocksCount | sample_v2.py:56-62 | for a duplicate-free selection each row occurs as often as in the table if its typhoon is selected, else not at all |
| CollectAll.FlattenBlocksMember | sample_v2.py:56-62 | every collected row is a table row of a selected typhoon |
| CollectAll.CollectedRows | sample_v2.py:54-62 | the output is, as a multiset, the table filtered to the selected ids: nothing lost, duplicated or foreign |
| CollectAll.NoForeignRows | sample_v2.py:54-62 | every output row is a table row whose typhoon was selected |
| CappedCollector.Positions | sample.py:49 | list(set(range(n)) - s) and list(s): exactly the positions below n on that side of s, listed in ascending order (the model's listing of a set) |
| CappedCollector.PositionsCount | sample.py:49 | the free positions number n minus the kept ones |
| CappedCollector.PeakIndex | sample.py:42 | idxmax of grade: a position of maximum grade with every earlier grade strictly smaller (first maximum) |
| CappedCollector.Anchors | sample.py:43-45 | {0, peak, n - 1}: one to three positions below n containing all three |
| CappedCollector.Spread | sample.py:47-53 | the evenly spaced pass keeps the anchors and, when slots remain, brings the set to exactly min(cap, n) positions |
| CappedCollector.TopUp | sample.py:55-64 | a full set is returned unchanged without drawing; a short one is filled to min(cap, n) |
| CappedCollector.CappedIndices | sample.py:40-64 | a long block keeps its anchors among exactly max(cap, number of anchors) positions in all, and the generator does not advance |
| CappedCollector.Iloc | sample.py:66 | iloc returns one row per listed position, each from the block, and every listed position's row |
| CappedCollector.CapBlock | sample.py:36-66 | a block of at most cap rows is kept whole; a longer one keeps its first, peak and last rows and between cap and max(cap, 3) rows |
| CappedCollector.RowsAtDistinctPositions | sample.py:45-66 | a long typhoon's kept rows are the sorted block's rows at the kept positions, each kept position listed exactly once: no row position is taken twice |
| CappedCollector.KeptListing | sample.py:66 | listing a set of positions below n lists each of them exactly once |
| CappedCollector.CappedBlock | sample.py:33-66 | a capped block holds only rows of that typhoon, and the generator does not advance |
| CappedCollector.ShortBlockKeptWhole | sample.py:38-39 | a typhoon with at most cap rows keeps all of them, chronologically sorted |
| CappedCollector.LongBlockKeepsAnchors | sample.py:41-45 | a longer typhoon keeps its earliest, first peak-grade and latest rows |
| CappedCollector.LongBlockSize | sample.py:40-66 | a longer typhoon keeps at least cap and at most max(cap, 3) rows |
| CappedCollector.CapOfThreeIsExact | sample.py:36-66 | with cap >= 3 every typhoon keeps exactly min(cap, its row count) rows |
| CappedCollector.CappedBlocks | sample.py:32-68 | one block per selected id, each holding only that typhoon's rows |
| CappedCollector.BlockAt | sample.py:32-68 | block k depends only on the k-th selected typhoon, not on earlier ones |
| CappedCollector.SampleImagesCapped | sample.py:31-70 | pd.concat raises iff the selection is empty; otherwise every output row is a table row of a selected typhoon |
| CappedCollector.CappedOutput | sample.py:31-70 | the output is the capped blocks of the selected typhoons, concatenated in selection order |
| LowCountFilter.FilterLowCount | sample_v2.py:65-70 | a row survives iff its typhoon has at least min_images rows; survivors keep their count and order |
| LowCountFilter.FilterDisabled | sample_v2.py:65-70 | with min_images at most 1 (0 disables it) the filter returns the table unchanged |
| LowCountFilter.FilterIdempotent | sample_v2.py:65-70 | filtering twice with the same threshold equals filtering once |
| MetadataFilter.IntToString | sample_v2.py:120 | str(tid) is non-empty and starts with '-' iff tid is negative |
| MetadataFilter.ParseIntToString | sample_v2.py:120 | reading back str(i) gives i |
| MetadataFilter.ToStringParseInt | sample_v2.py:120 | a string that parses is str of its value (canonical decimal form) |
| MetadataFilter.IntToStringInjective | sample_v2.py:120 | distinct ids have distinct keys |
| MetadataFilter.FilterMetadata | sample_v2.py:120-121 | an entry survives iff its key parses as a canonical int that was selected, so keys such as "007" or " 7" never survive; kept values are unchanged (same code at sample.py lines 114-115) |
| MetadataFilter.KeyOfSelected | sample_v2.py:120 | a key is str of some selected id iff it parses to a selected id |
| ImageLookup.FirstMatch | sample_v2.py:83-92 | the first walk entry whose files hold the name: it holds it and no earlier entry does; None iff no entry holds it |
| ImageLookup.FindFile | sample_v2.py:82-92 | the inner loop with its break finds the first matching directory, or reports none |
| ImageLookup.CopyImages | sample_v2.py:73-95 | copied + len(not_found) equals the number of rows; the copies and the missing names are those of the row-by-row reference |
| ImageLookup.CountsAddUp | sample_v2.py:78-94 | the number of copies plus the number of missing names equals the number of rows |
| ImageLookup.FoundRowIsCopied | sample_v2.py:83-91 | every row whose file some walk entry holds is copied, from the first directory that holds it |
| ImageLookup.NotFoundIff | sample_v2.py:93-94 | a name is reported missing iff some row asks for it and no directory of the walk holds it |
| ImageLookup.CopiesFromFirstMatch | sample_v2.py:83-91 | each copy takes the file from the first directory of the walk that holds it, for a file some row asks for |
| Pipeline.BuildSubset | sample_v2.py:141-174 | the run fails iff the table is empty (ZeroDivisionError), the target is 0 (empty concat) or no picked typhoon has min_images rows (ZeroDivisionError at line 164); otherwise it picks min(target, typhoons) distinct ids, keeps a non-empty table and filters metadata by the picked ids |
| Pipeline.Picked | sample_v2.py:148-151 | the clamped target picks min(target, typhoons) distinct ids of the table |
| Pipeline.SurvivorIff | sample_v2.py:155-164 | the filtered collection is non-empty iff some picked typhoon has at least min_images rows |
| Pipeline.CollectedCounts | sample_v2.py:155 | after collection each selected typhoon has as many rows as in the input, others none |
| Pipeline.FilteredCollection | sample_v2.py:155-158 | collection then filtering keeps exactly the input rows of selected typhoons with at least min_images rows |
| Pipeline.FinalTable | sample_v2.py:148-166 | in a run that completes, a row reaches the saved table iff it is an input row of a picked typhoon having at least min_images rows, and such a typhoon keeps all its rows |
| Pipeline.MetadataOfDroppedTyphoon | sample_v2.py:155-174 | in a run that completes, a picked typhoon removed by the low-count filter still has its metadata entry |

## Left out

- File I/O is not modelled:
  - `load_data` and `save_sampled_data` (CSV read and write);
  - `json.load`/`json.dump`;
  - `os.makedirs`, `shutil.copy2`, `shutil.copytree`/`rmtree` of the metadata folder;
  - the destination-path computation of `copy_images`.
  The table is a sequence of rows, the metadata a map, and the directory walk a
  given sequence of (directory, file names) entries in walk order.
- The console output of `__main__` is not modelled. The two averages it
  prints are modelled only by the error they raise when their divisor is
  zero (lines 146 and 164).
- `merge.py` is not part of this model.
- The `peak_grade` aggregate of `sample.py` line 15 is not modelled: it is
  computed but never used.
- RandomChoice.Choose: numpy's internal sampling algorithm and the Mersenne
  Twister are not modelled. A draw stream replaces them, so the concrete ids a
  seed-42 run yields are not reproduced. What is modelled is the set of possible
  outcomes (ChooseReaches). The stream positions are a device of the model:
  numpy's `choice(..., replace=False)` draws for a permutation of the whole
  pool, not once per element, so the positions do not match numpy's
  consumption of the generator.
- StratifiedSelector.SampleTyphoons: uniformity of the draws is not modelled,
  only the set of possible outcomes.
- Python set iteration order is taken as ascending (ints) or as table order.
  This covers `list(set(...))` in `sample_v2.py` line 42 and `sample.py`
  lines 49, 56 and 66. The selections of `sample_v2.py` are stated up to
  order, so they do not depend on it.
- CappedCollector.Positions: lists a set of positions in ascending order.
  CPython lists a set of ints in hash-table order, which is ascending only
  while every value is below the table size. For a long typhoon,
  `list(sampled_indices)` at `sample.py` line 66 can therefore come out in
  another order, and the program's capped block is then not chronological.
  The model's capped block (CapBlock, CappedBlock, CappedOutput) is. Which
  rows are kept, how many, and that no position is taken twice
  (RowsAtDistinctPositions) do not depend on the listing order.
- pandas' `sort_values` with equal (year, month, day, hour) keys: the order of
  tied rows is not modelled. The contract states only a sorted permutation.
- np.round on a float quotient is computed exactly, on rationals, with ties to
  even. Floating-point error for huge counts is out of scope.
- `total_typhoons` and `images_per_typhoon` are natural numbers. Negative values
  are not modelled. Typhoon ids are ints, so `int(selected['id'])` is the
  identity.
- `np.random.choice` raises ValueError when the size exceeds the pool. Every
  call in both scripts clamps the size first, so the model requires it.
- Missing or non-numeric CSV cells are not modelled.
- StrideSelector.PickPerYear: states the pick of each target year through
  PickAt rather than in its own contract, to keep the proof small.
- CappedCollector.SampleImagesCapped: its own contract states only the error
  case and that rows come from selected typhoons. The block structure is stated
  by CappedOutput, and the per-block facts by the CappedBlock lemmas.
