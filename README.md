# Variant score deduplication, matched null downsampling and figure file names

This project is a Dafny model of the table-processing core of a genomics analysis
workflow. The workflow compares the variant scores of a "real" dataset against a
"null" (permuted or synthetic) one. The core has three parts:

- **Deduplication of per-variant scores** (`dedup.dfy`, module `Dedup`). It finds the
  score column: `raw_score` if present, else `score`, else an error. It selects
  `variant_id`, `gene_id`, the score and those requested extra columns that the file
  has, and renames the score to `raw_score`. It drops rows with a null score. Then it
  keeps one row per `variant_id`, the one with the largest absolute score, with the
  score's sign kept. The absolute score is held in a helper column `_abs_score`,
  dropped at the end, so a requested column of that name is not in the result.
- **Matched downsampling of the null table** (`downsampling.dfy`, module `Downsampling`).
  Rows are grouped by `gene_id`, in ascending gene order. A gene requested 0 or fewer
  times by the real dataset's count table, or absent from it, contributes nothing. A
  gene with no more rows than requested contributes all of them. Otherwise exactly the
  requested number is drawn without replacement with a seeded sampler, whose generator
  refuses a seed outside 0..2^32-1. If nothing is kept, the result is an empty table
  with the null table's columns.
- **File names for saved figures** (`plot_utils.dfy`, module `PlotUtils`). A name part
  is sanitised: an empty part becomes `unnamed`; otherwise it is stripped of surrounding
  whitespace, its spaces become underscores, every character outside `[0-9A-Za-z-_.]`
  is deleted, and it is cut with a Python slice `[:max_len]`. The base name is
  `<notebook>_<title>_<timestamp>`.

`tables.dfy` (module `Tables`) holds the shared table model. A cell is null, a number
or a text value. A row maps column names to cells. A frame is an ordered column list
with its rows. It also holds the order pandas uses on group keys: numbers by value,
text by Python string order.

Both table operations come in two forms. A specification function (`Dedup.Deduplicated`,
`Downsampling.Downsampled`) states the result. A method (`Dedup.DedupScoresByVariant`,
`Downsampling.DownsampleNullToReal`) follows the program's loops and is proved equal to
that function. The properties are proved as lemmas about the functions.

Behaviour of the code worth knowing:

- Missing columns raise a `ValueError` (no score column) or a column-selection error
  (no `variant_id` or `gene_id`). There is no dedicated schema error. The model has
  one error value for each case.
- Deduplicating twice is the identity except in one case. If the file's score column was
  `score` and `raw_score` is among the requested columns, the second run selects
  `raw_score` twice and fails. `Dedup.RerunSelectsRawScoreTwice` shows this.
- A requested extra column named `_abs_score` passes the selection, then the helper
  column of the same name overwrites it and is dropped. The result has neither the
  column nor its values. `Dedup.AbsScoreColumnDropped` shows this.
- Rows whose `gene_id` is null are never sampled: grouping by gene drops them.
- The downsampled rows come gene by gene in ascending gene order, because grouping by
  gene sorts the gene ids.
- A seed outside 0..2^32-1 makes the downsampler fail, but only when some gene has
  more rows than requested and so is actually sampled.
- The program leaves the dedup tie-break open: its sort by absolute score
  (config_helpers/dedublication.py:61) does not promise to keep the input order of
  equal scores. The model keeps the first row, in input order, among rows of equal
  absolute score.

## Model

| member | source | states |
|---|---|---|
| Dedup.KeepPresent | config_helpers/dedublication.py:41-47 | the extra columns kept are exactly the requested ones that the file has, never more than were requested |
| Dedup.ProjectRows | config_helpers/dedublication.py:49-52 | selection keeps one row per input row, in order; each has exactly the selected columns, its raw_score is the input row's score and every other selected column holds the input row's value |
| Dedup.NonNullScores | config_helpers/dedublication.py:54-55 | a row survives the null filter iff it is an input row whose raw_score is not null |
| Dedup.InsertKeys | config_helpers/dedublication.py:58-64 | adding a row to the kept rows adds its variant_id and nothing else; only the new row can enter |
| Dedup.InsertDistinct | config_helpers/dedublication.py:62 | adding a row keeps variant_ids unique among the kept rows |
| Dedup.InsertDominates | config_helpers/dedublication.py:60-62 | after adding a row, the kept row of its variant_id has at least its absolute score, and no kept row loses magnitude |
| Dedup.KeepMaxAbsCorrect | config_helpers/dedublication.py:58-64 | keeping the largest absolute score per variant_id gives input rows with unique variant_ids, the same set of ids, each of maximal magnitude; rows already unique per id are returned unchanged |
| Dedup.KeepMaxAbsFrom | config_helpers/dedublication.py:58-64 | every kept row is an input row |
| Dedup.KeepMaxAbsDistinct | config_helpers/dedublication.py:62 | the kept rows have unique variant_ids |
| Dedup.KeepMaxAbsKeys | config_helpers/dedublication.py:62 | the kept rows have the same set of variant_ids as the input |
| Dedup.KeepMaxAbsDominates | config_helpers/dedublication.py:60-62 | no input row has a larger absolute score than the kept row of its variant_id |
| Dedup.KeepMaxAbsUnique | config_helpers/dedublication.py:60-63 | rows already unique per variant_id are returned unchanged |
| Dedup.DedupScoresByVariant | config_helpers/dedublication.py:7-69 | the program's steps (score detection, the loop building the column list, selection, rename, filter, dedup, dropping the helper column) give exactly the specified result or error |
| Dedup.DedupOutcome | config_helpers/dedublication.py:30-36 | the step fails for want of a score column iff neither raw_score nor score exists; it succeeds iff both key columns exist, the selection has no repeat and the score is numeric; on success the score is read from raw_score whenever it exists |
| Dedup.DropColumn | config_helpers/dedublication.py:63 | dropping a column leaves exactly the other columns, changes nothing when the column is absent, and keeps a repeat-free list repeat-free |
| Dedup.DedupColumns | config_helpers/dedublication.py:39-63 | the result's columns are variant_id, gene_id, raw_score, then each requested column the file has other than _abs_score, in request order, without repeats; _abs_score is never a column; every row has exactly those columns |
| Dedup.AbsScoreColumnDropped | config_helpers/dedublication.py:44-63 | a file with columns variant_id, gene_id, raw_score, _abs_score and _abs_score requested gives a table of the first three columns only, its row without the _abs_score value |
| Dedup.DedupRowsProvenance | config_helpers/dedublication.py:50-63 | every output row comes from an input row with a numeric score: raw_score is that row's signed score and every other column is unchanged |
| Dedup.DedupRowsOnePerVariant | config_helpers/dedublication.py:55-62 | a variant_id appears in the output iff some input row with it has a non-null score, and then exactly once |
| Dedup.DedupRowsMaxAbs | config_helpers/dedublication.py:60-62 | no input row with a non-null score has a larger absolute score than the output row of its variant_id |
| Dedup.DedupRowsFixpoint | config_helpers/dedublication.py:55-63 | running the row pipeline again on its own output, reading raw_score, returns that output |
| Dedup.DedupIdempotent | config_helpers/dedublication.py:31-34 | deduplicating a deduplicated table again with the same requested columns returns it unchanged, unless the score column was score and raw_score is requested |
| Dedup.RerunFailsOnRequestedRawScore | config_helpers/dedublication.py:31-50 | for every file whose score column is score (no raw_score) and with raw_score requested, a second run on a successful first run's output fails with a repeated column |
| Dedup.RerunSelectsRawScoreTwice | config_helpers/dedublication.py:31-50 | such a first run can succeed: an empty file with columns variant_id, gene_id, score and raw_score requested gives a table, and a second run on it fails with a repeated column |
| Dedup.KeepPresentSameMembers | config_helpers/dedublication.py:43-45 | the kept extra columns depend only on which requested columns the schema has |
| Dedup.KeepPresentAfterDrop | config_helpers/dedublication.py:42-63 | on a rerun, whose schema has the first run's columns, the kept extra columns are the first run's less _abs_score |
| Tables.CellLessIsStrictTotalOrder | config_helpers/downsampling.py:32 | the order of group keys is irreflexive, transitive and total |
| Tables.StrLessTransitive | config_helpers/downsampling.py:32 | Python string order on gene ids is transitive |
| Tables.StrLessTotal | config_helpers/downsampling.py:32 | any two distinct gene id strings are ordered one way or the other |
| Downsampling.RequestedAbsent | config_helpers/downsampling.py:33 | a gene missing from the count table is requested 0 times |
| Downsampling.RequestedLastWins | config_helpers/downsampling.py:21-27 | a gene listed in the count table is requested as many times as its last row says |
| Downsampling.GroupRows | config_helpers/downsampling.py:32 | a gene's group holds only rows of the null table with that gene |
| Downsampling.GroupRowsCount | config_helpers/downsampling.py:32 | every copy of a row lies in the group of its own gene |
| Downsampling.GroupRowsEmpty | config_helpers/downsampling.py:37-39 | a gene's group is empty iff no row of the table has that gene |
| Downsampling.InsertKeyCorrect | config_helpers/downsampling.py:32 | inserting a key into an ascending key list keeps it strictly ascending and adds exactly that key |
| Downsampling.SortedGenesCorrect | config_helpers/downsampling.py:32 | the groups are visited in strictly ascending gene order, one per distinct non-null gene of the table |
| Downsampling.Pick | config_helpers/downsampling.py:44-47 | a draw gives one row per drawn position, and every row drawn is a row of the group |
| Downsampling.PickSubMultiset | config_helpers/downsampling.py:44-47 | rows drawn at distinct positions (without replacement) are a sub-multiset of the group |
| Downsampling.DownsampleNullToReal | config_helpers/downsampling.py:6-53 | the loop over gene groups appending kept parts (failing on the first sampled group when the seed is out of range), then the concatenation or the empty table, gives exactly the specified result |
| Downsampling.CollectGroup | config_helpers/downsampling.py:30-51 | the concatenated output, restricted to one gene, is that gene's own contribution |
| Downsampling.DownsampleGene | config_helpers/downsampling.py:32-47 | per gene: nothing for a null gene or one requested 0 or fewer times; all its rows when it has no more than requested; otherwise exactly the requested number drawn without replacement with the seed; count is min(requested, available) |
| Downsampling.DownsampleSubMultiset | config_helpers/downsampling.py:41-51 | every output row is an unchanged null-table row, with no row repeated more often than in the input |
| Downsampling.CollectOrder | config_helpers/downsampling.py:32-51 | collecting over ascending genes gives rows in ascending gene order, each of one of those genes |
| Downsampling.DownsampleOrder | config_helpers/downsampling.py:32-51 | rows of one gene are contiguous and genes come in ascending order |
| Downsampling.DownsampleEmpty | config_helpers/downsampling.py:32-53 | the step fails for want of gene_id iff the null table lacks it, and for the seed iff the seed is outside 0..2^32-1 and some non-null gene has more rows than requested; otherwise the result keeps the null table's columns and is empty iff no non-null gene of the table is requested at least once |
| PlotUtils.ReplaceSpaces | utils/plot_utils.py:29 | no space is left; the length is kept and the only characters that change are spaces, each into an underscore |
| PlotUtils.KeepAllowed | utils/plot_utils.py:24-30 | deleting disallowed characters leaves only allowed ones, never lengthens, and leaves an all-allowed text unchanged |
| PlotUtils.KeepAllowedKeepsOrder | utils/plot_utils.py:30 | an allowed character survives, in place between what is kept before and after it |
| PlotUtils.KeepAllowedDropsDisallowed | utils/plot_utils.py:24-30 | a disallowed character is deleted: what is kept before and after it closes up |
| PlotUtils.StripCorrect | utils/plot_utils.py:29 | stripping removes a run of whitespace at each end and nothing else, leaving no whitespace at either end |
| PlotUtils.Sanitize | utils/plot_utils.py:27-31 | an empty part becomes unnamed; the result has only allowed characters; for a non-empty part and non-negative max_len it is at most max_len long |
| PlotUtils.SanitizePrefix | utils/plot_utils.py:29-31 | a non-empty part is sanitised to a prefix of its stripped, space-replaced, filtered text, of length min(max_len, that length) for a non-negative max_len (the Python slice [:max_len]) |
| PlotUtils.SanitizeWhitespaceOnly | utils/plot_utils.py:28-29 | a non-empty part made only of whitespace becomes the empty string, not unnamed |
| PlotUtils.SanitizeIdempotent | utils/plot_utils.py:27-31 | sanitising a non-empty sanitised part again with the same non-negative max_len returns it unchanged |
| PlotUtils.SanitizeSpaceExample | utils/plot_utils.py:29 | "a b" becomes "a_b" |
| PlotUtils.SanitizeMixedExample | utils/plot_utils.py:29-30 | " a/b: c " becomes "ab_c": stripped, the inner space made an underscore, "/" and ":" dropped |
| PlotUtils.SanitizeNegativeMaxLenExample | utils/plot_utils.py:31 | a negative max_len cuts from the end: "abcd" with -1 becomes "abc" |
| PlotUtils.BasenameShape | utils/plot_utils.py:50-53 | the base name is the sanitised notebook name, "_", the sanitised title, "_", then the timestamp verbatim; all before the timestamp is allowed characters and it is at most 302 characters longer than the timestamp |

## Left out

- Reading the parquet file and the count table's file: the model takes the tables as values.
- The progress messages and the `label` and `verbose` parameters: they only print.
- Conversions between polars and pandas and column dtypes: cells are null, an exact real number or text.
- Floating point: scores are exact reals, so NaN and infinities are not modelled.
- The pandas random sampler: it is a parameter `choose(seed, group size, n)` that returns n distinct positions. Uniformity is not modelled. Its generator's refusal of a seed outside 0..2^32-1 is modelled as the error `InvalidSeed`.
- A count table without `gene_id` or `n_variants`, and a null `n_variants` (the conversion to int fails): counts are given as gene/integer pairs.
- Output row order of the dedup step: the unordered unique step leaves it unspecified; the model keeps rows in first-appearance order of their variant_id.
- Which of several missing or repeated columns the selection reports first: the model checks variant_id, then gene_id, then repeats.
- Group keys mixing numbers and text: they cannot come from one polars column; the model orders numbers before text.
- Dedup.DedupIdempotent: it excludes the case where the score column was `score` and `raw_score` is requested, because the source fails there (Dedup.RerunSelectsRawScoreTwice).
- PlotUtils.Sanitize: the length bound holds only for a non-empty part and a non-negative max_len, because "unnamed" and negative slices do not obey it.
- PlotUtils.SanitizeIdempotent: it requires a non-empty result and, for an empty input, max_len of at least 7, because an empty result sanitises to "unnamed"; and a non-negative max_len, because a negative slice cuts the text again.
- Saving figures, the timestamp clock, notebook-name detection and the matplotlib settings: they are I/O around the file-name functions.
- The dataset registry, path discovery and the loader that pairs real and null tables: they are not part of this model.
