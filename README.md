# Lineage prediction by SNP matching

A Dafny model of the three lineage-predictor scripts: `lineage_predictor_v4.py`,
`lineage_predictorV5.py` and `lineage_predictor_v1.py`. Each script reads
VCF-like text and collects the variant positions of a sample. It then scores
every lineage of a reference catalog as the share of the lineage's marker
positions that the sample carries, `100 * |M ∩ S| / |M|`. The scores become a
predicted lineage label. Finally the results of all input files are combined
in input order.

The three scripts differ in three ways.

- **How positions are read.**
  - v4 reads joint, multi-sample files. Sample names come from the `#CHROM`
    header. A sample's variant is found through the GT sub-field named in the
    FORMAT column.
  - V5 and v1 read single-sample files. They take column 2 of every data line,
    and every value must parse as an integer.
- **How scores become a label.**
  - v4 uses a threshold: no positive score gives `unknown_lineage`, one
    positive lineage gives its name, and several give `mixed isolate: `
    followed by their names, sorted.
  - V5 and v1 use best match: the first catalog lineage with the greatest
    score, or an unknown label when every score is 0.
- **Output.**
  - V5 renders a text report with the scores listed in name order.
  - v1 and v4 produce records: a sample, its scores and the label.

The modules:

- `Wrappers` holds `Option`, `Map`, and `Values`. `Values` keeps the values of
  the present entries of a list, in order; it is how a loop that appends only
  non-`None` results is specified.
- `Text` covers the Python string operations the scripts rely on:
  `strip`, `startswith`, `split` with a one-character separator, `join`, and
  `int` on decimal literals.
- `Ordering` covers Python's string order, `sorted`, and the uniqueness of a
  sorted permutation.
- `Scoring` holds exact scores as fractions, compared by cross-multiplication,
  and the catalog scoring loop.
- `Classify` holds the two labelling policies.
- `SingleSample` is the position extraction shared by V5 and v1.
- `PredictorV5`, `PredictorV1` and `JointVcf` are the per-script processing
  and the aggregation loop of each `main`.
- In `JointVcf`, the class `SampleSnps` is the `sample_snps` dict, which is
  filled in place.

## Model

| member | source | states |
|---|---|---|
| Text.Strip | lineage_predictor_v4.py:40 | `str.strip()`: the result is an infix of the input with only whitespace outside it, and it neither starts nor ends with whitespace, so exactly the surrounding whitespace is removed |
| Text.StripIdempotent | lineage_predictor_v4.py:23 | a string without surrounding whitespace is left unchanged by stripping |
| Text.Split | lineage_predictor_v4.py:48 | `str.split(sep)` always yields at least one part |
| Text.SplitPartsFree | lineage_predictor_v4.py:56 | no part of a split contains the separator |
| Text.JoinSplit | lineage_predictor_v4.py:40 | joining the parts of a split with the same separator gives back the original line |
| Text.SplitJoin | lineage_predictor_v4.py:56 | splitting a join of separator-free parts gives back the parts |
| Text.SecondPart | lineage_predictorV5.py:18-20 | the second part of a split lies between the first separator and the next one (or the end), with no separator inside it |
| Text.ParseShowInt | lineage_predictor_v4.py:42 | `int(str(x)) == x` for every integer x |
| Text.ParseIntRejects | lineage_predictor_v4.py:42-45 | the modelled `int` raises ValueError on an empty string and on a non-digit after the first character |
| Ordering.StrLeTotal | lineage_predictor_v4.py:90 | any two strings are comparable in Python's string order |
| Ordering.StrLeAntisymmetric | lineage_predictor_v4.py:90 | strings that are ordered both ways are equal |
| Ordering.StrLeTransitive | lineage_predictor_v4.py:90 | the string order is transitive |
| Ordering.SortStrings | lineage_predictor_v4.py:90 | `sorted` returns an ordered permutation of its input |
| Ordering.SortedUnique | lineage_predictorV5.py:78 | two sorted permutations of the same names are equal, so the sorted order is fully determined |
| Scoring.ScoreOf | lineage_predictor_v4.py:69-74 | a score is at most 100%; an empty marker set scores 0; a score is positive exactly when the marker set meets the sample; a non-empty marker set scores 100% exactly when the sample covers it |
| Scoring.MatchedWithinMarkers | lineage_predictor_v4.py:73 | at most all markers match, and all match exactly when the marker set is a subset of the sample |
| Scoring.ScoreIsMatchPercentage | lineage_predictorV5.py:65-66 | the percentage is `100 * |M ∩ S| / |M|` for a non-empty marker set |
| Scoring.PercentBounds | lineage_predictor_v4.py:73-74 | a percentage lies in [0, 100]; it is 0 exactly without a match and 100 exactly on a full match |
| Scoring.AtMostIsPercentOrder | lineage_predictorV5.py:70-74 | comparing by cross-multiplication orders scores exactly as their percentages, both `<=` and `<` |
| Scoring.AtMostTransitive | lineage_predictorV5.py:74 | the score order is transitive |
| Scoring.RoundingKeepsOrder | lineage_predictor_v1.py:59-65 | when each percentage is rendered within 0.01 of its value, strictly ordered scores stay strictly ordered, provided every marker set has at most 70 positions |
| Scoring.ScoresKeepNames | lineage_predictor_v4.py:68-75 | the score table lists every catalog lineage in catalog order, and its names are distinct when the catalog's are |
| Scoring.ScoreCatalog | lineage_predictorV5.py:63-67 | the scoring loop yields, for every catalog lineage in order, its name and score, even for an empty sample |
| Scoring.ScoresBounded | lineage_predictor_v1.py:55-59 | every entry keeps its lineage name and gets a percentage in [0, 100]; an empty marker set gives 0 and a covered marker set gives 100 |
| Classify.BestIndex | lineage_predictorV5.py:74 | `max(..., key=...)` picks an entry scoring at least every other entry, and every earlier entry scores strictly less |
| Classify.FirstBestUnique | lineage_predictorV5.py:74 | only one index satisfies that description, so the first-wins tie-break is determined |
| Classify.BestMatchLabel | lineage_predictorV5.py:70-74 | all-zero scores give the unknown label; otherwise the label is the name of the first greatest entry, whose score is positive |
| Classify.BestMatchByPercent | lineage_predictorV5.py:69-74 | the same in percentages: all 0% gives unknown; otherwise the first lineage with the maximum percentage, which is above 0% |
| Classify.PositivesMeaning | lineage_predictor_v4.py:80-83 | the matching list holds exactly the names of lineages with a positive score, and it is empty exactly when every score is 0 |
| Classify.PositivesDistinct | lineage_predictor_v4.py:80-83 | with distinct lineage names, no name is listed twice |
| Classify.ThresholdLabelMeaning | lineage_predictor_v4.py:84-90 | all scores 0 give `unknown_lineage`; one positive lineage gives its name; several give `mixed isolate: ` and their names sorted and joined with `, ` |
| Classify.TwoPositivesMixed | lineage_predictor_v4.py:88-90 | two positive lineages always give a label starting with `mixed isolate: ` |
| Classify.PoliciesAgreeOnSingleMatch | lineage_predictor_v4.py:86-87 | with exactly one positive lineage, the threshold and best-match policies both predict it |
| Classify.NoMatchIsUnknown | lineage_predictor_v4.py:84-85 | with no positive score, both policies report unknown |
| Classify.ThresholdLabelOrderIndependent | lineage_predictor_v4.py:80-90 | two tables with the same entries and distinct names get the same threshold label, whatever their order |
| Classify.SamePositivesSameLabel | lineage_predictor_v4.py:90 | the threshold label depends only on the set of positive names |
| Classify.ScoresSameEntries | lineage_predictor_v4.py:69-75 | two orderings of one catalog give score tables with the same entries |
| Classify.ThresholdIgnoresCatalogOrder | lineage_predictor_v4.py:69-90 | reordering the catalog does not change a threshold prediction |
| Classify.ShadowedLineageNeverPredicted | lineage_predictorV5.py:74 | a lineage whose marker set equals an earlier lineage's is never the best match (as `l2_2_2` behind `l2_2_1`) |
| Classify.ExactMatchPredicted | lineage_predictorV5.py:63-74 | a sample equal to one lineage's markers, and disjoint from all others, scores 100% there and 0% elsewhere, and both policies predict that lineage |
| SingleSample.LinePositionIsSecondColumn | lineage_predictorV5.py:18-20 | the position a line contributes lies between its first and second tab (or the end of the stripped line), with no tab inside it: it is the second column |
| SingleSample.ExtractPositions | lineage_predictorV5.py:13-24 | the extraction loop collects the position column in file order, or returns `None` when no line has a position |
| SingleSample.PositionColumnAppend | lineage_predictorV5.py:14-20 | extraction keeps file order: the column of two concatenated files is the concatenation of their columns |
| SingleSample.PositionColumnMembers | lineage_predictorV5.py:14-20 | exactly the second columns of the lines with a position are extracted |
| SingleSample.PositionColumnEmpty | lineage_predictorV5.py:22-24 | nothing is extracted exactly when no line has a position |
| SingleSample.ToPositionSet | lineage_predictorV5.py:55-60 | the conversion succeeds exactly when every position parses as an integer, and then gives the set of their values |
| SingleSample.SamplePositionsMeaning | lineage_predictorV5.py:49-60 | a file yields positions exactly when some line has a position and all such positions are integers; the positions are their values, duplicates collapsing |
| PredictorV5.Listing | lineage_predictorV5.py:77-78 | the probability listing has one entry per lineage, is ordered by name, and holds exactly the table's entries when names are distinct |
| PredictorV5.ListingEntries | lineage_predictorV5.py:77-78 | looking up every sorted name gives back exactly the entries of the table |
| PredictorV5.ListingOrderIndependent | lineage_predictorV5.py:77-78 | tables with the same entries give the same listing, whatever their order |
| PredictorV5.ListingIgnoresCatalogOrder | lineage_predictorV5.py:63-78 | reordering the catalog does not change the listing |
| PredictorV5.ProcessVcf | lineage_predictorV5.py:41-88 | `process_vcf` returns the report of the file's positions (best match with `unknown lineage`, sorted listing), or `None` when extraction or conversion fails |
| PredictorV5.ReportExists | lineage_predictorV5.py:49-60 | a file gets a report exactly when its positions can be extracted and converted |
| PredictorV5.CombineResults | lineage_predictorV5.py:140-150 | the combined output is the reports of the files, in input order, without the `None` ones, joined with newlines |
| PredictorV5.ReportsAppend | lineage_predictorV5.py:141-145 | reports of consecutive batches of files concatenate, so input order is kept |
| PredictorV5.FailedFileOmitted | lineage_predictorV5.py:143-145 | a file without positions leaves the combined output as if it had not been given |
| PredictorV1.ProcessVcf | lineage_predictor_v1.py:38-69 | `process_vcf` returns the record of the file's positions (scores and best match with `unknown_lineage`), or `None` when extraction or conversion fails |
| PredictorV1.PredictionRecord | lineage_predictor_v1.py:55-69 | a record exists exactly when the file's positions can be extracted and converted; it holds the sample name and every catalog lineage in order with a percentage in [0, 100], and `unknown_lineage` when all are 0% |
| PredictorV1.CollectResults | lineage_predictor_v1.py:101-107 | the collected records are the files' records in input order, failed files dropped, and nothing to write when there are none |
| PredictorV1.PredictionsAppend | lineage_predictor_v1.py:102-106 | records of consecutive batches of files concatenate, so input order is kept |
| PredictorV1.PredictionsCount | lineage_predictor_v1.py:105-107 | there is nothing to write exactly when no file yields positions |
| JointVcf.FindHeader | lineage_predictor_v4.py:19-24 | the first pass returns the columns of the first line starting with `#CHROM`, or `[]` |
| JointVcf.HeaderOfMeaning | lineage_predictor_v4.py:18-28 | a header exists exactly when some line starts with `#CHROM`, and it is the stripped, tab-split first such line |
| JointVcf.HeaderOfAppend | lineage_predictor_v4.py:21-24 | the header of concatenated lines is the first part's header if it has one, otherwise the second part's |
| JointVcf.IndexOf | lineage_predictor_v4.py:49-52 | `list.index`: `None` (the ValueError) exactly when the item is absent, otherwise the index of its first occurrence |
| JointVcf.GtIndex | lineage_predictor_v4.py:47-52 | the GT index is the position of the first `GT` among the colon-split FORMAT keys, or 0 when there is none |
| JointVcf.ParseRow | lineage_predictor_v4.py:40-52 | a row parsed as data has at least the nine fixed columns |
| JointVcf.CarriesVariantMeaning | lineage_predictor_v4.py:38-63 | a line adds its position to a sample exactly when it is not a `#` line, column 2 is that integer, all sample columns exist, the sample field has more parts than the GT index, and the GT token is neither `0` nor `.` |
| JointVcf.SlashedReferenceCounts | lineage_predictor_v4.py:60-63 | the comparison is literal: a GT token `0/0` counts as a variant |
| JointVcf.RowAddsMeaning | lineage_predictor_v4.py:55-63 | one row adds position p to a sample's set exactly when some column with that sample's name carries a variant at p |
| JointVcf.CollectedMeaning | lineage_predictor_v4.py:36-63 | a position is gathered for a sample exactly when some row carries a variant in some column with that name, so duplicate header names share one set |
| JointVcf.CollectedAppend | lineage_predictor_v4.py:37-63 | the positions gathered over two runs of rows are the union of each run's |
| JointVcf.Dedup | lineage_predictor_v4.py:33 | the dict keys are distinct and are exactly the header's sample names |
| JointVcf.DedupFirstAppearance | lineage_predictor_v4.py:33 | the keys are ordered by first appearance in the header |
| JointVcf.SampleSnps.constructor | lineage_predictor_v4.py:33 | the dict starts with one empty set per distinct sample name, keys in first-appearance order |
| JointVcf.SampleSnps.Add | lineage_predictor_v4.py:63 | `sample_snps[sample].add(pos)` grows that sample's set by pos and changes nothing else |
| JointVcf.RecordRow | lineage_predictor_v4.py:54-63 | the sample loop over one data row raises exactly when a sample column is missing; otherwise every sample's set grows by what the row adds to it |
| JointVcf.GatherSnps | lineage_predictor_v4.py:35-63 | the second pass raises exactly when some row raises; otherwise every sample's set is exactly its gathered positions |
| JointVcf.ClassifySample | lineage_predictor_v4.py:67-95 | one sample's record holds its name, every lineage's score, and the threshold label of those scores |
| JointVcf.ScoreSamples | lineage_predictor_v4.py:65-97 | the results loop yields one record per dict key, in key order |
| JointVcf.ProcessJointVcf | lineage_predictor_v4.py:7-97 | `process_joint_vcf` returns no records without a header, raises when a row raises, and otherwise returns the records of the distinct samples |
| JointVcf.JointRecordsShape | lineage_predictor_v4.py:65-97 | a returned file has one record per distinct header name, in first-appearance order, each with every catalog lineage in order and the threshold label |
| JointVcf.NoHeaderNoRecords | lineage_predictor_v4.py:26-28 | without a `#CHROM` line a file gives no records, whatever its rows hold |
| JointVcf.ShortRowRaises | lineage_predictor_v4.py:40-56 | below a header, a data row without a second column, or with an integer position but without the FORMAT column or a sample column, makes the whole file raise |
| JointVcf.BadPositionRowSkipped | lineage_predictor_v4.py:41-45 | a row whose position is not an integer is skipped: the file's outcome is the same with that row removed, so later rows still count |
| JointVcf.HeaderSkipsDataRow | lineage_predictor_v4.py:21-24 | a line not starting with `#` never affects the header |
| JointVcf.BadRowIgnored | lineage_predictor_v4.py:41-45 | a skipped row changes neither whether the file raises nor any sample's records |
| JointVcf.CombineResults | lineage_predictor_v4.py:140-148 | the combined table is the records of the files in input order, a raising file contributing nothing |
| JointVcf.CombinedAppend | lineage_predictor_v4.py:141-146 | the combined records of consecutive batches of files concatenate |
| JointVcf.RaisingFileDropped | lineage_predictor_v4.py:143-148 | a file that raises contributes nothing, and the files after it still contribute theirs |

## Left out

- File system and console I/O are not modelled: `argparse`, `os.makedirs`,
  the `os.path.exists` checks, `open`, `print`, the temporary `_snp.txt`
  file, and writing result files. A file is given as its list of lines.
- The `pandas` round trip in `str_conv` is treated as the identity on the
  list of position strings. This includes `read_csv` type coercion and its
  skipping of blank lines, and `DataFrame`/`to_csv` output, including column
  order and the `Sample_Name` index.
- The literal catalog tables are data and are taken as a parameter (in
  catalog order). `dassie` holds `271988` in lineage_predictor_v4.py:131 but
  `2271988` in the other two scripts.
- Sample names of single-sample files (`os.path.splitext` of the base name)
  are taken as an input.
- `Text.ParseInt` accepts an optional sign and decimal digits only. Python's
  `int` also accepts surrounding whitespace, underscores between digits and
  non-ASCII digits.
- V5 and v1 divide by every marker set's size and call `max` on the scores.
  They crash on an empty marker set or an empty catalog, so
  `MarkersNonEmpty(catalog)` and `|catalog| > 0` are preconditions there.
  v4 guards the empty marker set, scoring it 0.
- Floating point is not modelled: scores are exact fractions, and the
  percentage is exact. `PredictorV5.Render` takes the `"%.2f"` rendering of a
  score as a function parameter.
- Classify.ThresholdLabel: it counts every exactly positive score as a
  match. v4 tests the `"%.2f"`-rounded percentage instead, which hides a
  positive score only for marker sets of more than 20000 positions.
  `Scoring.RoundingKeepsOrder`, with a zero score, covers marker sets of up
  to 70 positions; the largest literal set has 50.
- PredictorV1.ProcessVcf: it ranks lineages by exact score. v1 ranks the
  `"%.2f"`-rounded percentages. Equal scores round equally, and
  `Scoring.RoundingKeepsOrder` shows that strictly ordered scores stay
  strictly ordered for marker sets of up to 70 positions. So the two agree on
  the literal catalogs.
- A record holds the sample, the score table and the label. The collision of
  a lineage named `Sample_Name` or `Predicted_lineage` with those dict keys is
  not modelled.
- A v4 exception is modelled as the outcome `Raised`; its message is not
  modelled. The only exception the modelled steps raise is the IndexError of
  a row that lacks a column. Errors while reading a file are I/O and are not
  modelled.
- A missing file does not raise in v4: lineage_predictor_v4.py:14-16 prints
  a message and returns no records. That existence check is part of the
  unmodelled I/O.
- Errors while writing the combined table (lineage_predictor_v4.py:151-156)
  would end `main` outside the per-file handler. They are not modelled.
