/**
 * lineage_predictor_v1.py: one sample per VCF file, best-match prediction with
 * the label "unknown_lineage", one result record per file, and the records of
 * all files collected into one table.
 */
module PredictorV1 {
  import opened Wrappers
  import opened Scoring
  import opened Classify
  import opened SingleSample

  /** What process_vcf returns for one file: None when its positions cannot be extracted. */
  function Prediction(sample: string, lines: seq<string>, catalog: Catalog): Option<Record>
    requires |catalog| > 0
  {
    match SamplePositions(lines)
    case None => None
    case Some(positions) =>
      var t := Scores(catalog, positions);
      Some(Record(sample, t, BestMatchLabel(t, UnknownLineage)))
  }

  /**
   * process_vcf: extract the positions, convert them, score every lineage and
   * record the best match.
   */
  method ProcessVcf(sample: string, lines: seq<string>, catalog: Catalog) returns (record: Option<Record>)
    requires |catalog| > 0 && MarkersNonEmpty(catalog)
    ensures record == Prediction(sample, lines, catalog)
  {
    var extracted := ExtractPositions(lines);
    if extracted.None? {
      return None;
    }
    var positions := ToPositionSet(extracted.value);
    if positions.None? {
      return None;
    }
    var table := ScoreCatalog(catalog, positions.value);
    record := Some(Record(sample, table, BestMatchLabel(table, UnknownLineage)));
  }

  /**
   * A record holds the sample name, every catalog lineage in catalog order with
   * its score, and "unknown_lineage" when nothing matches.
   */
  lemma PredictionRecord(sample: string, lines: seq<string>, catalog: Catalog)
    requires |catalog| > 0
    ensures Prediction(sample, lines, catalog).Some? <==> SamplePositions(lines).Some?
    ensures Prediction(sample, lines, catalog).Some? ==>
              var r := Prediction(sample, lines, catalog).value;
              && r.sample == sample
              && |r.scores| == |catalog|
              && (forall i :: 0 <= i < |catalog| ==>
                    r.scores[i].0 == catalog[i].0 && 0.0 <= Percent(r.scores[i].1) <= 100.0)
              && ((forall i :: 0 <= i < |catalog| ==> Percent(r.scores[i].1) == 0.0) ==> r.predicted == UnknownLineage)
  {
    if SamplePositions(lines).Some? {
      var t := Scores(catalog, SamplePositions(lines).value);
      forall i | 0 <= i < |catalog| ensures 0.0 <= Percent(t[i].1) <= 100.0 {
        ScoresBounded(catalog, SamplePositions(lines).value, i);
      }
      BestMatchByPercent(t, UnknownLineage);
    }
  }

  /** What process_vcf returns for each file of a run, in input order. */
  function FilePredictions(files: seq<(string, seq<string>)>, catalog: Catalog): seq<Option<Record>>
    requires |catalog| > 0
  {
    Map((file: (string, seq<string>)) requires |catalog| > 0 => Prediction(file.0, file.1, catalog), files)
  }

  /** The records of a run, in input order, files without a record left out. */
  function Predictions(files: seq<(string, seq<string>)>, catalog: Catalog): seq<Record>
    requires |catalog| > 0
  {
    Values(FilePredictions(files, catalog))
  }

  /**
   * The loop of main: process every file in order; the table is written only
   * when there is at least one record (None: nothing is written).
   */
  method CollectResults(files: seq<(string, seq<string>)>, catalog: Catalog) returns (table: Option<seq<Record>>)
    requires |catalog| > 0 && MarkersNonEmpty(catalog)
    ensures table == if Predictions(files, catalog) == [] then None else Some(Predictions(files, catalog))
  {
    ghost var outcomes := FilePredictions(files, catalog);
    var results: seq<Record> := [];
    for i := 0 to |files|
      invariant results == Values(outcomes[..i])
    {
      ValuesStep(outcomes, i);
      var (sample, lines) := files[i];
      var result := ProcessVcf(sample, lines, catalog);
      if result.Some? {
        results := results + [result.value];
      }
    }
    assert outcomes[..|files|] == outcomes;
    if results == [] {
      return None;
    }
    return Some(results);
  }

  /** Records of consecutive batches concatenate: input order is kept across files. */
  lemma PredictionsAppend(f1: seq<(string, seq<string>)>, f2: seq<(string, seq<string>)>, catalog: Catalog)
    requires |catalog| > 0
    ensures Predictions(f1 + f2, catalog) == Predictions(f1, catalog) + Predictions(f2, catalog)
  {
    MapAppend((file: (string, seq<string>)) requires |catalog| > 0 => Prediction(file.0, file.1, catalog), f1, f2);
    ValuesAppend(FilePredictions(f1, catalog), FilePredictions(f2, catalog));
  }

  /** There is one record per file whose positions can be extracted, so no table exactly when no file yields positions. */
  lemma PredictionsCount(files: seq<(string, seq<string>)>, catalog: Catalog)
    requires |catalog| > 0
    ensures Predictions(files, catalog) == [] <==> forall i :: 0 <= i < |files| ==> SamplePositions(files[i].1).None?
  {
    ValuesEmpty(FilePredictions(files, catalog));
  }
}
