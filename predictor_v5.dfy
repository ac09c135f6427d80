/**
 * lineage_predictorV5.py: one sample per VCF file, best-match prediction with
 * the label "unknown lineage", a text report per file listing the scores in
 * name order, and the reports of all files joined into one text.
 */
module PredictorV5 {
  import opened Wrappers
  import opened Text
  import opened Ordering
  import opened Scoring
  import opened Classify
  import opened SingleSample

  /** The label of this script when no lineage matches (with a space). */
  const UnknownLineageV5 := "unknown lineage"

  /** The lineage names of a score table, in table order (the dict keys). */
  function Names(t: ScoreTable): (names: seq<string>)
    ensures |names| == |t| && forall i :: 0 <= i < |t| ==> names[i] == t[i].0
  {
    seq(|t|, i requires 0 <= i < |t| => t[i].0)
  }

  /** `lineage_probabilities[name]`: the score of the first entry with that name. */
  function Lookup(t: ScoreTable, name: string): Score
    decreases |t|
  {
    if t == [] then Fraction(0, 1)
    else if t[0].0 == name then t[0].1
    else Lookup(t[1..], name)
  }

  /** A name of the table is looked up to an entry of the table. */
  lemma {:induction false} LookupIn(t: ScoreTable, name: string)
    requires name in Names(t)
    ensures (name, Lookup(t, name)) in t
    decreases |t|
  {
    if t[0].0 != name {
      assert name in Names(t[1..]) by {
        var i :| 0 <= i < |t| && Names(t)[i] == name;
        assert Names(t[1..])[i - 1] == name;
      }
      LookupIn(t[1..], name);
    }
  }

  /** With distinct names, looking an entry's name up gives that entry's score. */
  lemma {:induction false} LookupFinds(t: ScoreTable, e: (string, Score))
    requires DistinctNames(t) && e in t
    ensures Lookup(t, e.0) == e.1
    decreases |t|
  {
    if t[0] != e {
      var i :| 0 <= i < |t| && t[i] == e;
      assert t[1..][i - 1] == e;
      assert DistinctNames(t[1..]) by {
        forall a, b | 0 <= a < b < |t| - 1 ensures t[1..][a].0 != t[1..][b].0 {
          assert t[1..][a] == t[a + 1] && t[1..][b] == t[b + 1];
        }
      }
      LookupFinds(t[1..], e);
    }
  }

  lemma NamesDistinct(t: ScoreTable)
    requires DistinctNames(t)
    ensures Distinct(Names(t))
  {
  }

  /**
   * The probability listing: every lineage of the table with its score,
   * ordered by lineage name.
   */
  function Listing(t: ScoreTable): (listing: ScoreTable)
    ensures |listing| == |t|
    ensures forall i, j :: 0 <= i < j < |listing| ==> StrLe(listing[i].0, listing[j].0)
    ensures DistinctNames(t) ==> forall e :: e in listing <==> e in t
  {
    var names := SortStrings(Names(t));
    assert |names| == |multiset(names)| == |multiset(Names(t))| == |t|;
    var listing := seq(|names|, i requires 0 <= i < |names| => (names[i], Lookup(t, names[i])));
    ListingEntries(t, names, listing);
    listing
  }

  /** With distinct lineage names, looking every sorted name up gives back exactly the entries of the table. */
  lemma ListingEntries(t: ScoreTable, names: seq<string>, listing: ScoreTable)
    requires multiset(names) == multiset(Names(t))
    requires |listing| == |names| && forall i :: 0 <= i < |names| ==> listing[i] == (names[i], Lookup(t, names[i]))
    ensures DistinctNames(t) ==> forall e :: e in listing <==> e in t
  {
    if DistinctNames(t) {
      forall e | e in listing ensures e in t {
        var i :| 0 <= i < |listing| && listing[i] == e;
        assert names[i] in multiset(Names(t));
        LookupIn(t, names[i]);
      }
      forall e | e in t ensures e in listing {
        var j :| 0 <= j < |t| && t[j] == e;
        assert e.0 == Names(t)[j];
        assert e.0 in multiset(names);
        var i :| 0 <= i < |names| && names[i] == e.0;
        LookupFinds(t, e);
        assert listing[i] == e;
      }
    }
  }

  /**
   * The listing depends only on the entries of the table, not on their order:
   * the same lineages with the same scores give the same listing.
   */
  lemma ListingOrderIndependent(t1: ScoreTable, t2: ScoreTable)
    requires DistinctNames(t1) && DistinctNames(t2)
    requires forall e :: e in t1 <==> e in t2
    ensures Listing(t1) == Listing(t2)
  {
    SameEntriesSameNames(t1, t2);
    var s := SortStrings(Names(t1));
    SortedUnique(s, SortStrings(Names(t2)));
    forall i | 0 <= i < |s| ensures Lookup(t1, s[i]) == Lookup(t2, s[i]) {
      assert s[i] in multiset(Names(t1));
      LookupIn(t1, s[i]);
      LookupFinds(t2, (s[i], Lookup(t1, s[i])));
    }
  }

  /** Tables with the same entries and distinct names have the same names, counted with multiplicity. */
  lemma SameEntriesSameNames(t1: ScoreTable, t2: ScoreTable)
    requires DistinctNames(t1) && DistinctNames(t2)
    requires forall e :: e in t1 <==> e in t2
    ensures multiset(Names(t1)) == multiset(Names(t2))
  {
    var n1, n2 := Names(t1), Names(t2);
    NamesDistinct(t1);
    NamesDistinct(t2);
    forall x ensures x in n1 <==> x in n2 {
      if x in n1 {
        var i :| 0 <= i < |n1| && n1[i] == x;
        assert t1[i] in t2;
        var j :| 0 <= j < |t2| && t2[j] == t1[i];
        assert n2[j] == x;
      }
      if x in n2 {
        var i :| 0 <= i < |n2| && n2[i] == x;
        assert t2[i] in t1;
        var j :| 0 <= j < |t1| && t1[j] == t2[i];
        assert n1[j] == x;
      }
    }
    DistinctSameElements(n1, n2);
  }

  /** Reordering the catalog does not change the listing. */
  lemma ListingIgnoresCatalogOrder(c1: Catalog, c2: Catalog, sample: set<int>)
    requires DistinctNames(c1) && DistinctNames(c2)
    requires multiset(c1) == multiset(c2)
    ensures Listing(Scores(c1, sample)) == Listing(Scores(c2, sample))
  {
    forall e ensures e in c1 <==> e in c2 {
      assert e in c1 <==> e in multiset(c1);
      assert e in c2 <==> e in multiset(c2);
    }
    ScoresSameEntries(c1, c2, sample);
    ScoresKeepNames(c1, sample);
    ScoresKeepNames(c2, sample);
    ListingOrderIndependent(Scores(c1, sample), Scores(c2, sample));
  }

  /** The `"<lineage>: <p>%"` items of the listing; `percent` renders a score as `f"{p:.2f}"`. */
  function ListingItems(listing: ScoreTable, percent: Score -> string): seq<string> {
    seq(|listing|, i requires 0 <= i < |listing| => listing[i].0 + ": " + percent(listing[i].1) + "%")
  }

  /** The report text of one sample. */
  function Render(sample: string, predicted: string, listing: ScoreTable, percent: Score -> string): string {
    sample + " is predicted as " + predicted + "\nProbabilities: " + Join(ListingItems(listing, percent), ", ") + "\n"
  }

  /** What process_vcf returns for one file: None when its positions cannot be extracted. */
  function Report(sample: string, lines: seq<string>, catalog: Catalog, percent: Score -> string): Option<string>
    requires |catalog| > 0
  {
    match SamplePositions(lines)
    case None => None
    case Some(positions) =>
      var t := Scores(catalog, positions);
      Some(Render(sample, BestMatchLabel(t, UnknownLineageV5), Listing(t), percent))
  }

  /**
   * process_vcf: extract the positions, convert them, score every lineage,
   * take the best match and render the report.
   */
  method ProcessVcf(sample: string, lines: seq<string>, catalog: Catalog, percent: Score -> string)
    returns (output: Option<string>)
    requires |catalog| > 0 && MarkersNonEmpty(catalog)
    ensures output == Report(sample, lines, catalog, percent)
  {
    var extracted := ExtractPositions(lines);
    if extracted.None? {
      return None;
    }
    var positions := ToPositionSet(extracted.value);
    if positions.None? {
      return None;
    }
    var table := ScoreCatalog(catalog, positions.value);
    var predicted := BestMatchLabel(table, UnknownLineageV5);
    output := Some(Render(sample, predicted, Listing(table), percent));
  }

  /** A file gets a report exactly when its positions can be extracted and converted. */
  lemma ReportExists(sample: string, lines: seq<string>, catalog: Catalog, percent: Score -> string)
    requires |catalog| > 0
    ensures Report(sample, lines, catalog, percent).Some? <==> SamplePositions(lines).Some?
  {
  }

  /** What process_vcf returns for each file of a run, in input order. */
  function FileReports(files: seq<(string, seq<string>)>, catalog: Catalog, percent: Score -> string)
    : seq<Option<string>>
    requires |catalog| > 0
  {
    Map((file: (string, seq<string>)) requires |catalog| > 0 => Report(file.0, file.1, catalog, percent), files)
  }

  /** The per-file reports of a run, in input order, files without a report left out. */
  function Reports(files: seq<(string, seq<string>)>, catalog: Catalog, percent: Score -> string): seq<string>
    requires |catalog| > 0
  {
    Values(FileReports(files, catalog, percent))
  }

  /** The loop of main: process every file in order and join the reports with newlines. */
  method CombineResults(files: seq<(string, seq<string>)>, catalog: Catalog, percent: Score -> string)
    returns (combined: string)
    requires |catalog| > 0 && MarkersNonEmpty(catalog)
    ensures combined == Join(Reports(files, catalog, percent), "\n")
  {
    ghost var outcomes := FileReports(files, catalog, percent);
    var results: seq<string> := [];
    for i := 0 to |files|
      invariant results == Values(outcomes[..i])
    {
      ValuesStep(outcomes, i);
      var (sample, lines) := files[i];
      var result := ProcessVcf(sample, lines, catalog, percent);
      if result.Some? {
        results := results + [result.value];
      }
    }
    assert outcomes[..|files|] == outcomes;
    combined := Join(results, "\n");
  }

  lemma FileReportsAppend(f1: seq<(string, seq<string>)>, f2: seq<(string, seq<string>)>,
                          catalog: Catalog, percent: Score -> string)
    requires |catalog| > 0
    ensures FileReports(f1 + f2, catalog, percent) == FileReports(f1, catalog, percent) + FileReports(f2, catalog, percent)
  {
    MapAppend((file: (string, seq<string>)) requires |catalog| > 0 => Report(file.0, file.1, catalog, percent), f1, f2);
  }

  /** Reports of consecutive batches concatenate: input order is kept across files. */
  lemma ReportsAppend(f1: seq<(string, seq<string>)>, f2: seq<(string, seq<string>)>,
                      catalog: Catalog, percent: Score -> string)
    requires |catalog| > 0
    ensures Reports(f1 + f2, catalog, percent) == Reports(f1, catalog, percent) + Reports(f2, catalog, percent)
  {
    FileReportsAppend(f1, f2, catalog, percent);
    ValuesAppend(FileReports(f1, catalog, percent), FileReports(f2, catalog, percent));
  }

  /** A file whose positions cannot be extracted leaves the combined output as if it were not given. */
  lemma FailedFileOmitted(f1: seq<(string, seq<string>)>, file: (string, seq<string>), f2: seq<(string, seq<string>)>,
                          catalog: Catalog, percent: Score -> string)
    requires |catalog| > 0
    requires SamplePositions(file.1) == None
    ensures Reports(f1 + [file] + f2, catalog, percent) == Reports(f1 + f2, catalog, percent)
  {
    var o1, o2 := FileReports(f1, catalog, percent), FileReports(f2, catalog, percent);
    FileReportsAppend(f1 + [file], f2, catalog, percent);
    FileReportsAppend(f1, [file], catalog, percent);
    FileReportsAppend(f1, f2, catalog, percent);
    assert FileReports([file], catalog, percent) == [None];
    ValuesSkipNone(o1, o2);
  }
}
