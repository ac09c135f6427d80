/**
 * lineage_predictor_v4.py: joint VCF files holding several samples. Sample
 * names come from the "#CHROM" header line, each sample's variant positions
 * are gathered through the GT sub-field of its column, and every sample is
 * classified with the threshold policy (unknown, one lineage, or a mixed
 * isolate).
 */
module JointVcf {
  import opened Wrappers
  import opened Text
  import opened Ordering
  import opened Scoring
  import opened Classify

  /** What process_joint_vcf does with a file: return records, or raise (IndexError on a short row). */
  datatype Outcome<T> = Returned(value: T) | Raised

  // ---------------------------------------------------------------- header

  /** The columns of the first line starting with "#CHROM", or [] when there is none. */
  function HeaderOf(lines: seq<string>): seq<string>
    decreases |lines|
  {
    if lines == [] then []
    else if StartsWith(lines[0], "#CHROM") then Fields(lines[0])
    else HeaderOf(lines[1..])
  }

  /** The first pass over the file: stop at the first "#CHROM" line. */
  method FindHeader(lines: seq<string>) returns (header: seq<string>)
    ensures header == HeaderOf(lines)
  {
    var i := 0;
    while i < |lines|
      invariant 0 <= i <= |lines|
      invariant HeaderOf(lines) == HeaderOf(lines[i..])
    {
      assert lines[i..][1..] == lines[i + 1..];
      if StartsWith(lines[i], "#CHROM") {
        return Fields(lines[i]);
      }
      i := i + 1;
    }
    return [];
  }

  /**
   * There is a header exactly when some line starts with "#CHROM", and then it
   * is the columns of the first such line.
   */
  lemma {:induction false} HeaderOfMeaning(lines: seq<string>)
    ensures HeaderOf(lines) == [] <==> forall i :: 0 <= i < |lines| ==> !StartsWith(lines[i], "#CHROM")
    ensures HeaderOf(lines) != [] ==>
              exists k :: && 0 <= k < |lines| && StartsWith(lines[k], "#CHROM")
                          && (forall i :: 0 <= i < k ==> !StartsWith(lines[i], "#CHROM"))
                          && HeaderOf(lines) == Fields(lines[k])
    decreases |lines|
  {
    if lines != [] && !StartsWith(lines[0], "#CHROM") {
      HeaderOfMeaning(lines[1..]);
      assert forall i :: 1 <= i < |lines| ==> lines[1..][i - 1] == lines[i];
      if HeaderOf(lines) != [] {
        var k :| && 0 <= k < |lines| - 1 && StartsWith(lines[1..][k], "#CHROM")
                 && (forall i :: 0 <= i < k ==> !StartsWith(lines[1..][i], "#CHROM"))
                 && HeaderOf(lines[1..]) == Fields(lines[1..][k]);
        assert forall i :: 0 <= i < k + 1 ==> !StartsWith(lines[i], "#CHROM") by {
          forall i | 0 <= i < k + 1 ensures !StartsWith(lines[i], "#CHROM") {
            if i > 0 { assert lines[i] == lines[1..][i - 1]; }
          }
        }
        assert lines[k + 1] == lines[1..][k];
      }
    }
  }

  lemma {:induction false} HeaderOfAppend(a: seq<string>, b: seq<string>)
    ensures HeaderOf(a + b) == if HeaderOf(a) != [] then HeaderOf(a) else HeaderOf(b)
    decreases |a|
  {
    if a != [] {
      assert (a + b)[0] == a[0] && (a + b)[1..] == a[1..] + b;
      HeaderOfAppend(a[1..], b);
      if StartsWith(a[0], "#CHROM") {
        assert Fields(a[0]) != [];
      }
    } else {
      assert a + b == b;
    }
  }

  /** `header[9:]`: the sample names, empty when the header has at most nine columns. */
  function SampleNames(header: seq<string>): seq<string> {
    if |header| <= 9 then [] else header[9..]
  }

  // ---------------------------------------------------------------- rows

  /** The position of the first occurrence of x, as `list.index`; None for the ValueError. */
  function IndexOf(parts: seq<string>, x: string): (r: Option<nat>)
    ensures r.None? <==> x !in parts
    ensures r.Some? ==> r.value < |parts| && parts[r.value] == x && x !in parts[..r.value]
    decreases |parts|
  {
    if parts == [] then None
    else if parts[0] == x then
      assert parts[..0] == [];
      Some(0)
    else
      match IndexOf(parts[1..], x)
      case None =>
        assert parts == [parts[0]] + parts[1..];
        None
      case Some(k) =>
        assert parts[..k + 1] == [parts[0]] + parts[1..][..k];
        Some(k + 1)
  }

  /**
   * The GT index of a FORMAT column: where the first "GT" stands among its
   * colon-separated keys, or 0 when there is no "GT".
   */
  function GtIndex(format: string): (gt: nat)
    ensures "GT" in Split(format, ':') ==>
              gt < |Split(format, ':')| && Split(format, ':')[gt] == "GT" && "GT" !in Split(format, ':')[..gt]
    ensures "GT" !in Split(format, ':') ==> gt == 0
  {
    match IndexOf(Split(format, ':'), "GT")
    case Some(k) => k
    case None => 0
  }

  /** A variant row as the second pass sees it. */
  datatype Row =
    | Comment                                          // starts with '#': skipped
    | Short                                            // too few columns: IndexError
    | BadPosition                                      // column 2 is not an integer: skipped
    | Data(pos: int, fields: seq<string>, gt: nat)     // position, columns, GT index

  function ParseRow(line: string): (row: Row)
    ensures row.Data? ==> 9 <= |row.fields|
  {
    if StartsWith(line, "#") then Comment
    else
      var fields := Fields(line);
      if |fields| < 2 then Short
      else
        match ParseInt(fields[1])
        case None => BadPosition
        case Some(pos) => if |fields| < 9 then Short else Data(pos, fields, GtIndex(fields[8]))
  }

  /** A row raises when a column it reads is missing: column 2, FORMAT, or a sample column. */
  predicate RowRaises(row: Row, sampleCount: nat) {
    row.Short? || (row.Data? && |row.fields| < 9 + sampleCount)
  }

  /** The j-th sample column of a data row holds a GT token other than "0" and ".". */
  predicate Calls(row: Row, j: nat)
    requires row.Data? && 9 + j < |row.fields|
  {
    var genotype := Split(row.fields[9 + j], ':');
    row.gt < |genotype| && genotype[row.gt] != "0" && genotype[row.gt] != "."
  }

  /** The rows of a file, as the second pass parses them. */
  function ParseRows(lines: seq<string>): seq<Row> {
    Map(ParseRow, lines)
  }

  /**
   * Sample column j of a row (of a file with `sampleCount` samples) adds
   * position p to that sample's set.
   */
  predicate CarriesVariant(row: Row, sampleCount: nat, j: nat, p: int) {
    && row.Data? && row.pos == p
    && j < sampleCount && 9 + sampleCount <= |row.fields|
    && Calls(row, j)
  }

  /**
   * A line adds its position to a sample's set exactly when it is not a '#'
   * line, its second column is an integer, it has all the columns the sample
   * loop reads, the sample's field has more colon-separated parts than the GT
   * index, and the GT token is neither "0" nor "." (compared literally, so
   * "0/0" counts).
   */
  lemma CarriesVariantMeaning(line: string, sampleCount: nat, j: nat, p: int)
    ensures CarriesVariant(ParseRow(line), sampleCount, j, p) <==>
              var fields := Fields(line);
              && !StartsWith(line, "#")
              && j < sampleCount && 9 + sampleCount <= |fields|
              && ParseInt(fields[1]) == Some(p)
              && var genotype := Split(fields[9 + j], ':');
                 var gt := GtIndex(fields[8]);
                 && gt < |genotype|
                 && genotype[gt] != "0" && genotype[gt] != "."
  {
  }

  /** A GT token "0/0" is not the literal "0", so it counts as a variant. */
  lemma SlashedReferenceCounts(row: Row, j: nat)
    requires row.Data? && 9 + j < |row.fields| && row.gt == 0
    requires row.fields[9 + j] == "0/0"
    ensures Calls(row, j)
  {
    SplitJoin(["0/0"], ':');
    assert Join(["0/0"], ":") == "0/0";
  }

  /** What one row adds to the set of the sample called `name` (all columns carrying that name). */
  function RowAdds(row: Row, names: seq<string>, name: string): set<int> {
    if row.Data? && 9 + |names| <= |row.fields|
       && exists j :: 0 <= j < |names| && names[j] == name && Calls(row, j)
    then {row.pos}
    else {}
  }

  lemma RowAddsMeaning(row: Row, names: seq<string>, name: string, p: int)
    ensures p in RowAdds(row, names, name) <==>
              exists j :: 0 <= j < |names| && names[j] == name && CarriesVariant(row, |names|, j, p)
  {
  }

  /** The positions gathered for the sample called `name` over the rows of a file. */
  function Collected(rows: seq<Row>, names: seq<string>, name: string): set<int>
    decreases |rows|
  {
    if rows == [] then {}
    else Collected(rows[..|rows| - 1], names, name) + RowAdds(rows[|rows| - 1], names, name)
  }

  /** Some row of the file raises. */
  predicate AnyRaises(rows: seq<Row>, sampleCount: nat) {
    exists i :: 0 <= i < |rows| && RowRaises(rows[i], sampleCount)
  }

  /**
   * A position is gathered for the sample `name` exactly when some row
   * carries a variant in some column with that name: duplicate header names
   * share one set.
   */
  lemma {:induction false} CollectedMeaning(rows: seq<Row>, names: seq<string>, name: string, p: int)
    ensures p in Collected(rows, names, name) <==>
              exists i, j :: 0 <= i < |rows| && 0 <= j < |names| && names[j] == name
                             && CarriesVariant(rows[i], |names|, j, p)
    decreases |rows|
  {
    if rows != [] {
      var prefix, last := rows[..|rows| - 1], rows[|rows| - 1];
      CollectedMeaning(prefix, names, name, p);
      RowAddsMeaning(last, names, name, p);
      if p in Collected(rows, names, name) {
        if p in Collected(prefix, names, name) {
          var i, j :| 0 <= i < |prefix| && 0 <= j < |names| && names[j] == name
                      && CarriesVariant(prefix[i], |names|, j, p);
          assert prefix[i] == rows[i];
        } else {
          var j :| 0 <= j < |names| && names[j] == name && CarriesVariant(last, |names|, j, p);
          assert rows[|rows| - 1] == last;
        }
      }
      if exists i, j :: 0 <= i < |rows| && 0 <= j < |names| && names[j] == name
                        && CarriesVariant(rows[i], |names|, j, p) {
        var i, j :| 0 <= i < |rows| && 0 <= j < |names| && names[j] == name
                    && CarriesVariant(rows[i], |names|, j, p);
        if i < |prefix| {
          assert prefix[i] == rows[i];
        }
      }
    }
  }

  lemma {:induction false} CollectedAppend(a: seq<Row>, b: seq<Row>, names: seq<string>, name: string)
    ensures Collected(a + b, names, name) == Collected(a, names, name) + Collected(b, names, name)
    decreases |b|
  {
    if b == [] {
      assert a + b == a;
    } else {
      var b' := b[..|b| - 1];
      assert (a + b)[..|a + b| - 1] == a + b';
      assert (a + b)[|a + b| - 1] == b[|b| - 1];
      CollectedAppend(a, b', names, name);
    }
  }

  // ---------------------------------------------------------------- samples

  /** The distinct names of a list in order of first appearance (the keys of a dict built from it). */
  function Dedup(names: seq<string>): (r: seq<string>)
    ensures Distinct(r)
    ensures forall n :: n in r <==> n in names
    decreases |names|
  {
    if names == [] then []
    else
      var prefix := names[..|names| - 1];
      assert forall n :: n in names <==> n in prefix || n == names[|names| - 1] by {
        assert names == prefix + [names[|names| - 1]];
      }
      var d := Dedup(prefix);
      if names[|names| - 1] in d then d else d + [names[|names| - 1]]
  }

  /** The index of the first occurrence of x. */
  function FirstIndex(s: seq<string>, x: string): (k: nat)
    requires x in s
    ensures k < |s| && s[k] == x && x !in s[..k]
  {
    IndexOf(s, x).value
  }

  lemma FirstIndexUnique(s: seq<string>, x: string, k: nat)
    requires k < |s| && s[k] == x && x !in s[..k]
    ensures FirstIndex(s, x) == k
  {
    var f := FirstIndex(s, x);
    assert forall i :: 0 <= i < k ==> s[..k][i] == s[i];
    assert forall i :: 0 <= i < f ==> s[..f][i] == s[i];
  }

  /** Dedup lists the names in order of first appearance. */
  lemma {:induction false} DedupFirstAppearance(names: seq<string>, a: nat, b: nat)
    requires a < b < |Dedup(names)|
    ensures FirstIndex(names, Dedup(names)[a]) < FirstIndex(names, Dedup(names)[b])
    decreases |names|
  {
    var prefix := names[..|names| - 1];
    var last := names[|names| - 1];
    var d := Dedup(prefix);
    assert names == prefix + [last];
    forall x | x in prefix ensures FirstIndex(names, x) == FirstIndex(prefix, x) {
      var k := FirstIndex(prefix, x);
      assert names[..k] == prefix[..k];
      FirstIndexUnique(names, x, k);
    }
    if b < |d| {
      DedupFirstAppearance(prefix, a, b);
    } else {
      assert Dedup(names)[b] == last && last !in prefix;
      assert names[..|names| - 1] == prefix;
      FirstIndexUnique(names, last, |names| - 1);
      assert Dedup(names)[a] in prefix;
    }
  }

  /** The elements of a list, as a set. */
  function Members(s: seq<string>): set<string> {
    set x | x in s
  }

  /** `sample_snps`: the dict from sample name to the set of its variant positions. */
  class SampleSnps {
    /** The keys in insertion order. */
    var order: seq<string>
    var snps: map<string, set<int>>

    ghost predicate Valid()
      reads this
    {
      Distinct(order) && snps.Keys == Members(order)
    }

    /** `{sample: set() for sample in sample_names}`. */
    constructor (names: seq<string>)
      ensures Valid() && order == Dedup(names)
      ensures snps == map n | n in Members(names) :: {}
    {
      var keys: seq<string> := [];
      var sets: map<string, set<int>> := map[];
      for i := 0 to |names|
        invariant keys == Dedup(names[..i])
        invariant sets == map n | n in Members(names[..i]) :: {}
      {
        assert names[..i + 1] == names[..i] + [names[i]];
        assert Members(names[..i + 1]) == Members(names[..i]) + {names[i]};
        sets := sets[names[i] := {}];
        if names[i] !in keys {
          keys := keys + [names[i]];
        }
      }
      assert names[..|names|] == names;
      assert Members(keys) == Members(names);
      order := keys;
      snps := sets;
    }

    /** `sample_snps[sample].add(pos)`. */
    method Add(sample: string, pos: int)
      requires Valid() && sample in snps
      modifies this
      ensures Valid() && order == old(order)
      ensures snps == old(snps)[sample := old(snps)[sample] + {pos}]
    {
      snps := snps[sample := snps[sample] + {pos}];
    }
  }

  /** The table after one row: every sample's set grows by what the row adds to it. */
  function AddRow(m: map<string, set<int>>, row: Row, names: seq<string>): map<string, set<int>> {
    map n | n in m :: m[n] + RowAdds(row, names, n)
  }

  /** The table part way through the sample loop of a data row: columns before j are done. */
  function Partial(m: map<string, set<int>>, row: Row, names: seq<string>, j: nat): map<string, set<int>>
    requires row.Data? && 9 + j <= |row.fields| && j <= |names|
  {
    map n | n in m :: m[n] + (if CalledBefore(row, names, j, n) then {row.pos} else {})
  }

  /** One of the first j sample columns, named n, calls a variant. */
  predicate CalledBefore(row: Row, names: seq<string>, j: nat, n: string)
    requires row.Data? && 9 + j <= |row.fields| && j <= |names|
  {
    exists k :: 0 <= k < j && names[k] == n && Calls(row, k)
  }

  lemma CalledBeforeStep(row: Row, names: seq<string>, j: nat, n: string)
    requires row.Data? && 9 + j < |row.fields| && j < |names|
    ensures CalledBefore(row, names, j + 1, n) <==> CalledBefore(row, names, j, n) || (names[j] == n && Calls(row, j))
  {
  }

  lemma PartialStep(m: map<string, set<int>>, row: Row, names: seq<string>, j: nat)
    requires row.Data? && 9 + j < |row.fields| && j < |names| && names[j] in m
    ensures Partial(m, row, names, j + 1) ==
              if Calls(row, j) then Partial(m, row, names, j)[names[j] := Partial(m, row, names, j)[names[j]] + {row.pos}]
              else Partial(m, row, names, j)
  {
    var before, after := Partial(m, row, names, j), Partial(m, row, names, j + 1);
    forall n | n in m
      ensures after[n] == if Calls(row, j) && n == names[j] then before[n] + {row.pos} else before[n]
    {
      CalledBeforeStep(row, names, j, n);
    }
  }

  lemma PartialStart(m: map<string, set<int>>, row: Row, names: seq<string>)
    requires row.Data? && 9 <= |row.fields|
    ensures Partial(m, row, names, 0) == m
  {
    var p := Partial(m, row, names, 0);
    assert p.Keys == m.Keys;
    forall n | n in m ensures p[n] == m[n] { }
  }

  lemma PartialDone(m: map<string, set<int>>, row: Row, names: seq<string>)
    requires row.Data? && 9 + |names| <= |row.fields|
    ensures Partial(m, row, names, |names|) == AddRow(m, row, names)
  {
  }

  /** The sample loop over one data row: add the position to every sample column that calls a variant. */
  method RecordRow(table: SampleSnps, row: Row, names: seq<string>) returns (raised: bool)
    requires row.Data? && 9 <= |row.fields|
    requires table.Valid() && table.snps.Keys == Members(names)
    modifies table
    ensures table.Valid() && table.order == old(table.order)
    ensures raised == RowRaises(row, |names|)
    ensures !raised ==> table.snps == AddRow(old(table.snps), row, names)
  {
    ghost var start := table.snps;
    PartialStart(start, row, names);
    for j := 0 to |names|
      invariant 9 + j <= |row.fields|
      invariant table.Valid() && table.order == old(table.order)
      invariant table.snps == Partial(start, row, names, j)
    {
      if 9 + j >= |row.fields| {
        return true;
      }
      assert names[j] in Members(names);
      PartialStep(start, row, names, j);
      if Calls(row, j) {
        table.Add(names[j], row.pos);
      }
    }
    PartialDone(start, row, names);
    return false;
  }

  // ---------------------------------------------------------------- records

  /** The output record of a sample with the given positions: its scores and its threshold-policy label. */
  function LabelledRecord(name: string, positions: set<int>, catalog: Catalog): Record {
    var t := Scores(catalog, positions);
    Record(name, t, ThresholdLabel(t))
  }

  /** The output record of one sample of a file. */
  function SampleRecord(rows: seq<Row>, names: seq<string>, name: string, catalog: Catalog): Record {
    LabelledRecord(name, Collected(rows, names, name), catalog)
  }

  /** One record per distinct sample name, in order of first appearance. */
  function SampleRecords(rows: seq<Row>, names: seq<string>, catalog: Catalog): seq<Record> {
    var samples := Dedup(names);
    seq(|samples|, k requires 0 <= k < |samples| => SampleRecord(rows, names, samples[k], catalog))
  }

  /** The records of a file below a header naming `names`, or Raised when a row raises. */
  function RecordsOf(rows: seq<Row>, names: seq<string>, catalog: Catalog): Outcome<seq<Record>> {
    if AnyRaises(rows, |names|) then Raised else Returned(SampleRecords(rows, names, catalog))
  }

  /** What process_joint_vcf gives for a file. */
  function JointRecords(lines: seq<string>, catalog: Catalog): Outcome<seq<Record>> {
    var header := HeaderOf(lines);
    if header == [] then Returned([])
    else RecordsOf(ParseRows(lines), SampleNames(header), catalog)
  }

  lemma PrefixRaises(rows: seq<Row>, i: nat, names: seq<string>)
    requires i < |rows|
    ensures AnyRaises(rows[..i + 1], |names|) <==> AnyRaises(rows[..i], |names|) || RowRaises(rows[i], |names|)
  {
    var extended := rows[..i + 1];
    assert extended[i] == rows[i];
    assert forall k :: 0 <= k < i ==> extended[k] == rows[..i][k];
  }

  lemma PrefixCollected(rows: seq<Row>, i: nat, names: seq<string>, name: string)
    requires i < |rows|
    ensures Collected(rows[..i + 1], names, name) == Collected(rows[..i], names, name) + RowAdds(rows[i], names, name)
  {
    var extended := rows[..i + 1];
    assert extended[..i] == rows[..i] && extended[i] == rows[i];
  }

  /** The table after the given rows: every sample's gathered positions. */
  function Gathered(rows: seq<Row>, names: seq<string>): map<string, set<int>> {
    map n | n in Members(names) :: Collected(rows, names, n)
  }

  lemma GatheredStep(rows: seq<Row>, i: nat, names: seq<string>)
    requires i < |rows|
    ensures Gathered(rows[..i + 1], names) == AddRow(Gathered(rows[..i], names), rows[i], names)
  {
    forall n | n in Members(names)
      ensures Collected(rows[..i + 1], names, n) == Collected(rows[..i], names, n) + RowAdds(rows[i], names, n)
    {
      PrefixCollected(rows, i, names, n);
    }
  }

  lemma NoDataNoChange(m: map<string, set<int>>, row: Row, names: seq<string>)
    requires !row.Data?
    ensures AddRow(m, row, names) == m
  {
    var a := AddRow(m, row, names);
    assert a.Keys == m.Keys;
    forall n | n in m ensures a[n] == m[n] { }
  }

  /**
   * The second pass: every row adds its position to the samples it calls a
   * variant for; a row missing a column it reads stops the pass.
   */
  method GatherSnps(lines: seq<string>, names: seq<string>, table: SampleSnps) returns (raised: bool)
    requires table.Valid() && table.snps == Gathered([], names)
    modifies table
    ensures table.Valid() && table.order == old(table.order)
    ensures raised == AnyRaises(ParseRows(lines), |names|)
    ensures !raised ==> table.snps == Gathered(ParseRows(lines), names)
  {
    ghost var rows := ParseRows(lines);
    assert rows[..0] == [];
    for i := 0 to |lines|
      invariant table.Valid() && table.order == old(table.order)
      invariant !AnyRaises(rows[..i], |names|)
      invariant table.snps == Gathered(rows[..i], names)
    {
      PrefixRaises(rows, i, names);
      GatheredStep(rows, i, names);
      var row := ParseRow(lines[i]);
      if row.Short? {
        assert RowRaises(rows[i], |names|);
        return true;
      }
      if row.Data? {
        var rowRaised := RecordRow(table, row, names);
        if rowRaised {
          assert RowRaises(rows[i], |names|);
          return true;
        }
      } else {
        NoDataNoChange(table.snps, row, names);
      }
    }
    assert rows[..|lines|] == rows;
    return false;
  }

  /**
   * process_joint_vcf: find the header, gather every sample's positions in a
   * second pass over the rows, then score and label each sample.
   */
  method ProcessJointVcf(lines: seq<string>, catalog: Catalog) returns (result: Outcome<seq<Record>>)
    ensures result == JointRecords(lines, catalog)
  {
    var header := FindHeader(lines);
    if header == [] {
      return Returned([]);
    }
    var names := SampleNames(header);
    var table := new SampleSnps(names);
    assert table.snps == Gathered([], names);
    var raised := GatherSnps(lines, names, table);
    if raised {
      return Raised;
    }
    ghost var rows := ParseRows(lines);
    var samples, snps := table.order, table.snps;
    assert forall n :: n in samples ==> n in Members(names);
    var records := ScoreSamples(samples, snps, catalog);
    TableRecords(rows, names, snps, records, catalog);
    return Returned(records);
  }

  /** The records built from the gathered table are the records of the file. */
  lemma TableRecords(rows: seq<Row>, names: seq<string>, snps: map<string, set<int>>, records: seq<Record>,
                     catalog: Catalog)
    requires !AnyRaises(rows, |names|) && snps == Gathered(rows, names)
    requires forall n :: n in Dedup(names) ==> n in snps
    requires records == LabelledRecords(Dedup(names), snps, catalog)
    ensures RecordsOf(rows, names, catalog) == Returned(records)
  {
    GatheredRecords(rows, names, snps, catalog);
  }

  /** Labelling the gathered positions of every distinct sample gives the sample records. */
  lemma GatheredRecords(rows: seq<Row>, names: seq<string>, snps: map<string, set<int>>, catalog: Catalog)
    requires snps == Gathered(rows, names)
    requires forall n :: n in Dedup(names) ==> n in snps
    ensures LabelledRecords(Dedup(names), snps, catalog) == SampleRecords(rows, names, catalog)
  {
    var samples := Dedup(names);
    forall k | 0 <= k < |samples|
      ensures LabelledRecords(samples, snps, catalog)[k] == SampleRecord(rows, names, samples[k], catalog)
    {
      assert samples[k] in Members(names);
    }
  }

  /** The body of the results loop: score every lineage, then label the sample. */
  method ClassifySample(sample: string, positions: set<int>, catalog: Catalog) returns (record: Record)
    ensures record == LabelledRecord(sample, positions, catalog)
  {
    var scores := ScoreCatalog(catalog, positions);
    record := Record(sample, scores, ThresholdLabel(scores));
  }

  /** The records of the results loop for `samples`, in order, each labelled from the sample's table entry. */
  function LabelledRecords(samples: seq<string>, snps: map<string, set<int>>, catalog: Catalog): seq<Record>
    requires forall n :: n in samples ==> n in snps
  {
    seq(|samples|, k requires 0 <= k < |samples| => LabelledRecord(samples[k], snps[samples[k]], catalog))
  }

  /** The results loop: one record per sample, in the order of the table's keys. */
  method ScoreSamples(samples: seq<string>, snps: map<string, set<int>>, catalog: Catalog) returns (records: seq<Record>)
    requires forall n :: n in samples ==> n in snps
    ensures records == LabelledRecords(samples, snps, catalog)
  {
    ghost var all := LabelledRecords(samples, snps, catalog);
    records := [];
    for k := 0 to |samples|
      invariant records == all[..k]
    {
      var record := ClassifySample(samples[k], snps[samples[k]], catalog);
      assert all[..k + 1] == all[..k] + [all[k]];
      records := records + [record];
    }
    assert all[..|samples|] == all;
  }

  /**
   * A returned file has one record per distinct sample name, in order of first
   * appearance in the header, each holding every catalog lineage with its
   * score and the threshold label of those scores.
   */
  lemma JointRecordsShape(lines: seq<string>, catalog: Catalog)
    requires JointRecords(lines, catalog).Returned?
    ensures var rs := JointRecords(lines, catalog).value;
            var names := SampleNames(HeaderOf(lines));
            && |rs| == |Dedup(names)|
            && (forall k :: 0 <= k < |rs| ==> rs[k].sample == Dedup(names)[k] && rs[k].sample in names)
            && (forall k :: 0 <= k < |rs| ==>
                  |rs[k].scores| == |catalog| && rs[k].predicted == ThresholdLabel(rs[k].scores)
                  && forall i :: 0 <= i < |catalog| ==> rs[k].scores[i].0 == catalog[i].0)
            && (forall a, b :: 0 <= a < b < |rs| ==> rs[a].sample != rs[b].sample)
  {
    var names := SampleNames(HeaderOf(lines));
    forall k | 0 <= k < |Dedup(names)| ensures Dedup(names)[k] in names {
      assert Dedup(names)[k] in Dedup(names);
    }
  }

  /** Without a "#CHROM" line a file gives no records, whatever its rows hold. */
  lemma NoHeaderNoRecords(lines: seq<string>, catalog: Catalog)
    requires forall i :: 0 <= i < |lines| ==> !StartsWith(lines[i], "#CHROM")
    ensures JointRecords(lines, catalog) == Returned([])
  {
    HeaderOfMeaning(lines);
  }

  /**
   * Below a header, a data row that lacks a column the second pass reads makes
   * the whole file raise: column 2 or, when its position is an integer, the
   * FORMAT column or a sample column.
   */
  lemma ShortRowRaises(lines: seq<string>, i: nat, catalog: Catalog)
    requires HeaderOf(lines) != [] && i < |lines|
    requires !StartsWith(lines[i], "#")
    requires || |Fields(lines[i])| < 2
             || (ParseInt(Fields(lines[i])[1]).Some? && |Fields(lines[i])| < 9 + |SampleNames(HeaderOf(lines))|)
    ensures JointRecords(lines, catalog) == Raised
  {
    assert RowRaises(ParseRows(lines)[i], |SampleNames(HeaderOf(lines))|);
  }

  /**
   * A row whose position is not an integer is skipped: the file gives the same
   * outcome with that row removed, so the rows after it are still processed.
   */
  lemma BadPositionRowSkipped(a: seq<string>, line: string, b: seq<string>, catalog: Catalog)
    requires ParseRow(line).BadPosition?
    ensures JointRecords(a + [line] + b, catalog) == JointRecords(a + b, catalog)
  {
    HeaderSkipsDataRow(a, line, b);
    ParseRowsAppend(a + [line], b);
    ParseRowsAppend(a, [line]);
    ParseRowsAppend(a, b);
    assert ParseRows([line]) == [BadPosition];
    BadRowIgnored(ParseRows(a), ParseRows(b), SampleNames(HeaderOf(a + b)), catalog);
  }

  lemma ParseRowsAppend(a: seq<string>, b: seq<string>)
    ensures ParseRows(a + b) == ParseRows(a) + ParseRows(b)
  {
    MapAppend(ParseRow, a, b);
  }

  /** A line that does not start with '#' is never the header. */
  lemma HeaderSkipsDataRow(a: seq<string>, line: string, b: seq<string>)
    requires !StartsWith(line, "#")
    ensures HeaderOf(a + [line] + b) == HeaderOf(a + b)
  {
    assert !StartsWith(line, "#CHROM");
    HeaderOfAppend(a + [line], b);
    HeaderOfAppend(a, [line]);
    HeaderOfAppend(a, b);
    assert HeaderOf([line]) == [] by {
      assert [line][1..] == [];
    }
  }

  lemma BadRowIgnored(a: seq<Row>, b: seq<Row>, names: seq<string>, catalog: Catalog)
    ensures RecordsOf(a + [BadPosition] + b, names, catalog) == RecordsOf(a + b, names, catalog)
  {
    var whole, rest := a + [BadPosition] + b, a + b;
    assert AnyRaises(whole, |names|) == AnyRaises(rest, |names|) by {
      forall i | 0 <= i < |whole| && i != |a| ensures whole[i] == rest[if i < |a| then i else i - 1] { }
      forall i | 0 <= i < |rest| ensures rest[i] == whole[if i < |a| then i else i + 1] { }
    }
    if !AnyRaises(rest, |names|) {
      var samples := Dedup(names);
      var r1, r2 := SampleRecords(whole, names, catalog), SampleRecords(rest, names, catalog);
      forall k | 0 <= k < |samples| ensures r1[k] == r2[k] {
        CollectedSkipsBadRow(a, b, names, samples[k]);
      }
      assert r1 == r2;
    }
  }

  lemma CollectedSkipsBadRow(a: seq<Row>, b: seq<Row>, names: seq<string>, name: string)
    ensures Collected(a + [BadPosition] + b, names, name) == Collected(a + b, names, name)
  {
    CollectedAppend(a + [BadPosition], b, names, name);
    CollectedAppend(a, [BadPosition], names, name);
    CollectedAppend(a, b, names, name);
    assert [BadPosition][..0] == [];
  }

  // ---------------------------------------------------------------- main

  /** The records a file's outcome contributes to the combined table: none when it raised. */
  function Contribution(outcome: Outcome<seq<Record>>): seq<Record> {
    match outcome
    case Returned(rs) => rs
    case Raised => []
  }

  /** The combined table of a run: the contributions of the outcomes in input order. */
  function Combined(outcomes: seq<Outcome<seq<Record>>>): seq<Record>
    decreases |outcomes|
  {
    if outcomes == [] then []
    else Combined(outcomes[..|outcomes| - 1]) + Contribution(outcomes[|outcomes| - 1])
  }

  /** The outcome of every file of a run. */
  function Outcomes(files: seq<seq<string>>, catalog: Catalog): (outcomes: seq<Outcome<seq<Record>>>)
    ensures |outcomes| == |files| && forall i :: 0 <= i < |files| ==> outcomes[i] == JointRecords(files[i], catalog)
  {
    seq(|files|, i requires 0 <= i < |files| => JointRecords(files[i], catalog))
  }

  /** The loop of main: process every file, keep going past a file that raises. */
  method CombineResults(files: seq<seq<string>>, catalog: Catalog) returns (all: seq<Record>)
    ensures all == Combined(Outcomes(files, catalog))
  {
    ghost var outcomes := Outcomes(files, catalog);
    all := [];
    for i := 0 to |files|
      invariant all == Combined(outcomes[..i])
    {
      assert outcomes[..i + 1][..i] == outcomes[..i] && outcomes[..i + 1][i] == outcomes[i];
      var result := ProcessJointVcf(files[i], catalog);
      if result.Returned? && result.value != [] {
        all := all + result.value;
      }
    }
    assert outcomes[..|files|] == outcomes;
  }

  lemma {:induction false} CombinedAppend(o1: seq<Outcome<seq<Record>>>, o2: seq<Outcome<seq<Record>>>)
    ensures Combined(o1 + o2) == Combined(o1) + Combined(o2)
    decreases |o2|
  {
    if o2 == [] {
      assert o1 + o2 == o1;
    } else {
      var o2' := o2[..|o2| - 1];
      assert (o1 + o2)[..|o1 + o2| - 1] == o1 + o2';
      assert (o1 + o2)[|o1 + o2| - 1] == o2[|o2| - 1];
      CombinedAppend(o1, o2');
    }
  }

  /** A file that raised contributes nothing, and the files after it still contribute theirs. */
  lemma RaisingFileDropped(o1: seq<Outcome<seq<Record>>>, o2: seq<Outcome<seq<Record>>>)
    ensures Combined(o1 + [Raised] + o2) == Combined(o1 + o2)
  {
    var raised: seq<Outcome<seq<Record>>> := [Raised];
    assert Combined(raised) == [] by {
      assert raised[..0] == [];
    }
    CombinedAppend(o1, raised);
    assert Combined(o1 + raised) == Combined(o1);
    CombinedAppend(o1 + raised, o2);
    CombinedAppend(o1, o2);
  }
}
