/**
 * Position extraction for single-sample VCF files, identical in
 * lineage_predictorV5.py and lineage_predictor_v1.py: the second column of
 * every data line, converted as a whole to a set of integers.
 */
module SingleSample {
  import opened Wrappers
  import opened Text

  /** A line the extraction takes a position from: not a '#' line, and at least two columns. */
  predicate HasPosition(line: string) {
    !StartsWith(line, "#") && |Fields(line)| > 1
  }

  /** The position a line contributes: its second column, when it has one. */
  function LinePosition(line: string): (r: Option<string>)
    ensures r.Some? <==> HasPosition(line)
    ensures r.Some? ==> |Fields(line)| > 1 && r.value == Fields(line)[1]
  {
    if HasPosition(line) then Some(Fields(line)[1]) else None
  }

  function LinePositions(lines: seq<string>): seq<Option<string>> {
    Map(LinePosition, lines)
  }

  /**
   * The position of a line is its second tab-separated column: the stripped
   * line is a first column without tabs, a tab, the position, and then either
   * nothing or the remaining columns after another tab.
   */
  lemma LinePositionIsSecondColumn(line: string)
    requires HasPosition(line)
    ensures exists first, rest :: IsSecondField(Strip(line), '\t', first, LinePosition(line).value, rest)
  {
    SecondPart(Strip(line), '\t');
    var first, rest :| IsSecondField(Strip(line), '\t', first, Fields(line)[1], rest);
    assert IsSecondField(Strip(line), '\t', first, LinePosition(line).value, rest);
  }

  /** The second column of every line with a position, in file order. */
  function PositionColumn(lines: seq<string>): seq<string> {
    Values(LinePositions(lines))
  }

  /**
   * The extraction loop: collect the position column of the file, and report
   * None when the file has no line with a position.
   */
  method ExtractPositions(lines: seq<string>) returns (positions: Option<seq<string>>)
    ensures positions == if PositionColumn(lines) == [] then None else Some(PositionColumn(lines))
  {
    ghost var entries := LinePositions(lines);
    var found: seq<string> := [];
    for i := 0 to |lines|
      invariant found == Values(entries[..i])
    {
      ValuesStep(entries, i);
      var entry := LinePosition(lines[i]);
      if entry.Some? {
        found := found + [entry.value];
      }
    }
    assert entries[..|lines|] == entries;
    if found == [] {
      return None;
    }
    return Some(found);
  }

  /** Extraction distributes over the lines of a file: file order is kept. */
  lemma PositionColumnAppend(a: seq<string>, b: seq<string>)
    ensures PositionColumn(a + b) == PositionColumn(a) + PositionColumn(b)
  {
    MapAppend(LinePosition, a, b);
    ValuesAppend(LinePositions(a), LinePositions(b));
  }

  /** Exactly the second columns of the lines with a position are extracted. */
  lemma PositionColumnMembers(lines: seq<string>, x: string)
    ensures x in PositionColumn(lines) <==>
              exists i :: 0 <= i < |lines| && HasPosition(lines[i]) && Fields(lines[i])[1] == x
  {
    ValuesMembers(LinePositions(lines), x);
  }

  /** Nothing is extracted exactly when no line has a position. */
  lemma PositionColumnEmpty(lines: seq<string>)
    ensures PositionColumn(lines) == [] <==> forall i :: 0 <= i < |lines| ==> !HasPosition(lines[i])
  {
    ValuesEmpty(LinePositions(lines));
  }

  /**
   * `set(map(int, positions))`: None when some position is not an integer
   * (the ValueError), otherwise the set of their values.
   */
  function ToPositionSet(strs: seq<string>): (r: Option<set<int>>)
    ensures r.Some? <==> forall i :: 0 <= i < |strs| ==> ParseInt(strs[i]).Some?
    ensures r.Some? ==> forall p :: p in r.value <==> exists i :: 0 <= i < |strs| && ParseInt(strs[i]) == Some(p)
    decreases |strs|
  {
    if strs == [] then Some({})
    else
      var prefix := strs[..|strs| - 1];
      assert forall i :: 0 <= i < |prefix| ==> prefix[i] == strs[i];
      match ParseInt(strs[|strs| - 1])
      case None => None
      case Some(p) =>
        match ToPositionSet(prefix)
        case None => None
        case Some(s) => Some(s + {p})
  }

  /** The positions of a single-sample file, or None when process_vcf gives up on it. */
  function SamplePositions(lines: seq<string>): Option<set<int>> {
    var column := PositionColumn(lines);
    if column == [] then None else ToPositionSet(column)
  }

  /**
   * A file yields positions exactly when it has a line with a position and
   * every extracted position is an integer; the positions are then the values
   * of those columns, duplicates collapsing.
   */
  lemma SamplePositionsMeaning(lines: seq<string>, p: int)
    ensures SamplePositions(lines).Some? <==>
              && (exists i :: 0 <= i < |lines| && HasPosition(lines[i]))
              && (forall i :: 0 <= i < |lines| && HasPosition(lines[i]) ==> ParseInt(Fields(lines[i])[1]).Some?)
    ensures SamplePositions(lines).Some? ==>
              (p in SamplePositions(lines).value <==>
                 exists i :: 0 <= i < |lines| && HasPosition(lines[i]) && ParseInt(Fields(lines[i])[1]) == Some(p))
  {
    var column := PositionColumn(lines);
    PositionColumnEmpty(lines);
    forall x ensures x in column <==> exists i :: 0 <= i < |lines| && HasPosition(lines[i]) && Fields(lines[i])[1] == x {
      PositionColumnMembers(lines, x);
    }
    if column != [] {
      assert (forall k :: 0 <= k < |column| ==> ParseInt(column[k]).Some?) <==>
             (forall i :: 0 <= i < |lines| && HasPosition(lines[i]) ==> ParseInt(Fields(lines[i])[1]).Some?) by {
        forall i | 0 <= i < |lines| && HasPosition(lines[i])
          ensures Fields(lines[i])[1] in column
        {
        }
        forall k | 0 <= k < |column|
          ensures exists i :: 0 <= i < |lines| && HasPosition(lines[i]) && Fields(lines[i])[1] == column[k]
        {
          assert column[k] in column;
        }
      }
      if SamplePositions(lines).Some? {
        if p in SamplePositions(lines).value {
          var k :| 0 <= k < |column| && ParseInt(column[k]) == Some(p);
          assert column[k] in column;
        }
        if exists i :: 0 <= i < |lines| && HasPosition(lines[i]) && ParseInt(Fields(lines[i])[1]) == Some(p) {
          var i :| 0 <= i < |lines| && HasPosition(lines[i]) && ParseInt(Fields(lines[i])[1]) == Some(p);
          assert Fields(lines[i])[1] in column;
          var k :| 0 <= k < |column| && column[k] == Fields(lines[i])[1];
        }
      }
    }
  }
}
