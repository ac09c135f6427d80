/**
 * Turning a score table into a predicted-lineage label, under the two policies
 * of the scripts: best match (the first lineage with the greatest score) and
 * threshold (every lineage with a positive score, several of them making a
 * mixed isolate).
 */
module Classify {
  import opened Text
  import opened Ordering
  import opened Scoring

  /** The label of the threshold policy when no lineage matches. */
  const UnknownLineage := "unknown_lineage"

  /** The prefix of the threshold policy's label when several lineages match. */
  const MixedPrefix := "mixed isolate: "

  /**
   * k is the entry Python's max(scores, key=...) returns: its score is at least
   * every other, and every entry before it scores strictly less.
   */
  ghost predicate IsFirstBest(t: ScoreTable, k: nat) {
    && k < |t|
    && (forall j :: 0 <= j < |t| ==> AtMost(t[j].1, t[k].1))
    && (forall j :: 0 <= j < k ==> Below(t[j].1, t[k].1))
  }

  /** When entry i beats the running maximum, it becomes the first greatest of the entries up to i. */
  lemma RaiseBest(t: ScoreTable, i: nat, best: nat)
    requires best < i < |t|
    requires forall j :: 0 <= j < i ==> AtMost(t[j].1, t[best].1)
    requires Below(t[best].1, t[i].1)
    ensures forall j :: 0 <= j < i + 1 ==> AtMost(t[j].1, t[i].1)
    ensures forall j :: 0 <= j < i ==> Below(t[j].1, t[i].1)
  {
    forall j | 0 <= j < i
      ensures Below(t[j].1, t[i].1)
    {
      AtMostBelowTransitive(t[j].1, t[best].1, t[i].1);
    }
  }

  /**
   * Python's max over the entries from i on, `best` holding the running
   * maximum: an entry replaces it only when its score is strictly greater.
   */
  function BestFrom(t: ScoreTable, i: nat, best: nat): (k: nat)
    requires best < i <= |t|
    requires forall j :: 0 <= j < i ==> AtMost(t[j].1, t[best].1)
    requires forall j :: 0 <= j < best ==> Below(t[j].1, t[best].1)
    ensures IsFirstBest(t, k)
    decreases |t| - i
  {
    if i == |t| then best
    else if Below(t[best].1, t[i].1) then
      RaiseBest(t, i, best);
      BestFrom(t, i + 1, i)
    else
      BestFrom(t, i + 1, best)
  }

  /** The index `max(lineage_probabilities, key=...)` picks: ties go to the earliest lineage. */
  function BestIndex(t: ScoreTable): (k: nat)
    requires |t| > 0
    ensures IsFirstBest(t, k)
  {
    BestFrom(t, 1, 0)
  }

  /** Only one entry satisfies the description of the first greatest score. */
  lemma FirstBestUnique(t: ScoreTable, k1: nat, k2: nat)
    requires IsFirstBest(t, k1) && IsFirstBest(t, k2)
    ensures k1 == k2
  {
    assert AtMost(t[k2].1, t[k1].1) && AtMost(t[k1].1, t[k2].1);
    assert !Below(t[k1].1, t[k2].1) && !Below(t[k2].1, t[k1].1);
  }

  lemma PositiveAtMost(a: Score, b: Score)
    requires AtMost(a, b) && a.num > 0
    ensures b.num > 0
  {
    assert a.num * b.den > 0;
  }

  /**
   * The best-match policy: `unknown` when the greatest score is 0, otherwise
   * the first lineage in table order that reaches the greatest score.
   */
  function BestMatchLabel(t: ScoreTable, unknown: string): (predicted: string)
    requires |t| > 0
    ensures (forall j :: 0 <= j < |t| ==> t[j].1.num == 0) ==> predicted == unknown
    ensures (exists j :: 0 <= j < |t| && t[j].1.num > 0) ==>
              exists k: nat :: IsFirstBest(t, k) && t[k].1.num > 0 && predicted == t[k].0
  {
    var k := BestIndex(t);
    if t[k].1.num == 0 then
      assert forall j :: 0 <= j < |t| ==> t[j].1.num == 0 by {
        forall j | 0 <= j < |t| ensures t[j].1.num == 0 {
          if t[j].1.num > 0 { PositiveAtMost(t[j].1, t[k].1); }
        }
      }
      unknown
    else
      t[k].0
  }

  /**
   * The best-match policy in terms of percentages: all 0% gives `unknown`;
   * otherwise the prediction is the first lineage reaching the greatest
   * percentage, which is above 0%.
   */
  lemma BestMatchByPercent(t: ScoreTable, unknown: string)
    requires |t| > 0
    requires forall j :: 0 <= j < |t| ==> t[j].1.num <= t[j].1.den
    ensures (forall j :: 0 <= j < |t| ==> Percent(t[j].1) == 0.0) ==> BestMatchLabel(t, unknown) == unknown
    ensures (exists j :: 0 <= j < |t| && Percent(t[j].1) > 0.0) ==>
              exists k: nat :: && k < |t|
                               && (forall j :: 0 <= j < |t| ==> Percent(t[j].1) <= Percent(t[k].1))
                               && (forall j :: 0 <= j < k ==> Percent(t[j].1) < Percent(t[k].1))
                               && Percent(t[k].1) > 0.0
                               && BestMatchLabel(t, unknown) == t[k].0
  {
    forall j | 0 <= j < |t| ensures Percent(t[j].1) == 0.0 <==> t[j].1.num == 0 {
      PercentBounds(t[j].1);
    }
    var k := BestIndex(t);
    forall j | 0 <= j < |t|
      ensures Percent(t[j].1) <= Percent(t[k].1)
      ensures j < k ==> Percent(t[j].1) < Percent(t[k].1)
    {
      AtMostIsPercentOrder(t[j].1, t[k].1);
    }
    PercentBounds(t[k].1);
  }

  /**
   * The names of the lineages with a positive score, in table order (the
   * list comprehension with the zero threshold).
   */
  function Positives(t: ScoreTable): (names: seq<string>)
    ensures |names| <= |t|
    decreases |t|
  {
    if t == [] then []
    else (if t[0].1.num > 0 then [t[0].0] else []) + Positives(t[1..])
  }

  /** The positive names are those of the entries scoring above 0; there are none exactly when all score 0. */
  lemma {:induction false} PositivesMeaning(t: ScoreTable)
    ensures Positives(t) == [] <==> forall j :: 0 <= j < |t| ==> t[j].1.num == 0
    ensures forall n :: n in Positives(t) <==> exists j :: 0 <= j < |t| && t[j].0 == n && t[j].1.num > 0
    decreases |t|
  {
    if t != [] {
      PositivesMeaning(t[1..]);
      TailEntries(t);
      forall n | n in Positives(t) ensures exists j :: 0 <= j < |t| && t[j].0 == n && t[j].1.num > 0 {
        if !(t[0].1.num > 0 && n == t[0].0) {
          var j :| 0 <= j < |t| - 1 && t[1..][j].0 == n && t[1..][j].1.num > 0;
          assert t[j + 1] == t[1..][j];
        }
      }
    }
  }

  lemma TailEntries<T>(t: seq<T>)
    requires t != []
    ensures forall j :: 1 <= j < |t| ==> t[1..][j - 1] == t[j]
  {
  }

  /** With distinct lineage names, no positive lineage is listed twice. */
  lemma {:induction false} PositivesDistinct(t: ScoreTable)
    requires DistinctNames(t)
    ensures Distinct(Positives(t))
    decreases |t|
  {
    if t != [] {
      assert DistinctNames(t[1..]) by {
        forall i, j | 0 <= i < j < |t| - 1 ensures t[1..][i].0 != t[1..][j].0 {
          assert t[1..][i] == t[i + 1] && t[1..][j] == t[j + 1];
        }
      }
      PositivesDistinct(t[1..]);
      PositivesMeaning(t[1..]);
      if t[0].1.num > 0 {
        assert t[0].0 !in Positives(t[1..]);
      }
    }
  }

  /**
   * The threshold policy: "unknown_lineage" when no lineage scores above 0,
   * the lineage itself when exactly one does, and otherwise "mixed isolate: "
   * followed by the matching names sorted and joined with ", ".
   */
  function ThresholdLabel(t: ScoreTable): string {
    var matching := Positives(t);
    if |matching| == 0 then UnknownLineage
    else if |matching| == 1 then matching[0]
    else MixedPrefix + Join(SortStrings(matching), ", ")
  }

  /**
   * All scores 0 give "unknown_lineage", one positive lineage gives its name,
   * and several give "mixed isolate: " and their names in sorted order.
   */
  lemma ThresholdLabelMeaning(t: ScoreTable)
    ensures (forall j :: 0 <= j < |t| ==> t[j].1.num == 0) ==> ThresholdLabel(t) == UnknownLineage
    ensures |Positives(t)| == 1 ==> ThresholdLabel(t) == Positives(t)[0]
    ensures |Positives(t)| >= 2 ==>
              exists names :: Sorted(names) && multiset(names) == multiset(Positives(t))
                              && ThresholdLabel(t) == MixedPrefix + Join(names, ", ")
  {
    PositivesMeaning(t);
    var matching := Positives(t);
    if |matching| >= 2 {
      var names := SortStrings(matching);
      assert Sorted(names) && multiset(names) == multiset(matching);
    }
  }

  /** Entry k is the only one with a positive score. */
  ghost predicate OnlyPositive(t: ScoreTable, k: nat) {
    && k < |t|
    && t[k].1.num > 0
    && (forall j :: 0 <= j < |t| && j != k ==> t[j].1.num == 0)
  }

  /** One lineage scores above 0 and another does too: the threshold policy reports a mixed isolate. */
  lemma {:induction false} TwoPositivesMixed(t: ScoreTable, i: nat, j: nat)
    requires i < j < |t| && t[i].1.num > 0 && t[j].1.num > 0
    ensures |Positives(t)| >= 2
    ensures StartsWith(ThresholdLabel(t), MixedPrefix)
    decreases |t|
  {
    if i == 0 {
      assert t[1..][j - 1] == t[j];
      PositivesMeaning(t[1..]);
      assert t[j].0 in Positives(t[1..]);
    } else {
      assert t[1..][i - 1] == t[i] && t[1..][j - 1] == t[j];
      TwoPositivesMixed(t[1..], i - 1, j - 1);
    }
    var p := Positives(t);
    var names := SortStrings(p);
    assert (MixedPrefix + Join(names, ", "))[..|MixedPrefix|] == MixedPrefix;
  }

  /** With exactly one positive score, both policies predict that lineage. */
  lemma {:induction false} PoliciesAgreeOnSingleMatch(t: ScoreTable, k: nat, unknown: string)
    requires OnlyPositive(t, k)
    ensures Positives(t) == [t[k].0]
    ensures ThresholdLabel(t) == t[k].0
    ensures BestMatchLabel(t, unknown) == t[k].0
  {
    var p := Positives(t);
    PositivesMeaning(t);
    assert t[k].0 in p;
    assert forall n :: n in p ==> n == t[k].0;
    SinglePositiveCount(t, k);
    assert p == [p[0]];
    var b := BestIndex(t);
    PositiveAtMost(t[k].1, t[b].1);
  }

  lemma {:induction false} SinglePositiveCount(t: ScoreTable, k: nat)
    requires OnlyPositive(t, k)
    ensures |Positives(t)| == 1
    decreases |t|
  {
    if k == 0 {
      forall j | 0 <= j < |t| - 1 ensures t[1..][j].1.num == 0 {
        assert t[1..][j] == t[j + 1];
      }
      PositivesMeaning(t[1..]);
    } else {
      assert t[1..][k - 1] == t[k];
      assert OnlyPositive(t[1..], k - 1) by {
        forall j | 0 <= j < |t| - 1 && j != k - 1 ensures t[1..][j].1.num == 0 {
          assert t[1..][j] == t[j + 1];
        }
      }
      SinglePositiveCount(t[1..], k - 1);
    }
  }

  /** Without any positive score, both policies report an unknown lineage. */
  lemma NoMatchIsUnknown(t: ScoreTable, unknown: string)
    requires |t| > 0
    requires forall j :: 0 <= j < |t| ==> t[j].1.num == 0
    ensures Positives(t) == []
    ensures ThresholdLabel(t) == UnknownLineage
    ensures BestMatchLabel(t, unknown) == unknown
  {
  }

  /**
   * The threshold label does not depend on the order of the table: two tables
   * with the same entries and distinct names get the same label.
   */
  lemma ThresholdLabelOrderIndependent(t1: ScoreTable, t2: ScoreTable)
    requires DistinctNames(t1) && DistinctNames(t2)
    requires forall e :: e in t1 <==> e in t2
    ensures ThresholdLabel(t1) == ThresholdLabel(t2)
  {
    var p1, p2 := Positives(t1), Positives(t2);
    PositivesDistinct(t1);
    PositivesDistinct(t2);
    PositivesMeaning(t1);
    PositivesMeaning(t2);
    forall n ensures n in p1 <==> n in p2 {
      if n in p1 {
        var j :| 0 <= j < |t1| && t1[j].0 == n && t1[j].1.num > 0;
        assert t1[j] in t2;
      }
      if n in p2 {
        var j :| 0 <= j < |t2| && t2[j].0 == n && t2[j].1.num > 0;
        assert t2[j] in t1;
      }
    }
    SamePositivesSameLabel(t1, t2);
  }

  /** The threshold label depends only on the set of positive names, when they are distinct. */
  lemma SamePositivesSameLabel(t1: ScoreTable, t2: ScoreTable)
    requires Distinct(Positives(t1)) && Distinct(Positives(t2))
    requires forall n :: n in Positives(t1) <==> n in Positives(t2)
    ensures ThresholdLabel(t1) == ThresholdLabel(t2)
  {
    var p1, p2 := Positives(t1), Positives(t2);
    DistinctSameElements(p1, p2);
    assert |p1| == |multiset(p1)| == |multiset(p2)| == |p2|;
    if |p1| == 1 {
      assert p1[0] in p2;
    } else if |p1| >= 2 {
      SortedUnique(SortStrings(p1), SortStrings(p2));
    }
  }

  /** The score tables of two orderings of one catalog hold the same entries. */
  lemma ScoresSameEntries(c1: Catalog, c2: Catalog, sample: set<int>)
    requires forall e :: e in c1 <==> e in c2
    ensures forall e :: e in Scores(c1, sample) <==> e in Scores(c2, sample)
  {
    var t1, t2 := Scores(c1, sample), Scores(c2, sample);
    forall e ensures e in t1 ==> e in t2 {
      if e in t1 {
        var i :| 0 <= i < |t1| && t1[i] == e;
        assert c1[i] in c1;
        var j :| 0 <= j < |c2| && c2[j] == c1[i];
        assert t2[j] == e;
      }
    }
    forall e ensures e in t2 ==> e in t1 {
      if e in t2 {
        var i :| 0 <= i < |t2| && t2[i] == e;
        assert c2[i] in c2;
        var j :| 0 <= j < |c1| && c1[j] == c2[i];
        assert t1[j] == e;
      }
    }
  }

  /**
   * Reordering the catalog does not change a threshold prediction (it can
   * change a best-match prediction, whose ties go to the earlier lineage).
   */
  lemma ThresholdIgnoresCatalogOrder(c1: Catalog, c2: Catalog, sample: set<int>)
    requires DistinctNames(c1) && DistinctNames(c2)
    requires multiset(c1) == multiset(c2)
    ensures ThresholdLabel(Scores(c1, sample)) == ThresholdLabel(Scores(c2, sample))
  {
    forall e ensures e in c1 <==> e in c2 {
      assert e in c1 <==> e in multiset(c1);
      assert e in c2 <==> e in multiset(c2);
    }
    ScoresSameEntries(c1, c2, sample);
    ThresholdLabelOrderIndependent(Scores(c1, sample), Scores(c2, sample));
  }

  /**
   * A lineage whose marker set equals that of an earlier lineage is never
   * predicted by the best-match policy (l2_2_2 behind l2_2_1).
   */
  lemma ShadowedLineageNeverPredicted(catalog: Catalog, sample: set<int>, i: nat, j: nat, unknown: string)
    requires i < j < |catalog|
    requires catalog[i].1 == catalog[j].1
    requires DistinctNames(catalog)
    requires unknown != catalog[j].0
    ensures BestMatchLabel(Scores(catalog, sample), unknown) != catalog[j].0
  {
    var t := Scores(catalog, sample);
    var k := BestIndex(t);
    assert t[i].1 == t[j].1;
    assert k != j;
    assert t[k].0 == catalog[k].0;
  }

  /**
   * A sample whose positions are exactly the markers of lineage k, and meet no
   * other lineage's markers, scores 100% on k and 0% elsewhere, and both
   * policies predict k.
   */
  lemma ExactMatchPredicted(catalog: Catalog, sample: set<int>, k: nat, unknown: string)
    requires k < |catalog| && catalog[k].1 == sample && sample != {}
    requires forall j :: 0 <= j < |catalog| && j != k ==> catalog[j].1 * sample == {}
    ensures Percent(Scores(catalog, sample)[k].1) == 100.0
    ensures forall j :: 0 <= j < |catalog| && j != k ==> Percent(Scores(catalog, sample)[j].1) == 0.0
    ensures BestMatchLabel(Scores(catalog, sample), unknown) == catalog[k].0
    ensures ThresholdLabel(Scores(catalog, sample)) == catalog[k].0
  {
    var t := Scores(catalog, sample);
    forall j | 0 <= j < |catalog| ensures Percent(t[j].1) == if j == k then 100.0 else 0.0 {
      PercentBounds(t[j].1);
    }
    assert OnlyPositive(t, k);
    PoliciesAgreeOnSingleMatch(t, k, unknown);
  }
}
