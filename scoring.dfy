/**
 * Scoring a sample's variant positions against the lineage catalog:
 * the score of a lineage is the share of its marker positions the sample carries.
 */
module Scoring {

  /** `num` of the `den` marker positions of a lineage were found in the sample. */
  datatype Fraction = Fraction(num: nat, den: nat)

  /** A score is a fraction with a positive denominator. */
  type Score = f: Fraction | 0 < f.den witness Fraction(0, 1)

  /** The lineage catalog, in dict insertion order: lineage name and marker positions. */
  type Catalog = seq<(string, set<int>)>

  /** Lineage name and score, in catalog order. */
  type ScoreTable = seq<(string, Score)>

  /** One output row: the sample, the score of every catalog lineage, the predicted label. */
  datatype Record = Record(sample: string, scores: ScoreTable, predicted: string)

  /** The percentage the scripts compute with floating point, here exact. */
  function Percent(s: Score): real {
    100.0 * (s.num as real) / (s.den as real)
  }

  lemma CardinalityOfProperSubset(a: set<int>, b: set<int>)
    requires a <= b && a != b
    ensures |a| < |b|
  {
    assert exists y :: y in b && y !in a by {
      if forall y :: y in b ==> y in a {
        assert false;
      }
    }
    var x :| x in b && x !in a;
    assert a <= b - {x};
    assert |b - {x}| == |b| - 1;
    assert |a| + |(b - {x}) - a| == |b - {x}| by {
      assert b - {x} == a + ((b - {x}) - a);
    }
  }

  /** At most all markers match, and all of them do exactly when the sample covers the marker set. */
  lemma MatchedWithinMarkers(markers: set<int>, sample: set<int>)
    ensures |markers * sample| <= |markers|
    ensures |markers * sample| == |markers| <==> markers <= sample
  {
    if markers * sample != markers {
      CardinalityOfProperSubset(markers * sample, markers);
    }
  }

  /**
   * The score of a lineage with marker set `markers` for a sample carrying the
   * positions `sample`: |markers * sample| out of |markers|, and 0 when the
   * marker set is empty.
   */
  function ScoreOf(markers: set<int>, sample: set<int>): (s: Score)
    ensures s.num <= s.den
    ensures markers == {} ==> s.num == 0
    ensures s.num > 0 <==> markers * sample != {}
    ensures markers != {} ==> (s.num == s.den <==> markers <= sample)
  {
    if |markers| == 0 then Fraction(0, 1)
    else
      MatchedWithinMarkers(markers, sample);
      Fraction(|markers * sample|, |markers|)
  }

  /** For a non-empty marker set the percentage is 100 * |M ∩ S| / |M|, the formula of the scripts. */
  lemma ScoreIsMatchPercentage(markers: set<int>, sample: set<int>)
    requires markers != {}
    ensures Percent(ScoreOf(markers, sample)) == 100.0 * (|markers * sample| as real) / (|markers| as real)
  {
  }

  /** Every percentage lies between 0 and 100; it is 0 exactly without a match and 100 exactly on a full match. */
  lemma PercentBounds(s: Score)
    requires s.num <= s.den
    ensures 0.0 <= Percent(s) <= 100.0
    ensures Percent(s) == 0.0 <==> s.num == 0
    ensures Percent(s) == 100.0 <==> s.num == s.den
  {
    var n, d, p := s.num as real, s.den as real, Percent(s);
    var m := 100.0 * n;
    assert p * d == m by {
      assert p == m / d;
      DivTimes(m, d);
    }
    assert 0.0 <= m <= 100.0 * d;
    RealScale(0.0, p, d);
    RealScale(p, 100.0, d);
    assert 0.0 * d == 0.0;
    assert p == 0.0 <==> m == 0.0;
    assert p == 100.0 <==> m == 100.0 * d;
  }

  /** Dividing by d and multiplying back by d gives the value back. */
  lemma DivTimes(x: real, d: real)
    requires d > 0.0
    ensures (x / d) * d == x
  {
  }

  /** Comparing p with q is comparing p * d with q * d, for a positive d. */
  lemma RealScale(p: real, q: real, d: real)
    requires d > 0.0
    ensures p <= q <==> p * d <= q * d
    ensures p < q <==> p * d < q * d
    ensures p == q <==> p * d == q * d
  {
    assert (q - p) * d == q * d - p * d;
  }

  /** a <= b, compared without division: a.num / a.den <= b.num / b.den. */
  predicate AtMost(a: Score, b: Score) {
    a.num * b.den <= b.num * a.den
  }

  /** a < b, compared without division. */
  predicate Below(a: Score, b: Score) {
    a.num * b.den < b.num * a.den
  }

  lemma MulMonotone(x: int, y: int, k: int)
    requires x <= y && 0 <= k
    ensures x * k <= y * k
  {
  }

  lemma MulStrictMonotone(x: int, y: int, k: int)
    requires x < y && 0 < k
    ensures x * k < y * k
  {
  }

  /** The cross-multiplied comparison orders scores as their percentages. */
  lemma AtMostIsPercentOrder(a: Score, b: Score)
    ensures AtMost(a, b) <==> Percent(a) <= Percent(b)
    ensures Below(a, b) <==> Percent(a) < Percent(b)
  {
    var an, ad, bn, bd := a.num as real, a.den as real, b.num as real, b.den as real;
    var pa, pb, k := Percent(a), Percent(b), ad * bd;
    assert pa * ad == 100.0 * an && pb * bd == 100.0 * bn;
    assert 0.0 < k;
    assert pa * k == (pa * ad) * bd && pb * k == (pb * bd) * ad;
    RealScale(pa, pb, k);
    assert (a.num * b.den) as real == an * bd;
    assert (b.num * a.den) as real == bn * ad;
  }

  lemma {:induction false} AtMostTransitive(a: Score, b: Score, c: Score)
    requires AtMost(a, b) && AtMost(b, c)
    ensures AtMost(a, c)
  {
    MulMonotone(a.num * b.den, b.num * a.den, c.den);
    MulMonotone(b.num * c.den, c.num * b.den, a.den);
    assert a.num * b.den * c.den == (a.num * c.den) * b.den;
    assert b.num * a.den * c.den == b.num * c.den * a.den;
    assert c.num * b.den * a.den == (c.num * a.den) * b.den;
    if a.num * c.den > c.num * a.den {
      MulStrictMonotone(c.num * a.den, a.num * c.den, b.den);
    }
  }

  lemma {:induction false} AtMostBelowTransitive(a: Score, b: Score, c: Score)
    requires AtMost(a, b) && Below(b, c)
    ensures Below(a, c)
  {
    MulMonotone(a.num * b.den, b.num * a.den, c.den);
    MulStrictMonotone(b.num * c.den, c.num * b.den, a.den);
    assert a.num * b.den * c.den == (a.num * c.den) * b.den;
    assert b.num * a.den * c.den == b.num * c.den * a.den;
    assert c.num * b.den * a.den == (c.num * a.den) * b.den;
    if a.num * c.den >= c.num * a.den {
      MulMonotone(c.num * a.den, a.num * c.den, b.den);
    }
  }

  /**
   * The scripts compare percentages after printing them with two decimals.
   * Any such rendering that is off by less than 0.01 keeps a strict order
   * between scores whose marker sets have at most 70 positions, because two
   * different percentages of that kind are more than 0.02 apart.
   */
  lemma RoundingKeepsOrder(a: Score, b: Score, ra: real, rb: real)
    requires a.den <= 70 && b.den <= 70
    requires Percent(a) - 0.01 < ra < Percent(a) + 0.01
    requires Percent(b) - 0.01 < rb < Percent(b) + 0.01
    requires Below(a, b)
    ensures ra < rb
  {
    var k := a.den * b.den;
    assert k <= 4900 by {
      MulMonotone(a.den, 70, b.den);
      MulMonotone(b.den, 70, 70);
    }
    var diff := Percent(b) - Percent(a);
    PercentGap(a, b);
    assert diff * (k as real) >= 100.0;
    if diff <= 0.02 {
      RealScale(diff, 0.02, k as real);
      assert diff * (k as real) <= 0.02 * (k as real) <= 98.0;
    }
  }

  /** The difference of two percentages, over the common denominator. */
  lemma PercentGap(a: Score, b: Score)
    ensures (Percent(b) - Percent(a)) * ((a.den * b.den) as real) == 100.0 * ((b.num * a.den - a.num * b.den) as real)
  {
    var an, ad, bn, bd := a.num as real, a.den as real, b.num as real, b.den as real;
    var pa, pb := Percent(a), Percent(b);
    assert pa * ad == 100.0 * an && pb * bd == 100.0 * bn;
    assert (a.den * b.den) as real == ad * bd;
    assert (b.num * a.den - a.num * b.den) as real == bn * ad - an * bd;
    assert pa * (ad * bd) == (pa * ad) * bd;
    assert pb * (ad * bd) == (pb * bd) * ad;
    assert (pb - pa) * (ad * bd) == pb * (ad * bd) - pa * (ad * bd);
  }

  /** Scores that are the same fraction in lowest terms or not compare as equal. */
  lemma SameScoreAtMost(a: Score)
    ensures AtMost(a, a) && !Below(a, a)
  {
  }

  /** The score table of a sample: every catalog lineage, in catalog order, with its score. */
  function Scores(catalog: Catalog, sample: set<int>): ScoreTable {
    seq(|catalog|, i requires 0 <= i < |catalog| => (catalog[i].0, ScoreOf(catalog[i].1, sample)))
  }

  /** Scoring keeps the lineage names of the catalog, in order. */
  lemma ScoresKeepNames(catalog: Catalog, sample: set<int>)
    ensures |Scores(catalog, sample)| == |catalog|
    ensures forall i :: 0 <= i < |catalog| ==> Scores(catalog, sample)[i].0 == catalog[i].0
    ensures DistinctNames(catalog) ==> DistinctNames(Scores(catalog, sample))
  {
  }

  /** The scripts divide by the size of every marker set; they need each to be non-empty. */
  predicate MarkersNonEmpty(catalog: Catalog) {
    forall i :: 0 <= i < |catalog| ==> catalog[i].1 != {}
  }

  /** The names of a score table or catalog are pairwise different, as dict keys are. */
  predicate DistinctNames<T>(entries: seq<(string, T)>) {
    forall i, j :: 0 <= i < j < |entries| ==> entries[i].0 != entries[j].0
  }

  /**
   * The scoring loop over the catalog: one entry per lineage, in catalog order,
   * even when the sample is empty.
   */
  method ScoreCatalog(catalog: Catalog, sample: set<int>) returns (table: ScoreTable)
    ensures table == Scores(catalog, sample)
  {
    table := [];
    for i := 0 to |catalog|
      invariant table == Scores(catalog[..i], sample)
    {
      var (lineage, markers) := catalog[i];
      table := table + [(lineage, ScoreOf(markers, sample))];
    }
    assert catalog[..|catalog|] == catalog;
  }

  /** Every lineage of the catalog keeps its name and gets a bounded score, empty marker sets scoring 0. */
  lemma ScoresBounded(catalog: Catalog, sample: set<int>, i: nat)
    requires i < |catalog|
    ensures |Scores(catalog, sample)| == |catalog|
    ensures Scores(catalog, sample)[i].0 == catalog[i].0
    ensures 0.0 <= Percent(Scores(catalog, sample)[i].1) <= 100.0
    ensures catalog[i].1 == {} ==> Percent(Scores(catalog, sample)[i].1) == 0.0
    ensures catalog[i].1 != {} && catalog[i].1 <= sample ==> Percent(Scores(catalog, sample)[i].1) == 100.0
  {
    PercentBounds(Scores(catalog, sample)[i].1);
  }
}
