/** Career ranking at the end of the vocational test: every career's raw
    score is the weighted sum of the totals of its categories, the careers
    are sorted by descending raw score (stable, so ties keep catalog order),
    the first five are kept, and their scores are expressed as a rounded
    percentage of the leader's. */
module Ranking {
  import opened Tally
  import opened Catalog
  import opened StableSort
  import opened JsMath

  /** Category -> weight, as the category weight table holds it. */
  type WeightMap = map<string, real>

  /** Number of careers kept in the result. */
  const TopCount: nat := 5

  /** `weights[c] || 1.0`: a missing weight and a zero weight both read as 1.0. */
  function WeightOf(weights: WeightMap, c: string): (w: real)
    ensures w != 0.0
    ensures c in weights && weights[c] != 0.0 ==> w == weights[c]
    ensures c !in weights ==> w == 1.0
  {
    if c in weights && weights[c] != 0.0 then weights[c] else 1.0
  }

  /** What one category contributes to a career's raw score. */
  function Contribution(scores: ScoreMap, weights: WeightMap, c: string): real
  {
    Get(scores, c) as real * WeightOf(weights, c)
  }

  /** The `forEach` over a career's categories: `score += scores[c] * weight[c]`
      from `score = 0`, in category order. */
  function RawScore(scores: ScoreMap, weights: WeightMap, cats: seq<string>): real
  {
    if |cats| == 0 then 0.0
    else RawScore(scores, weights, cats[..|cats| - 1]) + Contribution(scores, weights, cats[|cats| - 1])
  }

  /** A career together with its raw score (`{ ...career, score }`). */
  datatype Scored = Scored(career: Career, score: real)

  function ScoreOf(x: Scored): real {
    x.score
  }

  /** Every career of the catalog with its raw score, in catalog order. */
  function ScoreCatalog(scores: ScoreMap, weights: WeightMap, catalog: seq<Career>): (r: seq<Scored>)
    ensures |r| == |catalog|
    ensures forall i :: 0 <= i < |r| ==> r[i] == Scored(catalog[i], RawScore(scores, weights, catalog[i].categories))
  {
    seq(|catalog|, i requires 0 <= i < |catalog| => Scored(catalog[i], RawScore(scores, weights, catalog[i].categories)))
  }

  /** `careerScores.sort((a, b) => b.score - a.score).slice(0, 5)` */
  function Selected(scored: seq<Scored>): (r: seq<Scored>)
    ensures |r| == Min(TopCount, |scored|)
  {
    Sort(scored, ScoreOf)[..Min(TopCount, |scored|)]
  }

  /** A kept career before normalisation: `{ name, type, score }`. */
  datatype RankedCareer = RankedCareer(name: string, careerType: string, score: real)

  /** A career with its final integer percentage, as results carry it. */
  datatype TopCareer = TopCareer(name: string, careerType: string, score: int)

  function ToRanked(s: seq<Scored>): (r: seq<RankedCareer>)
    ensures |r| == |s|
    ensures forall i :: 0 <= i < |s| ==> r[i] == RankedCareer(s[i].career.name, s[i].career.careerType, s[i].score)
  {
    seq(|s|, i requires 0 <= i < |s| => RankedCareer(s[i].career.name, s[i].career.careerType, s[i].score))
  }

  /** `Math.max(...t.map(c => c.score))` for a non-empty list. */
  function MaxScore(t: seq<RankedCareer>): (m: real)
    requires |t| > 0
    ensures exists i :: 0 <= i < |t| && t[i].score == m
    ensures forall i :: 0 <= i < |t| ==> t[i].score <= m
  {
    if |t| == 1 then t[0].score
    else
      var m := MaxScore(t[..|t| - 1]);
      assert forall i :: 0 <= i < |t| - 1 ==> t[..|t| - 1][i] == t[i];
      if t[|t| - 1].score > m then t[|t| - 1].score else m
  }

  /** `maxScore > 0 ? Math.round((score / maxScore) * 100) : 0` */
  function Percent(score: real, maxScore: real): int
  {
    if maxScore > 0.0 then Round(score / maxScore * 100.0) else 0
  }

  /** Each kept score as a rounded percentage of the largest kept score.
      For an empty list, `Math.max()` is -Infinity but there is nothing to map. */
  function NormalizeToLeader(t: seq<RankedCareer>): (r: seq<TopCareer>)
    ensures |r| == |t|
  {
    if |t| == 0 then []
    else
      var m := MaxScore(t);
      seq(|t|, i requires 0 <= i < |t| => Normalized(t[i], m))
  }

  function Normalized(c: RankedCareer, maxScore: real): TopCareer
  {
    TopCareer(c.name, c.careerType, Percent(c.score, maxScore))
  }

  /** The five best careers of the catalog, normalised to the leader. */
  function Rank(scores: ScoreMap, weights: WeightMap, catalog: seq<Career>): seq<TopCareer>
  {
    NormalizeToLeader(ToRanked(Selected(ScoreCatalog(scores, weights, catalog))))
  }

  /** The result handed on when the test completes (its clock-based id and
      date are not modelled). */
  datatype TestResult = TestResult(scores: ScoreMap, topCareers: seq<TopCareer>)

  function Results(finalScores: ScoreMap, weights: WeightMap, catalog: seq<Career>): (r: TestResult)
    ensures r.scores == finalScores
  {
    TestResult(finalScores, Rank(finalScores, weights, catalog))
  }

  /** `calculateResults`: the loops that compute the raw scores, then the
      sort, slice and normalisation. */
  method CalculateResults(finalScores: ScoreMap, weights: WeightMap, catalog: seq<Career>) returns (result: TestResult)
    ensures result == Results(finalScores, weights, catalog)
  {
    var careerScores: seq<Scored> := [];
    for i := 0 to |catalog|
      invariant careerScores == ScoreCatalog(finalScores, weights, catalog[..i])
    {
      var career := catalog[i];
      var score := CareerScore(finalScores, weights, career.categories);
      careerScores := careerScores + [Scored(career, score)];
      assert catalog[..i + 1][..i] == catalog[..i] && catalog[..i + 1][i] == career;
    }
    assert catalog[..|catalog|] == catalog;
    var topCareers := ToRanked(Selected(careerScores));
    result := TestResult(finalScores, NormalizeToLeader(topCareers));
  }

  /** The inner loop of `calculateResults`: one career's raw score. */
  method CareerScore(finalScores: ScoreMap, weights: WeightMap, categories: seq<string>) returns (score: real)
    ensures score == RawScore(finalScores, weights, categories)
  {
    score := 0.0;
    for j := 0 to |categories|
      invariant score == RawScore(finalScores, weights, categories[..j])
    {
      var cat := categories[j];
      assert categories[..j + 1][..j] == categories[..j];
      score := score + Get(finalScores, cat) as real * WeightOf(weights, cat);
    }
    assert categories[..|categories|] == categories;
  }

  // ---------------------------------------------------------------------
  // Raw scores

  /** The raw score of a concatenation of category lists is the sum. */
  lemma {:induction false} RawScoreAppend(scores: ScoreMap, weights: WeightMap, a: seq<string>, b: seq<string>)
    ensures RawScore(scores, weights, a + b) == RawScore(scores, weights, a) + RawScore(scores, weights, b)
    decreases |b|
  {
    if |b| == 0 {
      assert a + b == a;
    } else {
      assert (a + b)[..|a + b| - 1] == a + b[..|b| - 1];
      RawScoreAppend(scores, weights, a, b[..|b| - 1]);
    }
  }

  /** A score map without entries gives every career a raw score of 0. */
  lemma {:induction false} RawScoreOfEmpty(weights: WeightMap, cats: seq<string>)
    ensures RawScore(map[], weights, cats) == 0.0
    decreases |cats|
  {
    if |cats| > 0 {
      RawScoreOfEmpty(weights, cats[..|cats| - 1]);
      assert Get(map[], cats[|cats| - 1]) == 0;
      assert Contribution(map[], weights, cats[|cats| - 1]) == 0.0;
    }
  }

  /** Weights that are not negative. */
  ghost predicate NonNegativeWeights(weights: WeightMap) {
    forall c :: c in weights ==> weights[c] >= 0.0
  }

  /** With non-negative weights, raising category totals never lowers a raw
      score: answering more questions cannot push a career down in score. */
  lemma {:induction false} RawScoreMonotone(s1: ScoreMap, s2: ScoreMap, weights: WeightMap, cats: seq<string>)
    requires NonNegativeWeights(weights)
    requires forall c :: Get(s1, c) <= Get(s2, c)
    ensures RawScore(s1, weights, cats) <= RawScore(s2, weights, cats)
    decreases |cats|
  {
    if |cats| > 0 {
      var c := cats[|cats| - 1];
      RawScoreMonotone(s1, s2, weights, cats[..|cats| - 1]);
      assert WeightOf(weights, c) >= 0.0;
      ContributionMonotone(s1, s2, weights, c);
    }
  }

  lemma ContributionMonotone(s1: ScoreMap, s2: ScoreMap, weights: WeightMap, c: string)
    requires Get(s1, c) <= Get(s2, c) && WeightOf(weights, c) >= 0.0
    ensures Contribution(s1, weights, c) <= Contribution(s2, weights, c)
  {
    var x, y, w := Get(s1, c) as real, Get(s2, c) as real, WeightOf(weights, c);
    assert (y - x) * w >= 0.0;
    assert x * w <= y * w;
  }

  // ---------------------------------------------------------------------
  // Selection

  /** Every raw score of the catalog is at least 0. */
  ghost predicate NonNegativeScores(s: seq<Scored>) {
    forall i :: 0 <= i < |s| ==> s[i].score >= 0.0
  }

  lemma {:induction false} RawScoreNonNegative(scores: ScoreMap, weights: WeightMap, cats: seq<string>)
    requires NonNegativeWeights(weights)
    requires forall c :: Get(scores, c) >= 0
    ensures RawScore(scores, weights, cats) >= 0.0
  {
    RawScoreOfEmpty(weights, cats);
    RawScoreMonotone(map[], scores, weights, cats);
  }

  /** The kept careers are in non-increasing order of raw score, ties in
      catalog order: the elements of each score come in the order the
      catalog lists them, and only the first few are kept. */
  lemma SelectedSortedStable(scored: seq<Scored>, v: real)
    ensures SortedDesc(Selected(scored), ScoreOf)
    ensures KeyFilter(Selected(scored), ScoreOf, v) <= KeyFilter(scored, ScoreOf, v)
  {
    SortPrefixSorted(scored, ScoreOf, Min(TopCount, |scored|));
    SortPrefixStable(scored, ScoreOf, Min(TopCount, |scored|), v);
  }

  /** No career left out of the top five has a higher raw score than any
      career kept. */
  lemma SelectedKeepsBest(scored: seq<Scored>, x: Scored, y: Scored)
    requires x in Selected(scored)
    requires y in multiset(scored) - multiset(Selected(scored))
    ensures x.score >= y.score
  {
    SortPrefixKeepsBest(scored, ScoreOf, Min(TopCount, |scored|), x, y);
  }

  /** The selection does not depend on the sorting algorithm: any
      non-increasing, tie-stable arrangement of the careers has the same
      first five. */
  lemma SelectedIsCanonical(scored: seq<Scored>, other: seq<Scored>)
    requires SortedDesc(other, ScoreOf)
    requires forall v :: KeyFilter(other, ScoreOf, v) == KeyFilter(scored, ScoreOf, v)
    ensures |other| == |scored|
    ensures other[..Min(TopCount, |other|)] == Selected(scored)
  {
    SortFacts(scored, ScoreOf);
    SortedStableUnique(other, Sort(scored, ScoreOf), ScoreOf);
  }

  // ---------------------------------------------------------------------
  // Normalisation

  /** In a non-increasing list the maximum is the first score. */
  lemma MaxOfSorted(t: seq<RankedCareer>)
    requires |t| > 0
    requires forall i :: 0 <= i < |t| ==> t[i].score <= t[0].score
    ensures MaxScore(t) == t[0].score
  {
  }

  /** When the largest kept score is positive, the leader gets 100. */
  lemma LeaderIsHundred(t: seq<RankedCareer>)
    requires |t| > 0
    requires forall i :: 0 <= i < |t| ==> t[i].score <= t[0].score
    requires t[0].score > 0.0
    ensures NormalizeToLeader(t)[0].score == 100
  {
    MaxOfSorted(t);
    var m := t[0].score;
    assert m / m == 1.0;
    RoundOfInt(100);
  }

  /** When no kept score is positive, every percentage is 0. */
  lemma AllZeroWithoutPositive(t: seq<RankedCareer>)
    requires forall i :: 0 <= i < |t| ==> t[i].score <= 0.0
    ensures forall i :: 0 <= i < |t| ==> NormalizeToLeader(t)[i].score == 0
  {
  }

  /** When the maximum is positive each percentage is the rounded share of it. */
  lemma {:induction false} PercentOfMaximum(t: seq<RankedCareer>, i: int)
    requires 0 <= i < |t|
    requires MaxScore(t) > 0.0
    ensures NormalizeToLeader(t)[i].score == Round(t[i].score / MaxScore(t) * 100.0)
  {
    assert NormalizeToLeader(t)[i] == Normalized(t[i], MaxScore(t));
  }

  /** Names and types pass through unchanged and in order. */
  lemma NormalizeKeepsNames(t: seq<RankedCareer>, i: int)
    requires 0 <= i < |t|
    ensures NormalizeToLeader(t)[i].name == t[i].name
    ensures NormalizeToLeader(t)[i].careerType == t[i].careerType
  {
  }

  lemma PercentBounds(score: real, m: real)
    requires 0.0 <= score <= m
    ensures 0 <= Percent(score, m) <= 100
  {
    if m > 0.0 {
      assert score / m <= 1.0;
      RoundWithin(score / m * 100.0, 0, 100);
    }
  }

  /** With non-negative scores every percentage lies in [0, 100]. */
  lemma NormalizeInRange(t: seq<RankedCareer>, i: int)
    requires 0 <= i < |t|
    requires forall j :: 0 <= j < |t| ==> t[j].score >= 0.0
    ensures 0 <= NormalizeToLeader(t)[i].score <= 100
  {
    PercentBounds(t[i].score, MaxScore(t));
  }

  lemma PercentMonotone(x: real, y: real, m: real)
    requires x <= y
    ensures Percent(x, m) <= Percent(y, m)
  {
    if m > 0.0 {
      assert x / m <= y / m;
      RoundMonotone(x / m * 100.0, y / m * 100.0);
    }
  }

  /** Rounding keeps the order: the percentages are non-increasing too. */
  lemma NormalizeKeepsOrder(t: seq<RankedCareer>, i: int, j: int)
    requires 0 <= i < j < |t|
    requires t[i].score >= t[j].score
    ensures NormalizeToLeader(t)[i].score >= NormalizeToLeader(t)[j].score
  {
    PercentMonotone(t[j].score, t[i].score, MaxScore(t));
  }

  // ---------------------------------------------------------------------
  // The whole ranking

  /** The result lists `min(5, |catalog|)` careers. */
  lemma RankLength(scores: ScoreMap, weights: WeightMap, catalog: seq<Career>)
    ensures |Rank(scores, weights, catalog)| == Min(TopCount, |catalog|)
  {
  }

  /** Entry `i` of the ranking names the `i`-th career of the stable sort. */
  lemma RankEntry(scores: ScoreMap, weights: WeightMap, catalog: seq<Career>, i: int)
    requires 0 <= i < Min(TopCount, |catalog|)
    ensures var sel := Selected(ScoreCatalog(scores, weights, catalog));
      && Rank(scores, weights, catalog)[i].name == sel[i].career.name
      && Rank(scores, weights, catalog)[i].careerType == sel[i].career.careerType
  {
  }

  /** A non-empty catalog with some positive raw score puts its leader at 100. */
  lemma RankLeader(scores: ScoreMap, weights: WeightMap, catalog: seq<Career>)
    requires |catalog| > 0
    requires exists i :: 0 <= i < |catalog| && RawScore(scores, weights, catalog[i].categories) > 0.0
    ensures Rank(scores, weights, catalog)[0].score == 100
  {
    var scored := ScoreCatalog(scores, weights, catalog);
    var sel := Selected(scored);
    var t := ToRanked(sel);
    SelectedSortedStable(scored, 0.0);
    var k :| 0 <= k < |catalog| && RawScore(scores, weights, catalog[k].categories) > 0.0;
    assert sel[0].score > 0.0 by {
      if scored[k] !in sel {
        assert scored[k] in multiset(scored);
        assert scored[k] !in multiset(sel);
        SelectedKeepsBest(scored, sel[0], scored[k]);
      } else {
        var j :| 0 <= j < |sel| && sel[j] == scored[k];
        if j > 0 {
          assert ScoreOf(sel[0]) >= ScoreOf(sel[j]);
        }
      }
    }
    forall i | 0 <= i < |t| ensures t[i].score <= t[0].score {
      if i > 0 {
        assert ScoreOf(sel[0]) >= ScoreOf(sel[i]);
      }
    }
    LeaderIsHundred(t);
  }

  /** An empty score map ranks every career at 0. */
  lemma RankOfEmptyScores(weights: WeightMap, catalog: seq<Career>)
    ensures forall i :: 0 <= i < |Rank(map[], weights, catalog)| ==> Rank(map[], weights, catalog)[i].score == 0
  {
    var scored := ScoreCatalog(map[], weights, catalog);
    forall i | 0 <= i < |catalog| ensures scored[i].score == 0.0 {
      RawScoreOfEmpty(weights, catalog[i].categories);
    }
    var sel := Selected(scored);
    SortFacts(scored, ScoreOf);
    forall i | 0 <= i < |sel| ensures sel[i].score == 0.0 {
      SelectedMember(scored, i);
    }
    AllZeroWithoutPositive(ToRanked(sel));
  }

  /** Every kept career is one of the catalog's. */
  lemma SelectedMember(scored: seq<Scored>, i: int)
    requires 0 <= i < |Selected(scored)|
    ensures Selected(scored)[i] in scored
  {
    var r := Sort(scored, ScoreOf);
    assert Selected(scored)[i] == r[i];
    assert r[i] in multiset(r);
  }

  /** With non-negative answer values and weights every percentage lies in [0, 100]. */
  lemma RankInRange(scores: ScoreMap, weights: WeightMap, catalog: seq<Career>, i: int)
    requires NonNegativeWeights(weights)
    requires forall c :: Get(scores, c) >= 0
    requires 0 <= i < |Rank(scores, weights, catalog)|
    ensures 0 <= Rank(scores, weights, catalog)[i].score <= 100
  {
    var scored := ScoreCatalog(scores, weights, catalog);
    var sel := Selected(scored);
    var t := ToRanked(sel);
    forall j | 0 <= j < |t| ensures t[j].score >= 0.0 {
      SelectedMember(scored, j);
      var k :| 0 <= k < |scored| && scored[k] == sel[j];
      RawScoreNonNegative(scores, weights, catalog[k].categories);
    }
    NormalizeInRange(t, i);
  }

  // ---------------------------------------------------------------------
  // Worked examples

  const ExampleA := Career("A", "Universitaria", "", "", "", [], "", ["x"], [])
  const ExampleB := Career("B", "Técnica", "", "", "", [], "", ["y"], [])
  const ExampleTotals: ScoreMap := map["x" := 10, "y" := 5]

  lemma ExampleTwoCareersScored()
    ensures ScoreCatalog(ExampleTotals, map[], [ExampleA, ExampleB])
      == [Scored(ExampleA, 10.0), Scored(ExampleB, 5.0)]
  {
    assert ["x"][..0] == [] && ["y"][..0] == [];
    assert [ExampleA, ExampleB][..1] == [ExampleA];
    assert ScoreCatalog(ExampleTotals, map[], [ExampleA]) == [Scored(ExampleA, 10.0)];
  }

  lemma ExampleTwoCareersSelected()
    ensures ToRanked(Selected([Scored(ExampleA, 10.0), Scored(ExampleB, 5.0)]))
      == [RankedCareer("A", "Universitaria", 10.0), RankedCareer("B", "Técnica", 5.0)]
  {
    var scored := [Scored(ExampleA, 10.0), Scored(ExampleB, 5.0)];
    assert scored[1..] == [Scored(ExampleB, 5.0)];
    assert Sort(scored, ScoreOf) == scored;
  }

  /** Careers A (category x) and B (category y), no weights, totals x = 10
      and y = 5: A is ranked first at 100 and B second at 50. */
  lemma ExampleTwoCareers()
    ensures Rank(ExampleTotals, map[], [ExampleA, ExampleB])
      == [TopCareer("A", "Universitaria", 100), TopCareer("B", "Técnica", 50)]
  {
    ExampleTwoCareersScored();
    ExampleTwoCareersSelected();
    var t := [RankedCareer("A", "Universitaria", 10.0), RankedCareer("B", "Técnica", 5.0)];
    assert t[..1] == [t[0]];
    assert MaxScore(t) == 10.0;
    RoundOfInt(100);
    RoundOfInt(50);
  }

  /** A weight of 2 doubles the category's contribution: x = 5 scores 10. */
  lemma ExampleWeight()
    ensures RawScore(map["x" := 5], map["x" := 2.0], ["x"]) == 10.0
  {
    assert ["x"][..0] == [];
  }

  /** Two careers tied at 7, at catalog positions 1 and 3, are kept in that order. */
  lemma ExampleTie(scored: seq<Scored>)
    requires |scored| == 4
    requires scored[1].score == 7.0 && scored[3].score == 7.0
    requires scored[0].score != 7.0 && scored[2].score != 7.0
    ensures KeyFilter(Sort(scored, ScoreOf), ScoreOf, 7.0) == [scored[1], scored[3]]
  {
    SortFacts(scored, ScoreOf);
    var s1, s2, s3 := scored[1..], scored[2..], scored[3..];
    assert s1[1..] == s2 && s2[1..] == s3 && s3[1..] == [];
    assert KeyFilter(s3, ScoreOf, 7.0) == [scored[3]];
    assert KeyFilter(s2, ScoreOf, 7.0) == [scored[3]];
    assert KeyFilter(s1, ScoreOf, 7.0) == [scored[1], scored[3]];
  }
}
