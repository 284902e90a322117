/** The state of one run of the vocational test: the index of the question
    on screen and the category totals built from the answers given. */
module Quiz {
  import opened Wrappers
  import opened Tally
  import opened Catalog
  import opened Ranking

  /** The test as written: answering adds the answer's value to its
      category and moves on (or, on the last question, computes the
      results); going back moves the cursor only. */
  class VocationalTest {
    const questionCount: nat
    const catalog: seq<Career>
    const weights: WeightMap
    var currentQuestion: nat
    var scores: ScoreMap
    /** Every answer clicked so far, in order. */
    ghost var answers: seq<Entry>

    ghost predicate Valid()
      reads this
    {
      && currentQuestion < questionCount
      && scores == AccumulateAll(map[], answers)
    }

    /** A fresh test: first question, no scores. */
    constructor (questionCount: nat, catalog: seq<Career>, weights: WeightMap)
      requires questionCount > 0
      ensures Valid()
      ensures this.questionCount == questionCount && this.catalog == catalog && this.weights == weights
      ensures currentQuestion == 0 && scores == map[] && answers == []
    {
      this.questionCount := questionCount;
      this.catalog := catalog;
      this.weights := weights;
      currentQuestion := 0;
      scores := map[];
      answers := [];
    }

    /** `handleAnswer(category, value)`: the new totals, then either the next
        question or, on the last one, the results of the new totals. */
    method Answer(category: string, value: int) returns (done: Option<TestResult>)
      requires Valid()
      modifies this
      ensures Valid()
      ensures answers == old(answers) + [Entry(category, value)]
      ensures scores == Accumulate(old(scores), category, value)
      ensures old(currentQuestion) < questionCount - 1 ==>
        currentQuestion == old(currentQuestion) + 1 && done == None
      ensures old(currentQuestion) == questionCount - 1 ==>
        currentQuestion == old(currentQuestion) && done == Some(Results(scores, weights, catalog))
    {
      scores := Accumulate(scores, category, value);
      answers := answers + [Entry(category, value)];
      assert answers[..|answers| - 1] == old(answers);
      if currentQuestion < questionCount - 1 {
        currentQuestion := currentQuestion + 1;
        done := None;
      } else {
        var result := CalculateResults(scores, weights, catalog);
        done := Some(result);
      }
    }

    /** `handlePrevious`: one question back unless on the first; the totals
        are left as they are. */
    method Previous()
      requires Valid()
      modifies this
      ensures Valid()
      ensures currentQuestion == if old(currentQuestion) > 0 then old(currentQuestion) - 1 else 0
      ensures scores == old(scores) && answers == old(answers)
    {
      if currentQuestion > 0 {
        currentQuestion := currentQuestion - 1;
      }
    }
  }

  /** Whatever the clicks, each category's total is the sum of the values of
      all answers clicked for it, and no other category moves. */
  lemma TotalsAreSums(test: VocationalTest, k: string)
    requires test.Valid()
    ensures Get(test.scores, k) == SumFor(test.answers, k)
  {
    AccumulateAllSums(map[], test.answers, k);
  }

  /** Answering the first question of a two-question test under
      "technical" with 3, going back, and answering it again under
      "creative" with 3 leaves both categories at 3: the abandoned answer
      still counts. */
  method RevisitCountsBothAnswers() returns (test: VocationalTest)
    ensures test.Valid() && test.currentQuestion == 1
    ensures Get(test.scores, "technical") == 3 && Get(test.scores, "creative") == 3
  {
    test := new VocationalTest(2, [], map[]);
    var first := test.Answer("technical", 3);
    test.Previous();
    var second := test.Answer("creative", 3);
  }

  /** The test with the totals kept in step with the path taken: going back
      withdraws the answer given to the question returned to. */
  class PathQuiz {
    const questionCount: nat
    const catalog: seq<Career>
    const weights: WeightMap
    var currentQuestion: nat
    var scores: ScoreMap
    /** The answer chosen for each question before the current one. */
    var path: seq<Entry>

    ghost predicate Valid()
      reads this
    {
      && currentQuestion < questionCount
      && |path| == currentQuestion
      && SameTotals(scores, AccumulateAll(map[], path))
    }

    constructor (questionCount: nat, catalog: seq<Career>, weights: WeightMap)
      requires questionCount > 0
      ensures Valid()
      ensures this.questionCount == questionCount && this.catalog == catalog && this.weights == weights
      ensures currentQuestion == 0 && scores == map[] && path == []
    {
      this.questionCount := questionCount;
      this.catalog := catalog;
      this.weights := weights;
      currentQuestion := 0;
      scores := map[];
      path := [];
    }

    /** Answers the current question; on the last one the results are those
        of the path followed by this answer, and answering it again replaces
        the answer instead of adding to it. */
    method Answer(category: string, value: int) returns (done: Option<TestResult>)
      requires Valid()
      modifies this
      ensures Valid()
      ensures old(currentQuestion) < questionCount - 1 ==>
        && currentQuestion == old(currentQuestion) + 1
        && path == old(path) + [Entry(category, value)]
        && scores == Accumulate(old(scores), category, value)
        && done == None
      ensures old(currentQuestion) == questionCount - 1 ==>
        && currentQuestion == old(currentQuestion) && path == old(path) && scores == old(scores)
        && done == Some(Results(Accumulate(scores, category, value), weights, catalog))
    {
      var newScores := Accumulate(scores, category, value);
      if currentQuestion < questionCount - 1 {
        AccumulateSameTotals(scores, AccumulateAll(map[], path), category, value);
        assert (path + [Entry(category, value)])[..|path|] == path;
        scores := newScores;
        path := path + [Entry(category, value)];
        currentQuestion := currentQuestion + 1;
        done := None;
      } else {
        var result := CalculateResults(newScores, weights, catalog);
        done := Some(result);
      }
    }

    /** One question back, withdrawing the answer given to it. */
    method Previous()
      requires Valid()
      modifies this
      ensures Valid()
      ensures old(currentQuestion) > 0 ==>
        && currentQuestion == old(currentQuestion) - 1
        && path == old(path)[..|old(path)| - 1]
        && scores == Retract(old(scores), old(path)[|old(path)| - 1].key, old(path)[|old(path)| - 1].value)
      ensures old(currentQuestion) == 0 ==> currentQuestion == 0 && path == old(path) && scores == old(scores)
    {
      if currentQuestion > 0 {
        var last := path[|path| - 1];
        scores := Retract(scores, last.key, last.value);
        path := path[..|path| - 1];
        currentQuestion := currentQuestion - 1;
      }
    }
  }

  lemma AccumulateSameTotals(a: ScoreMap, b: ScoreMap, k: string, v: int)
    requires SameTotals(a, b)
    ensures SameTotals(Accumulate(a, k, v), Accumulate(b, k, v))
  {
    forall j ensures Get(Accumulate(a, k, v), j) == Get(Accumulate(b, k, v), j) {
      if j != k {
        assert Get(a, j) == Get(b, j);
      }
    }
  }

  /** With the corrected test every total is the sum over the path taken. */
  lemma PathTotalsAreSums(quiz: PathQuiz, k: string)
    requires quiz.Valid()
    ensures Get(quiz.scores, k) == SumFor(quiz.path, k)
  {
    AccumulateAllSums(map[], quiz.path, k);
  }

  /** The same clicks as in `RevisitCountsBothAnswers`: only the answer on
      the path taken counts. */
  method RevisitCountsPathOnly() returns (quiz: PathQuiz)
    ensures quiz.Valid() && quiz.currentQuestion == 1
    ensures Get(quiz.scores, "technical") == 0 && Get(quiz.scores, "creative") == 3
  {
    quiz := new PathQuiz(2, [], map[]);
    var first := quiz.Answer("technical", 3);
    quiz.Previous();
    var second := quiz.Answer("creative", 3);
  }

  /** The ranking reads totals only, so maps with the same totals rank alike:
      the corrected test's results are those of the path taken. */
  lemma {:induction false} RawScoreSameTotals(a: ScoreMap, b: ScoreMap, weights: WeightMap, cats: seq<string>)
    requires SameTotals(a, b)
    ensures RawScore(a, weights, cats) == RawScore(b, weights, cats)
    decreases |cats|
  {
    if |cats| > 0 {
      RawScoreSameTotals(a, b, weights, cats[..|cats| - 1]);
      assert Get(a, cats[|cats| - 1]) == Get(b, cats[|cats| - 1]);
    }
  }

  lemma RankSameTotals(a: ScoreMap, b: ScoreMap, weights: WeightMap, catalog: seq<Career>)
    requires SameTotals(a, b)
    ensures Rank(a, weights, catalog) == Rank(b, weights, catalog)
  {
    forall i | 0 <= i < |catalog|
      ensures RawScore(a, weights, catalog[i].categories) == RawScore(b, weights, catalog[i].categories)
    {
      RawScoreSameTotals(a, b, weights, catalog[i].categories);
    }
    assert ScoreCatalog(a, weights, catalog) == ScoreCatalog(b, weights, catalog);
  }
}
