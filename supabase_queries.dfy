/** The data-access helpers: cleaning and de-duplicating the answers of a
    question as they are loaded from the database, the totals of the administration
    dashboard, and the guard in front of storing a test result. The database
    is not modelled: what a query returns arrives as a parameter. */
module SupabaseQueries {
  import opened Wrappers
  import opened Sequences
  import opened Text
  import opened Tally
  import opened StableSort
  import opened JsMath
  import Ranking

  // ---------------------------------------------------------------------
  // dedupeAnswers

  /** A JavaScript number as far as `Number.isFinite` tells them apart:
      a finite (here integral) value, or NaN / an infinity / a non-number. */
  datatype RawValue = Finite(n: int) | NotFinite

  /** An answer row as the database returns it: text and category may be
      missing (`undefined` or `null`). */
  datatype RawAnswer = RawAnswer(text: Option<string>, category: Option<string>, value: RawValue)

  /** An answer as the loaded question carries it. */
  datatype Answer = Answer(text: string, category: string, value: int)

  /** `x || ""` on an optional string. */
  function OrEmpty(s: Option<string>): string {
    if s.Some? then s.value else ""
  }

  /** What a loaded answer always satisfies: non-empty trimmed text and a
      trimmed category. */
  predicate WellFormed(a: Answer) {
    a.text != "" && IsTrimmed(a.text) && IsTrimmed(a.category)
  }

  /** One answer cleaned: text and category trimmed, a non-finite value
      replaced by 0, and nothing when the trimmed text is empty. */
  function Clean(a: RawAnswer): (r: Option<Answer>)
    ensures r.Some? <==> Trim(OrEmpty(a.text)) != ""
    ensures r.Some? ==> r.value.value == if a.value.Finite? then a.value.n else 0
  {
    var text := Trim(OrEmpty(a.text));
    if text == "" then None
    else Some(Answer(text, Trim(OrEmpty(a.category)), if a.value.Finite? then a.value.n else 0))
  }

  /** Every answer cleaned, the empty ones dropped, order kept. */
  function Cleaned(s: seq<RawAnswer>): seq<Answer> {
    FilterMap(s, Clean)
  }

  lemma CleanWellFormed(a: RawAnswer)
    ensures Clean(a).Some? ==> WellFormed(Clean(a).value)
  {
    TrimFacts(OrEmpty(a.text));
    TrimFacts(OrEmpty(a.category));
  }

  /** Every cleaned answer is the cleaned form of an input answer, and so
      has non-empty trimmed text and a trimmed category. */
  lemma CleanedWellFormed(s: seq<RawAnswer>)
    ensures forall a :: a in Cleaned(s) ==> WellFormed(a)
  {
    forall a | a in Cleaned(s) ensures WellFormed(a) {
      FilterMapSound(s, Clean, a);
      var j :| 0 <= j < |s| && Clean(s[j]) == Some(a);
      CleanWellFormed(s[j]);
    }
  }

  /** The de-duplication key `${text}::${category}::${value}`. */
  function AnswerKey(a: Answer): string {
    a.text + "::" + a.category + "::" + IntToString(a.value)
  }

  /** What `dedupeAnswers` returns: the cleaned answers, each dropped when an
      earlier kept answer has the same key. */
  function DedupeByKey(s: seq<RawAnswer>): seq<Answer> {
    DistinctBy(Cleaned(s), AnswerKey)
  }

  /** `dedupeAnswers`: one pass with the set of keys seen so far. */
  method DedupeAnswers(answers: seq<RawAnswer>) returns (result: seq<Answer>)
    ensures result == DedupeByKey(answers)
  {
    var seen: set<string> := {};
    result := [];
    for i := 0 to |answers|
      invariant result == DistinctBy(Cleaned(answers[..i]), AnswerKey)
      invariant forall k :: k in seen <==> k in KeysOf(result, AnswerKey)
    {
      ghost var before := Cleaned(answers[..i]);
      CleanedStep(answers, i);
      var cleaned := Clean(answers[i]);
      if cleaned.Some? {
        var answer := cleaned.value;
        var key := AnswerKey(answer);
        assert Cleaned(answers[..i + 1]) == before + [answer];
        DistinctBySnoc(before, answer, AnswerKey);
        if key !in seen {
          KeysOfSnoc(result, answer, AnswerKey);
          seen := seen + {key};
          result := result + [answer];
        }
      } else {
        assert Cleaned(answers[..i + 1]) == before;
      }
    }
    assert answers[..|answers|] == answers;
  }

  lemma CleanedStep(s: seq<RawAnswer>, i: nat)
    requires i < |s|
    ensures Cleaned(s[..i + 1]) == Cleaned(s[..i]) + Kept(Clean(s[i]))
  {
    assert s[..i + 1] == s[..i] + [s[i]];
    FilterMapSnoc(s[..i], s[i], Clean);
  }

  /** Every kept answer is well formed and is the cleaned form of an
      input answer. */
  lemma DedupeWellFormed(s: seq<RawAnswer>)
    ensures forall a :: a in DedupeByKey(s) ==> WellFormed(a) && a in Cleaned(s)
  {
    CleanedWellFormed(s);
    DistinctByFacts(Cleaned(s), AnswerKey);
  }

  /** No two kept answers share a key, and the key of every non-empty
      input answer is the key of a kept one. */
  lemma DedupeKeys(s: seq<RawAnswer>)
    ensures NoDuplicates(KeysOf(DedupeByKey(s), AnswerKey))
    ensures forall j :: 0 <= j < |s| && Clean(s[j]).Some? ==>
      AnswerKey(Clean(s[j]).value) in KeysOf(DedupeByKey(s), AnswerKey)
  {
    var c := Cleaned(s);
    DistinctByFacts(c, AnswerKey);
    forall j | 0 <= j < |s| && Clean(s[j]).Some?
      ensures AnswerKey(Clean(s[j]).value) in KeysOf(DedupeByKey(s), AnswerKey)
    {
      FilterMapComplete(s, Clean, j);
      var k :| 0 <= k < |c| && c[k] == Clean(s[j]).value;
    }
  }

  /** The kept answers keep the input order. */
  lemma DedupeOrder(s: seq<RawAnswer>)
    ensures IsSubsequence(DedupeByKey(s), Cleaned(s))
    ensures |DedupeByKey(s)| <= |s|
  {
    DistinctBySubsequence(Cleaned(s), AnswerKey);
  }

  /** An answer whose key no earlier answer has is kept. */
  lemma DedupeKeepsFirst(s: seq<RawAnswer>, i: nat)
    requires i < |Cleaned(s)|
    requires forall k :: 0 <= k < i ==> AnswerKey(Cleaned(s)[k]) != AnswerKey(Cleaned(s)[i])
    ensures Cleaned(s)[i] in DedupeByKey(s)
  {
    DistinctByKeepsFirst(Cleaned(s), AnswerKey, i);
  }

  /** A loaded answer seen again as a raw row. */
  function RawOf(a: Answer): RawAnswer {
    RawAnswer(Some(a.text), Some(a.category), Finite(a.value))
  }

  function ToRaw(xs: seq<Answer>): (r: seq<RawAnswer>)
    ensures |r| == |xs| && forall i :: 0 <= i < |xs| ==> r[i] == RawOf(xs[i])
  {
    seq(|xs|, i requires 0 <= i < |xs| => RawOf(xs[i]))
  }

  lemma CleanOfRaw(a: Answer)
    requires WellFormed(a)
    ensures Clean(RawOf(a)) == Some(a)
  {
    TrimOfTrimmed(a.text);
    TrimOfTrimmed(a.category);
  }

  lemma {:induction false} CleanedOfRaw(xs: seq<Answer>)
    requires forall i :: 0 <= i < |xs| ==> WellFormed(xs[i])
    ensures Cleaned(ToRaw(xs)) == xs
    decreases |xs|
  {
    if |xs| > 0 {
      var p := xs[..|xs| - 1];
      var last := xs[|xs| - 1];
      assert ToRaw(xs) == ToRaw(p) + [RawOf(last)];
      FilterMapSnoc(ToRaw(p), RawOf(last), Clean);
      CleanedOfRaw(p);
      CleanOfRaw(last);
      assert xs == p + [last];
    }
  }

  /** Cleaning and de-duplicating already-loaded answers again changes nothing. */
  lemma DedupeIdempotent(s: seq<RawAnswer>)
    ensures DedupeByKey(ToRaw(DedupeByKey(s))) == DedupeByKey(s)
  {
    var d := DedupeByKey(s);
    DedupeWellFormed(s);
    DedupeKeys(s);
    CleanedOfRaw(d);
    DistinctByOfDistinctKeys(d, AnswerKey);
  }

  /** Keys of separator-free answers are unambiguous. */
  predicate ColonFree(a: Answer) {
    ':' !in a.text && ':' !in a.category
  }

  /** The key read as four ':'-separated fields, the second and fourth empty. */
  lemma KeyLayers(t: string, c: string, n: string)
    ensures t + "::" + c + "::" + n == t + [':'] + ("" + [':'] + (c + [':'] + ("" + [':'] + n)))
  {
    assert "::" == [':'] + [':'] && "" + [':'] == [':'];
    assert t + "::" + c + "::" + n == t + ([':'] + ([':'] + (c + ([':'] + ([':'] + n)))));
  }

  lemma KeyInjective(a: Answer, b: Answer)
    requires ColonFree(a) && ColonFree(b)
    requires AnswerKey(a) == AnswerKey(b)
    ensures a == b
  {
    var na, nb := IntToString(a.value), IntToString(b.value);
    KeyLayers(a.text, a.category, na);
    KeyLayers(b.text, b.category, nb);
    SeparatedEqual(a.text, "" + [':'] + (a.category + [':'] + ("" + [':'] + na)),
                   b.text, "" + [':'] + (b.category + [':'] + ("" + [':'] + nb)), ':');
    SeparatedEqual("", a.category + [':'] + ("" + [':'] + na), "", b.category + [':'] + ("" + [':'] + nb), ':');
    SeparatedEqual(a.category, "" + [':'] + na, b.category, "" + [':'] + nb, ':');
    SeparatedEqual("", na, "", nb, ':');
    IntToStringInjective(a.value, b.value);
  }

  /** With no ':' in any text or category the key-based pass keeps exactly
      the first occurrence of every distinct answer. */
  lemma DedupeWithoutColons(s: seq<RawAnswer>)
    requires forall a :: a in Cleaned(s) ==> ColonFree(a)
    ensures DedupeByKey(s) == DedupeExact(s)
  {
    forall x, y | x in Cleaned(s) && y in Cleaned(s) && AnswerKey(x) == AnswerKey(y) ensures x == y {
      KeyInjective(x, y);
    }
    DistinctByInjective(Cleaned(s), AnswerKey);
  }

  /** Two different answers whose texts and categories contain `::` ... */
  const FirstOfPair := Answer("a::b", "c", 1)
  const SecondOfPair := Answer("a", "b::c", 1)

  /** ... share a key, */
  lemma PairCollides()
    ensures FirstOfPair != SecondOfPair && AnswerKey(FirstOfPair) == AnswerKey(SecondOfPair)
  {
    assert IntToString(1) == "1";
    assert FirstOfPair.text != SecondOfPair.text by {
      assert |FirstOfPair.text| == 4 && |SecondOfPair.text| == 1;
    }
  }

  lemma PairCleaned()
    ensures Cleaned([RawOf(FirstOfPair), RawOf(SecondOfPair)]) == [FirstOfPair, SecondOfPair]
  {
    assert WellFormed(FirstOfPair) && WellFormed(SecondOfPair);
    CleanedOfRaw([FirstOfPair, SecondOfPair]);
    assert ToRaw([FirstOfPair, SecondOfPair]) == [RawOf(FirstOfPair), RawOf(SecondOfPair)];
  }

  /** ... and the key-based pass drops the second. */
  lemma KeyCollisionDropsAnswer()
    ensures DedupeByKey([RawOf(FirstOfPair), RawOf(SecondOfPair)]) == [FirstOfPair]
  {
    PairCollides();
    PairCleaned();
    DistinctByPair(FirstOfPair, SecondOfPair, AnswerKey);
  }

  /** The evidently intended de-duplication: an answer is dropped only when
      an equal answer (same text, category and value) came before. */
  function DedupeExact(s: seq<RawAnswer>): seq<Answer> {
    Distinct(Cleaned(s))
  }

  /** The same pass with the answer itself, not a string built from it, in
      the set of seen answers. */
  method DedupeAnswersExact(answers: seq<RawAnswer>) returns (result: seq<Answer>)
    ensures result == DedupeExact(answers)
  {
    var seen: set<Answer> := {};
    result := [];
    for i := 0 to |answers|
      invariant result == Distinct(Cleaned(answers[..i]))
      invariant forall a :: a in seen <==> a in Cleaned(answers[..i])
    {
      ghost var before := Cleaned(answers[..i]);
      CleanedStep(answers, i);
      var cleaned := Clean(answers[i]);
      if cleaned.Some? {
        var answer := cleaned.value;
        assert Cleaned(answers[..i + 1]) == before + [answer];
        DistinctSnoc(before, answer);
        DistinctSameElements(before);
        if answer !in seen {
          result := result + [answer];
        }
        seen := seen + {answer};
      } else {
        assert Cleaned(answers[..i + 1]) == before;
      }
    }
    assert answers[..|answers|] == answers;
  }

  /** The corrected pass keeps every distinct non-empty answer exactly once,
      in input order, and nothing else. */
  lemma DedupeExactFacts(s: seq<RawAnswer>)
    ensures forall a :: a in DedupeExact(s) <==> a in Cleaned(s)
    ensures NoDuplicates(DedupeExact(s))
    ensures forall j :: 0 <= j < |s| && Clean(s[j]).Some? ==> Clean(s[j]).value in DedupeExact(s)
    ensures DedupeExact(ToRaw(DedupeExact(s))) == DedupeExact(s)
  {
    var d := DedupeExact(s);
    DistinctSameElements(Cleaned(s));
    forall j | 0 <= j < |s| && Clean(s[j]).Some? ensures Clean(s[j]).value in d {
      FilterMapComplete(s, Clean, j);
    }
    CleanedWellFormed(s);
    forall i | 0 <= i < |d| ensures WellFormed(d[i]) {
      assert d[i] in Cleaned(s);
    }
    CleanedOfRaw(d);
    DistinctOfNoDuplicates(d);
  }

  /** The two answers the key-based pass merges are both kept. */
  lemma ExactKeepsCollidingAnswers()
    ensures DedupeExact([RawOf(FirstOfPair), RawOf(SecondOfPair)]) == [FirstOfPair, SecondOfPair]
  {
    PairCollides();
    PairCleaned();
    DistinctOfNoDuplicates([FirstOfPair, SecondOfPair]);
  }

  // ---------------------------------------------------------------------
  // getAdminStats

  /** The `top_careers` column of one stored result, which may be null. */
  datatype StoredResult = StoredResult(topCareers: Option<seq<Ranking.TopCareer>>)

  function NameOf(c: Ranking.TopCareer): string {
    c.name
  }

  function ResultNames(r: StoredResult): seq<string> {
    if r.topCareers.Some? then KeysOf(r.topCareers.value, NameOf) else []
  }

  /** Every recommended career name, result by result, in order. */
  function RecommendedNames(results: seq<StoredResult>): seq<string> {
    if |results| == 0 then []
    else RecommendedNames(results[..|results| - 1]) + ResultNames(results[|results| - 1])
  }

  lemma RecommendedStep(results: seq<StoredResult>, i: nat)
    requires i < |results|
    ensures RecommendedNames(results[..i + 1]) == RecommendedNames(results[..i]) + ResultNames(results[i])
  {
    assert results[..i + 1][..i] == results[..i];
  }

  lemma NamesStep(before: seq<string>, careers: seq<Ranking.TopCareer>, j: nat)
    requires j < |careers|
    ensures before + KeysOf(careers[..j + 1], NameOf) == before + KeysOf(careers[..j], NameOf) + [careers[j].name]
  {
    assert careers[..j + 1][..j] == careers[..j];
  }

  /** The `careerCounts` loop: how often each name is recommended, and the
      order in which the names were first met, which is the order in which
      `Object.entries` lists them. */
  method CountCareers(results: seq<StoredResult>) returns (counts: ScoreMap, order: seq<string>)
    ensures Tallied(counts, order, RecommendedNames(results))
  {
    counts := map[];
    order := [];
    for i := 0 to |results|
      invariant Tallied(counts, order, RecommendedNames(results[..i]))
    {
      RecommendedStep(results, i);
      var top := results[i].topCareers;
      if top.Some? {
        counts, order := CountResult(counts, order, top.value, RecommendedNames(results[..i]));
      } else {
        assert RecommendedNames(results[..i]) + ResultNames(results[i]) == RecommendedNames(results[..i]);
      }
    }
    assert results[..|results|] == results;
  }

  /** The inner `forEach` over the careers of one result. */
  method CountResult(counts0: ScoreMap, order0: seq<string>, careers: seq<Ranking.TopCareer>, ghost before: seq<string>)
    returns (counts: ScoreMap, order: seq<string>)
    requires Tallied(counts0, order0, before)
    ensures Tallied(counts, order, before + KeysOf(careers, NameOf))
  {
    counts, order := counts0, order0;
    assert before + KeysOf(careers[..0], NameOf) == before;
    for j := 0 to |careers|
      invariant Tallied(counts, order, before + KeysOf(careers[..j], NameOf))
    {
      ghost var names := before + KeysOf(careers[..j], NameOf);
      var name := careers[j].name;
      NamesStep(before, careers, j);
      TallyStep(counts, order, names, name);
      if name !in counts {
        order := order + [name];
      }
      counts := Accumulate(counts, name, 1);
    }
    assert careers[..|careers|] == careers;
  }

  /** `counts` and `order` are the counts and the first-seen order of `names`. */
  ghost predicate Tallied(counts: ScoreMap, order: seq<string>, names: seq<string>) {
    && (forall n :: Get(counts, n) == Count(names, n))
    && (forall n :: n in counts <==> n in names)
    && order == Distinct(names)
  }

  /** One step of the counting loop keeps its invariant. */
  lemma TallyStep(counts: ScoreMap, order: seq<string>, names: seq<string>, name: string)
    requires Tallied(counts, order, names)
    ensures Tallied(Accumulate(counts, name, 1), if name in counts then order else order + [name], names + [name])
  {
    forall n ensures Get(Accumulate(counts, name, 1), n) == Count(names + [name], n) {
      CountSnoc(names, name, n);
    }
    DistinctSnoc(names, name);
  }

  /** One entry of `topRecommendedCareers`. */
  datatype CareerCount = CareerCount(name: string, count: int)

  function CountOf(c: CareerCount): real {
    c.count as real
  }

  /** Every recommended name with its count, in first-recommended order. */
  function CareerTally(results: seq<StoredResult>): (t: seq<CareerCount>)
    ensures |t| == |Distinct(RecommendedNames(results))|
    ensures forall i :: 0 <= i < |t| ==>
      t[i].name == Distinct(RecommendedNames(results))[i] && t[i].count == Count(RecommendedNames(results), t[i].name)
  {
    var names := RecommendedNames(results);
    var order := Distinct(names);
    seq(|order|, i requires 0 <= i < |order| => CareerCount(order[i], Count(names, order[i])))
  }

  /** The dashboard lists at most this many careers. */
  const TopRecommendedCount: nat := 10

  /** `topRecommendedCareers`: the tally sorted by descending count (a
      stable sort, ties in first-recommended order), cut to ten. */
  function TopRecommended(results: seq<StoredResult>): seq<CareerCount> {
    var t := CareerTally(results);
    Sort(t, CountOf)[..Min(TopRecommendedCount, |t|)]
  }

  /** What the dashboard returns. */
  datatype AdminStats = AdminStats(
    totalTests: int, uniqueUsers: nat, recentTestsCount: nat, topRecommendedCareers: seq<CareerCount>)

  /** `n || 0` on a count that may be null. */
  function OrZero(n: Option<int>): int {
    if n.Some? then n.value else 0
  }

  /** The size of the `Set` of the e-mail addresses returned, 0 when the
      query returned nothing. */
  function UniqueUsers(emails: Option<seq<string>>): (n: nat)
    ensures emails.None? ==> n == 0
    ensures emails.Some? ==> n == |set e | e in emails.value|
  {
    if emails.None? then 0
    else
      DistinctCardinality(emails.value);
      |Distinct(emails.value)|
  }

  /** The dashboard's figures from what its four queries returned: the row
      count, the `user_email` column, the rows of the last seven days and the
      `top_careers` column (each `None` when the query returned null). */
  function AdminStatsOf(testsCount: Option<int>, userEmails: Option<seq<string>>,
                        recentTests: Option<seq<string>>, allResults: Option<seq<StoredResult>>): AdminStats
  {
    AdminStats(
      OrZero(testsCount),
      UniqueUsers(userEmails),
      if recentTests.Some? then |recentTests.value| else 0,
      TopRecommended(if allResults.Some? then allResults.value else []))
  }

  /** `getAdminStats` once its queries have answered. */
  method GetAdminStats(testsCount: Option<int>, userEmails: Option<seq<string>>,
                       recentTests: Option<seq<string>>, allResults: Option<seq<StoredResult>>)
    returns (stats: AdminStats)
    ensures stats == AdminStatsOf(testsCount, userEmails, recentTests, allResults)
  {
    var results := if allResults.Some? then allResults.value else [];
    var counts, order := CountCareers(results);
    var entries := seq(|order|, i requires 0 <= i < |order| => CareerCount(order[i], Get(counts, order[i])));
    assert entries == CareerTally(results);
    var ranked := Sort(entries, CountOf);
    var top := ranked[..Min(TopRecommendedCount, |ranked|)];
    stats := AdminStats(
      OrZero(testsCount),
      UniqueUsers(userEmails),
      if recentTests.Some? then |recentTests.value| else 0,
      top);
  }

  lemma TallyMembers(results: seq<StoredResult>, c: CareerCount)
    requires c in multiset(CareerTally(results))
    ensures c.name in RecommendedNames(results)
    ensures c.count == Count(RecommendedNames(results), c.name)
  {
    var t := CareerTally(results);
    var k :| 0 <= k < |t| && t[k] == c;
  }

  /** Every entry of the sorted tally is a recommended name with its count. */
  lemma SortedTallyCounts(results: seq<StoredResult>)
    ensures forall i :: 0 <= i < |Sort(CareerTally(results), CountOf)| ==>
      && Sort(CareerTally(results), CountOf)[i].name in RecommendedNames(results)
      && Sort(CareerTally(results), CountOf)[i].count
         == Count(RecommendedNames(results), Sort(CareerTally(results), CountOf)[i].name)
  {
    var sorted := Sort(CareerTally(results), CountOf);
    forall i | 0 <= i < |sorted|
      ensures sorted[i].name in RecommendedNames(results)
      ensures sorted[i].count == Count(RecommendedNames(results), sorted[i].name)
    {
      assert sorted[i] in multiset(sorted);
      TallyMembers(results, sorted[i]);
    }
  }

  /** No name occurs twice in the sorted tally. */
  lemma SortedTallyUnique(results: seq<StoredResult>)
    ensures NoDuplicates(Sort(CareerTally(results), CountOf))
    ensures forall i, j :: 0 <= i < j < |Sort(CareerTally(results), CountOf)| ==>
      Sort(CareerTally(results), CountOf)[i].name != Sort(CareerTally(results), CountOf)[j].name
  {
    var t := CareerTally(results);
    var sorted := Sort(t, CountOf);
    assert NoDuplicates(t) by {
      forall i, j | 0 <= i < j < |t| ensures t[i] != t[j] {
        assert t[i].name != t[j].name;
      }
    }
    NoDuplicatesPermutation(t, sorted);
    SortedTallyCounts(results);
    forall i, j | 0 <= i < j < |sorted| ensures sorted[i].name != sorted[j].name {
      assert sorted[i] != sorted[j];
      assert sorted[i].count == Count(RecommendedNames(results), sorted[i].name);
      assert sorted[j].count == Count(RecommendedNames(results), sorted[j].name);
    }
  }

  /** The dashboard's list holds at most ten careers (fewer only when fewer
      were ever recommended), each with the number of times it was
      recommended, no name twice, in descending order of count. */
  lemma TopRecommendedFacts(results: seq<StoredResult>)
    ensures |TopRecommended(results)| == Min(TopRecommendedCount, |set n | n in RecommendedNames(results)|)
    ensures SortedDesc(TopRecommended(results), CountOf)
    ensures forall i :: 0 <= i < |TopRecommended(results)| ==>
      && TopRecommended(results)[i].name in RecommendedNames(results)
      && TopRecommended(results)[i].count == Count(RecommendedNames(results), TopRecommended(results)[i].name)
    ensures forall i, j :: 0 <= i < j < |TopRecommended(results)| ==>
      TopRecommended(results)[i].name != TopRecommended(results)[j].name
  {
    var names := RecommendedNames(results);
    var t := CareerTally(results);
    var sorted := Sort(t, CountOf);
    var m := Min(TopRecommendedCount, |t|);
    var top := sorted[..m];
    assert top == TopRecommended(results);
    DistinctCardinality(names);
    SortPrefixSorted(t, CountOf, m);
    SortedTallyCounts(results);
    SortedTallyUnique(results);
    forall i | 0 <= i < |top|
      ensures top[i].name in names && top[i].count == Count(names, top[i].name)
    {
      assert top[i] == sorted[i];
    }
    forall i, j | 0 <= i < j < |top| ensures top[i].name != top[j].name {
      assert top[i] == sorted[i] && top[j] == sorted[j];
    }
  }

  lemma RecommendedInTally(results: seq<StoredResult>, n: string)
    requires n in RecommendedNames(results)
    ensures CareerCount(n, Count(RecommendedNames(results), n)) in CareerTally(results)
  {
    var names := RecommendedNames(results);
    DistinctSameElements(names);
    var k :| 0 <= k < |Distinct(names)| && Distinct(names)[k] == n;
    assert CareerTally(results)[k] == CareerCount(n, Count(names, n));
  }

  lemma LeftOut<T>(s: seq<T>, p: seq<T>, y: T)
    requires y in s && y !in p
    ensures y in multiset(s) - multiset(p)
  {
    assert multiset(p)[y] == 0;
  }

  /** A career left off the list was recommended no more often than any
      career on it. */
  lemma TopRecommendedKeepsBest(results: seq<StoredResult>, n: string)
    requires n in RecommendedNames(results)
    requires forall i :: 0 <= i < |TopRecommended(results)| ==> TopRecommended(results)[i].name != n
    ensures forall i :: 0 <= i < |TopRecommended(results)| ==>
      TopRecommended(results)[i].count >= Count(RecommendedNames(results), n)
  {
    var names := RecommendedNames(results);
    var t := CareerTally(results);
    var m := Min(TopRecommendedCount, |t|);
    var top := TopRecommended(results);
    var y := CareerCount(n, Count(names, n));
    RecommendedInTally(results, n);
    assert y !in top;
    LeftOut(t, top, y);
    assert top == Sort(t, CountOf)[..m];
    forall i | 0 <= i < |top| ensures top[i].count >= Count(names, n) {
      SortPrefixKeepsBest(t, CountOf, m, top[i], y);
    }
  }

  /** Careers with equal counts are listed in the order in which they were
      first recommended. */
  lemma TopRecommendedTies(results: seq<StoredResult>, v: real)
    ensures KeyFilter(TopRecommended(results), CountOf, v) <= KeyFilter(CareerTally(results), CountOf, v)
  {
    var t := CareerTally(results);
    SortPrefixStable(t, CountOf, Min(TopRecommendedCount, |t|), v);
  }

  // ---------------------------------------------------------------------
  // saveTestResult

  const NotAuthenticated := "Usuario no autenticado"

  /** `{ success, error? }`. */
  datatype SaveResult = SaveResult(success: bool, error: Option<string>)

  /** One row of the `test_results` table. */
  datatype ResultRow = ResultRow(userId: string, userEmail: string, scores: ScoreMap, topCareers: seq<Ranking.TopCareer>)

  /** The answer of `saveTestResult`: refused with "Usuario no autenticado"
      without a user id or e-mail, otherwise the insert's error message or
      success. */
  function SaveOutcome(userId: string, userEmail: string, insertError: Option<string>): (r: SaveResult)
    ensures r.success <==> userId != "" && userEmail != "" && insertError.None?
    ensures r.success ==> r.error == None
    ensures (userId == "" || userEmail == "") ==> r.error == Some(NotAuthenticated)
    ensures userId != "" && userEmail != "" ==> r.error == insertError
  {
    if userId == "" || userEmail == "" then SaveResult(false, Some(NotAuthenticated))
    else if insertError.Some? then SaveResult(false, insertError)
    else SaveResult(true, None)
  }

  /** The stored results; the database's answer to an insert (its error
      message, if any) is a parameter. */
  class ResultsTable {
    var rows: seq<ResultRow>

    constructor ()
      ensures rows == []
    {
      rows := [];
    }

    /** `saveTestResult`: a row is added exactly when the call succeeds. */
    method SaveTestResult(userId: string, userEmail: string, scores: ScoreMap,
                          topCareers: seq<Ranking.TopCareer>, insertError: Option<string>)
      returns (r: SaveResult)
      modifies this
      ensures r == SaveOutcome(userId, userEmail, insertError)
      ensures r.success ==> rows == old(rows) + [ResultRow(userId, userEmail, scores, topCareers)]
      ensures !r.success ==> rows == old(rows)
    {
      if userId == "" || userEmail == "" {
        return SaveResult(false, Some(NotAuthenticated));
      }
      if insertError.Some? {
        return SaveResult(false, insertError);
      }
      rows := rows + [ResultRow(userId, userEmail, scores, topCareers)];
      return SaveResult(true, None);
    }
  }
}
