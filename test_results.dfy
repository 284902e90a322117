/** The results screen: the second normalisation of the top careers (each
    score as its rounded share of the total, with the rounding drift put on
    the first entry so that the shown scores add up to 100), the catalog
    lookup by name, the colour of a career type, and sending the results by
    e-mail. */
module TestResults {
  import opened Wrappers
  import opened Tally
  import opened Catalog
  import opened JsMath
  import opened Text
  import opened Ranking

  /** `topCareers.reduce((sum, c) => sum + c.score, 0)` */
  function Total(t: seq<TopCareer>): int
  {
    if |t| == 0 then 0 else t[0].score + Total(t[1..])
  }

  /** `Math.round((score / total) * 100)` */
  function Share(score: int, total: int): int
    requires total != 0
  {
    Round(score as real / total as real * 100.0)
  }

  /** Every entry with its score replaced by its rounded share. */
  function Shares(t: seq<TopCareer>, total: int): (r: seq<TopCareer>)
    requires total != 0
    ensures |r| == |t|
    ensures forall i :: 0 <= i < |t| ==> r[i] == TopCareer(t[i].name, t[i].careerType, Share(t[i].score, total))
  {
    if |t| == 0 then [] else [TopCareer(t[0].name, t[0].careerType, Share(t[0].score, total))] + Shares(t[1..], total)
  }

  /** What `normalizeScores` returns: the list itself when the total is 0,
      otherwise the shares with the first one corrected by `100 - Σ shares`. */
  function NormalizedScores(t: seq<TopCareer>): seq<TopCareer>
  {
    var total := Total(t);
    if total == 0 then t
    else
      var s := Shares(t, total);
      var adjusted := Total(s);
      if adjusted != 100 && |s| > 0 then s[0 := s[0].(score := s[0].score + (100 - adjusted))]
      else s
  }

  /** `normalizeScores`: the shares are built into a fresh array, whose first
      entry then absorbs the drift in place. */
  method NormalizeScores(top: seq<TopCareer>) returns (r: seq<TopCareer>)
    ensures r == NormalizedScores(top)
  {
    var total := Total(top);
    if total == 0 {
      return top;
    }
    var normalized := new TopCareer[|top|](i requires 0 <= i < |top| =>
      TopCareer(top[i].name, top[i].careerType, Share(top[i].score, total)));
    assert normalized[..] == Shares(top, total);
    var totalAdjusted := Total(normalized[..]);
    if totalAdjusted != 100 {
      var diff := 100 - totalAdjusted;
      if normalized.Length > 0 {
        normalized[0] := normalized[0].(score := normalized[0].score + diff);
      }
    }
    r := normalized[..];
  }

  lemma {:induction false} TotalUpdateFirst(s: seq<TopCareer>, x: TopCareer)
    requires |s| > 0
    ensures Total(s[0 := x]) == Total(s) - s[0].score + x.score
  {
    assert s[0 := x][1..] == s[1..];
  }

  /** A list whose scores add up to 0 is returned as it is. */
  lemma UnchangedWhenTotalZero(t: seq<TopCareer>)
    requires Total(t) == 0
    ensures NormalizedScores(t) == t
  {
  }

  lemma {:induction false} TotalOfEmpty(t: seq<TopCareer>)
    requires |t| == 0
    ensures Total(t) == 0
  {
  }

  /** Otherwise the normalised scores add up to exactly 100. */
  lemma SumIsHundred(t: seq<TopCareer>)
    requires Total(t) != 0
    ensures Total(NormalizedScores(t)) == 100
  {
    if |t| == 0 {
      TotalOfEmpty(t);
    }
    var s := Shares(t, Total(t));
    if Total(s) != 100 {
      TotalUpdateFirst(s, s[0].(score := s[0].score + (100 - Total(s))));
    }
  }

  /** The entries keep their names and types, in order. */
  lemma NormalizedKeepsNames(t: seq<TopCareer>, i: int)
    requires 0 <= i < |t|
    ensures |NormalizedScores(t)| == |t|
    ensures NormalizedScores(t)[i].name == t[i].name
    ensures NormalizedScores(t)[i].careerType == t[i].careerType
  {
  }

  /** Every entry after the first is its own rounded share of the total;
      the first is its share plus the drift `100 - Σ shares`. */
  lemma NormalizedEntries(t: seq<TopCareer>)
    requires Total(t) != 0
    ensures |t| > 0
    ensures forall i :: 0 < i < |t| ==> NormalizedScores(t)[i].score == Share(t[i].score, Total(t))
    ensures NormalizedScores(t)[0].score
      == Share(t[0].score, Total(t)) + (100 - Total(Shares(t, Total(t))))
  {
    if |t| == 0 {
      TotalOfEmpty(t);
    }
  }

  /** `Σ score / total * 100` over the list, without rounding. */
  function ExactShares(t: seq<TopCareer>, total: int): real
    requires total != 0
  {
    if |t| == 0 then 0.0 else t[0].score as real / total as real * 100.0 + ExactShares(t[1..], total)
  }

  lemma DivAdd(a: real, b: real, d: real)
    requires d != 0.0
    ensures (a + b) / d * 100.0 == a / d * 100.0 + b / d * 100.0
  {
  }

  lemma {:induction false} ExactSharesSum(t: seq<TopCareer>, total: int)
    requires total != 0
    ensures ExactShares(t, total) == Total(t) as real / total as real * 100.0
    decreases |t|
  {
    if |t| > 0 {
      ExactSharesSum(t[1..], total);
      DivAdd(t[0].score as real, Total(t[1..]) as real, total as real);
    }
  }

  /** Each share is within half a point of the exact one, so the shares
      miss the exact sum by less than half a point per entry. */
  lemma {:induction false} SharesNearExact(t: seq<TopCareer>, total: int)
    requires total != 0
    ensures |t| == 0 || ExactShares(t, total) - (|t| as real) / 2.0 < Total(Shares(t, total)) as real
    ensures Total(Shares(t, total)) as real <= ExactShares(t, total) + (|t| as real) / 2.0
    decreases |t|
  {
    if |t| > 0 {
      var s := Shares(t, total);
      SharesNearExact(t[1..], total);
      assert s[1..] == Shares(t[1..], total);
      var x := t[0].score as real / total as real * 100.0;
      assert x - 0.5 < Share(t[0].score, total) as real <= x + 0.5;
      assert Total(s) == s[0].score + Total(s[1..]);
      assert ExactShares(t, total) == x + ExactShares(t[1..], total);
    }
  }

  /** Without rounding the shares add up to exactly 100. */
  lemma ExactSharesHundred(t: seq<TopCareer>)
    requires Total(t) != 0
    ensures ExactShares(t, Total(t)) == 100.0
  {
    var total := Total(t);
    ExactSharesSum(t, total);
    assert total as real / total as real == 1.0;
  }

  lemma DriftArithmetic(n: nat, sum: int)
    requires 100.0 - (n as real) / 2.0 < sum as real <= 100.0 + (n as real) / 2.0
    ensures -(n as real) / 2.0 <= (100 - sum) as real < (n as real) / 2.0
    ensures n <= 5 ==> -2 <= 100 - sum <= 2
  {
  }

  /** The drift put on the first entry is at most half a point per entry:
      `-n/2 <= 100 - Σ shares < n/2`; for the five careers the test keeps
      it is at most 2 either way. */
  lemma DriftBounded(t: seq<TopCareer>)
    requires Total(t) != 0
    ensures var drift := 100 - Total(Shares(t, Total(t)));
      -(|t| as real) / 2.0 <= drift as real < (|t| as real) / 2.0
    ensures |t| <= 5 ==> -2 <= 100 - Total(Shares(t, Total(t))) <= 2
  {
    var total := Total(t);
    if |t| == 0 {
      TotalOfEmpty(t);
    }
    SharesNearExact(t, total);
    ExactSharesHundred(t);
    DriftArithmetic(|t|, Total(Shares(t, total)));
  }

  /** `CAREERS_DATABASE.find((c) => c.name === careerName)` */
  function CareerDetails(catalog: seq<Career>, name: string): (r: Option<Career>)
    ensures r.None? <==> forall i :: 0 <= i < |catalog| ==> catalog[i].name != name
    ensures r.Some? ==> exists i :: (0 <= i < |catalog| && catalog[i] == r.value
      && catalog[i].name == name && forall j :: 0 <= j < i ==> catalog[j].name != name)
  {
    if |catalog| == 0 then None
    else if catalog[0].name == name then Some(catalog[0])
    else
      var r := CareerDetails(catalog[1..], name);
      assert forall i :: 0 < i < |catalog| ==> catalog[i] == catalog[1..][i - 1];
      if r.Some? then
        var k :| 0 <= k < |catalog[1..]| && catalog[1..][k] == r.value
          && catalog[1..][k].name == name && forall j :: 0 <= j < k ==> catalog[1..][j].name != name;
        assert catalog[k + 1] == r.value;
        assert forall j :: 0 < j < k + 1 ==> catalog[j] == catalog[1..][j - 1];
        r
      else r
  }

  const BlueBadge := "bg-blue-100 text-blue-800"
  const GreenBadge := "bg-green-100 text-green-800"
  const PurpleBadge := "bg-purple-100 text-purple-800"
  const GreyBadge := "bg-gray-100 text-gray-800"

  /** The badge colour of a career type. */
  function TypeColor(careerType: string): (c: string)
    ensures careerType == "Universitaria" <==> c == BlueBadge
    ensures careerType == "Técnica" <==> c == GreenBadge
    ensures careerType == "Profesional" <==> c == PurpleBadge
    ensures c == GreyBadge <==> careerType !in {"Universitaria", "Técnica", "Profesional"}
  {
    if careerType == "Universitaria" then BlueBadge
    else if careerType == "Técnica" then GreenBadge
    else if careerType == "Profesional" then PurpleBadge
    else GreyBadge
  }

  /** The body posted to the mail endpoint. */
  datatype SendRequest = SendRequest(email: string, name: string, topCareers: seq<TopCareer>, scores: ScoreMap)

  /** The request for an address, or nothing when the address is empty or
      has no "@"; the name is the part before the first "@". */
  function RequestFor(email: string, topCareers: seq<TopCareer>, scores: ScoreMap): (r: Option<SendRequest>)
    ensures r.None? <==> email == "" || '@' !in email
    ensures r.Some? ==> r.value.email == email && r.value.topCareers == topCareers && r.value.scores == scores
    ensures r.Some? ==> '@' !in r.value.name && r.value.name + "@" <= email
  {
    if email == "" || '@' !in email then None
    else
      SplitFirstPiece(email, '@');
      Some(SendRequest(email, Split(email, '@')[0], topCareers, scores))
  }

  datatype EmailStatus = StatusIdle | StatusSuccess | StatusError

  /** How the POST to the mail endpoint ended. */
  datatype FetchOutcome = ResponseOk | ResponseNotOk | ConnectionFailed

  const InvalidEmailMessage := "Por favor ingresa un email válido"
  const SentMessage := "Resultados enviados correctamente a tu email"
  const SendFailedMessage := "Error al enviar los resultados. Intenta de nuevo."
  const ConnectionMessage := "Error de conexión. Intenta de nuevo."

  /** The e-mail part of the results screen. */
  class ResultsScreen {
    const topCareers: seq<TopCareer>
    const scores: ScoreMap
    var emailForResults: string
    var sendingEmail: bool
    var emailStatus: EmailStatus
    var emailMessage: string

    /** The address field starts as the signed-in user's address, if any. */
    constructor (results: TestResult, userEmail: Option<string>)
      ensures topCareers == NormalizedScores(results.topCareers) && scores == results.scores
      ensures emailForResults == (if userEmail.Some? then userEmail.value else "")
      ensures !sendingEmail && emailStatus == StatusIdle && emailMessage == ""
    {
      topCareers := NormalizedScores(results.topCareers);
      scores := results.scores;
      emailForResults := if userEmail.Some? then userEmail.value else "";
      sendingEmail := false;
      emailStatus := StatusIdle;
      emailMessage := "";
    }

    /** `handleSendResults`: an invalid address is refused without a request;
        otherwise the request is posted and `outcome` says how that went. */
    method SendResults(outcome: FetchOutcome) returns (sent: Option<SendRequest>)
      modifies this
      ensures sent == RequestFor(emailForResults, topCareers, scores)
      ensures emailForResults == old(emailForResults)
      ensures sent.None? ==> emailStatus == StatusError && emailMessage == InvalidEmailMessage && sendingEmail == old(sendingEmail)
      ensures sent.Some? ==> !sendingEmail
      ensures sent.Some? && outcome == ResponseOk ==> emailStatus == StatusSuccess && emailMessage == SentMessage
      ensures sent.Some? && outcome == ResponseNotOk ==> emailStatus == StatusError && emailMessage == SendFailedMessage
      ensures sent.Some? && outcome == ConnectionFailed ==> emailStatus == StatusError && emailMessage == ConnectionMessage
    {
      sent := RequestFor(emailForResults, topCareers, scores);
      if sent.None? {
        emailStatus := StatusError;
        emailMessage := InvalidEmailMessage;
        return;
      }
      sendingEmail := true;
      emailStatus := StatusIdle;
      match outcome {
        case ResponseOk =>
          emailStatus := StatusSuccess;
          emailMessage := SentMessage;
        case ResponseNotOk =>
          emailStatus := StatusError;
          emailMessage := SendFailedMessage;
        case ConnectionFailed =>
          emailStatus := StatusError;
          emailMessage := ConnectionMessage;
      }
      sendingEmail := false;
    }
  }
}
