/** The URL analyser component: the flat feature record built from the raw input and the
    parsed URL, the nine-word suspicious-keyword counter, and the scoring rule that turns the
    features into a prediction.

    The score is kept in hundredths: `classifyUrl` starts at 0.5 and adds multiples of 0.05,
    so 50 stands for 0.5, 15 for 0.15, and the clamp to [0, 1] is a clamp to [0, 100]. */
module UrlAnalyzer {
  import opened Text
  import opened UrlParts

  // ---------------------------------------------------------------------------
  // Suspicious words
  // ---------------------------------------------------------------------------

  const SuspiciousWords: seq<string> :=
    ["secure", "account", "update", "confirm", "verify", "login", "signin", "bank", "paypal"]

  /** How many of the nine suspicious words occur in the lower-cased input. */
  function CountSuspiciousWords(url: string): (r: nat)
    ensures r <= 9
  {
    CountContained(SuspiciousWords, ToLower(url))
  }

  lemma SuspiciousWordsDistinct()
    ensures Distinct(SuspiciousWords)
  {
  }

  /** Each listed word adds one however often it occurs: the count is the number of distinct
      listed words found in the lower-cased input. */
  lemma SuspiciousWordsCountedOnce(url: string)
    ensures CountSuspiciousWords(url) == |Matched(SuspiciousWords, ToLower(url))|
  {
    SuspiciousWordsDistinct();
    CountIsMatchedWords(SuspiciousWords, ToLower(url));
  }

  /** The count does not depend on the case of the input. */
  lemma SuspiciousWordsIgnoreCase(url: string)
    ensures CountSuspiciousWords(ToUpper(url)) == CountSuspiciousWords(url)
    ensures CountSuspiciousWords(ToLower(url)) == CountSuspiciousWords(url)
  {
    CountIgnoresCase(SuspiciousWords, url);
  }

  // ---------------------------------------------------------------------------
  // Features
  // ---------------------------------------------------------------------------

  /** The feature record. `domainAge` is a number of days the caller supplies. */
  datatype Features = Features(
    urlLength: nat,
    domainLength: nat,
    hasIpAddress: bool,
    hasHttps: bool,
    subdomainCount: int,
    hasAtSymbol: bool,
    hasRedirect: bool,
    suspiciousWords: nat,
    domainAge: real,
    hasPort: bool,
    pathDepth: nat,
    queryParams: nat,
    tldLength: nat)

  /** The features of the raw input `url`, given what the parser reported for
      `WithScheme(url)` and the domain age. The length, `@`, `//` and keyword features read
      the raw input; the rest read the parsed parts. */
  function ExtractFeatures(url: string, parts: ParsedUrl, domainAge: real): Features {
    Features(
      urlLength := |url|,
      domainLength := |parts.hostname|,
      hasIpAddress := parts.dottedQuadHost,
      hasHttps := parts.protocol == "https:",
      subdomainCount := SubdomainCount(parts.hostname),
      hasAtSymbol := Contains(url, "@"),
      hasRedirect := Contains(url, "//"),
      suspiciousWords := CountSuspiciousWords(url),
      domainAge := domainAge,
      hasPort := parts.port != "",
      pathDepth := PathDepth(parts.pathname),
      queryParams := |parts.serializedParams|,
      tldLength := |Tld(parts.hostname)|)
  }

  // ---------------------------------------------------------------------------
  // Scoring rule
  // ---------------------------------------------------------------------------

  datatype Category = Safe | Danger {
    function Name(): string {
      match this
      case Safe => "safe"
      case Danger => "danger"
    }
  }

  /** `labelText` is the `label` field of the object `classifyUrl` returns. */
  datatype Prediction = Prediction(labelText: string, confidence: int, riskScore: int, category: Category)

  const ScamLabel := "Suspicious/Scam"
  const LegitimateLabel := "Legitimate"

  /** The starting score, 0.5. */
  const Base := 50

  /** The increments, in the order the conditions are tested. */
  const Weights: seq<nat> := [15, 25, 20, 30, 20, 20, 15, 25]

  /** The eight conditions, in the order they are tested. */
  function Conditions(f: Features): (c: seq<bool>)
    ensures |c| == |Weights|
  {
    [ f.urlLength > 75,
      f.hasIpAddress,
      !f.hasHttps,
      f.hasAtSymbol,
      f.hasRedirect,
      f.suspiciousWords > 2,
      f.subdomainCount > 3,
      f.domainAge < 30.0 ]
  }

  /** At least one of the eight conditions holds, written out independently of `Conditions`. */
  predicate AnyCondition(f: Features) {
    f.urlLength > 75 || f.hasIpAddress || !f.hasHttps || f.hasAtSymbol || f.hasRedirect ||
    f.suspiciousWords > 2 || f.subdomainCount > 3 || f.domainAge < 30.0
  }

  function Term(holds: bool, weight: nat): nat {
    if holds then weight else 0
  }

  /** The sum of the weights of the conditions that hold. */
  function WeightedSum(c: seq<bool>, w: seq<nat>): nat
    requires |c| == |w|
  {
    if c == [] then 0 else Term(c[0], w[0]) + WeightedSum(c[1..], w[1..])
  }

  function Min(a: int, b: int): int { if a < b then a else b }

  function Max(a: int, b: int): int { if a < b then b else a }

  function Abs(x: int): nat { if x < 0 then -x else x }

  /** `Math.max(0, Math.min(1, score))` in hundredths. */
  function Clamp(x: int): int { Max(0, Min(100, x)) }

  /** The score before the clamp. */
  function RawScore(f: Features): int {
    Base + WeightedSum(Conditions(f), Weights)
  }

  /** The clamped score, in hundredths. */
  function Score(f: Features): int {
    Clamp(RawScore(f))
  }

  /** The prediction for a clamped score in hundredths: scam above 0.6, the confidence
      `round(|score - 0.5| * 2 * 100)` and the risk score `round(score * 100)`, both exact
      on hundredths. */
  function Predict(score: int): Prediction {
    var isScam := score > 60;
    Prediction(
      labelText := if isScam then ScamLabel else LegitimateLabel,
      confidence := Abs(score - 50) * 2,
      riskScore := score,
      category := if isScam then Danger else Safe)
  }

  /** The raw score is the base plus the increment of each condition that holds, in the
      order the conditions are tested. */
  lemma RawScoreUnfolded(f: Features)
    ensures RawScore(f) ==
      Base + Term(f.urlLength > 75, 15) + Term(f.hasIpAddress, 25) + Term(!f.hasHttps, 20) +
      Term(f.hasAtSymbol, 30) + Term(f.hasRedirect, 20) + Term(f.suspiciousWords > 2, 20) +
      Term(f.subdomainCount > 3, 15) + Term(f.domainAge < 30.0, 25)
  {
    var c, w := Conditions(f), Weights;
    assert WeightedSum(c, w) == Term(c[0], 15) + WeightedSum(c[1..], w[1..]);
    assert WeightedSum(c[1..], w[1..]) == Term(c[1], 25) + WeightedSum(c[2..], w[2..]);
    assert WeightedSum(c[2..], w[2..]) == Term(c[2], 20) + WeightedSum(c[3..], w[3..]);
    assert WeightedSum(c[3..], w[3..]) == Term(c[3], 30) + WeightedSum(c[4..], w[4..]);
    assert WeightedSum(c[4..], w[4..]) == Term(c[4], 20) + WeightedSum(c[5..], w[5..]);
    assert WeightedSum(c[5..], w[5..]) == Term(c[5], 20) + WeightedSum(c[6..], w[6..]);
    assert WeightedSum(c[6..], w[6..]) == Term(c[6], 15) + WeightedSum(c[7..], w[7..]);
    assert WeightedSum(c[7..], w[7..]) == Term(c[7], 25) + WeightedSum(c[8..], w[8..]);
  }

  /** `classifyUrl`: starts at 0.5, adds the increment of each condition that holds, clamps,
      and derives the prediction. */
  method ClassifyUrl(f: Features) returns (p: Prediction)
    ensures p == Predict(Score(f))
    ensures 50 <= p.riskScore <= 100 && p.confidence == 2 * (p.riskScore - 50)
    ensures p.category == Danger <==> AnyCondition(f)
    ensures p.labelText == ScamLabel <==> p.category == Danger
  {
    var score := Base;
    if f.urlLength > 75 { score := score + 15; }
    if f.hasIpAddress { score := score + 25; }
    if !f.hasHttps { score := score + 20; }
    if f.hasAtSymbol { score := score + 30; }
    if f.hasRedirect { score := score + 20; }
    if f.suspiciousWords > 2 { score := score + 20; }
    if f.subdomainCount > 3 { score := score + 15; }
    if f.domainAge < 30.0 { score := score + 25; }
    RawScoreUnfolded(f);
    assert score == RawScore(f);

    score := Max(0, Min(100, score));

    var isScam := score > 60;
    var confidence := Abs(score - 50) * 2;
    p := Prediction(
      labelText := if isScam then ScamLabel else LegitimateLabel,
      confidence := confidence,
      riskScore := score,
      category := if isScam then Danger else Safe);
    RiskScoreRange(f);
    DangerIffAnyCondition(f);
  }

  // ---------------------------------------------------------------------------
  // Properties of the scoring rule
  // ---------------------------------------------------------------------------

  /** A condition that holds contributes its whole weight. */
  lemma {:induction false} WeightedSumAtLeast(c: seq<bool>, w: seq<nat>, i: nat)
    requires |c| == |w| && i < |c| && c[i]
    ensures WeightedSum(c, w) >= w[i]
  {
    if i > 0 {
      WeightedSumAtLeast(c[1..], w[1..], i - 1);
    }
  }

  /** With no condition holding, nothing is added. */
  lemma {:induction false} WeightedSumNone(c: seq<bool>, w: seq<nat>)
    requires |c| == |w| && forall i :: 0 <= i < |c| ==> !c[i]
    ensures WeightedSum(c, w) == 0
  {
    if c != [] {
      WeightedSumNone(c[1..], w[1..]);
    }
  }

  /** Condition vector `a` holds nowhere that `b` does not. */
  predicate Implies(a: seq<bool>, b: seq<bool>) {
    |a| == |b| && forall i :: 0 <= i < |a| ==> (a[i] ==> b[i])
  }

  lemma {:induction false} WeightedSumMonotone(a: seq<bool>, b: seq<bool>, w: seq<nat>)
    requires |a| == |w| && Implies(a, b)
    ensures WeightedSum(a, w) <= WeightedSum(b, w)
  {
    if a != [] {
      WeightedSumMonotone(a[1..], b[1..], w[1..]);
    }
  }

  /** Making one condition hold that did not adds exactly its weight. */
  lemma {:induction false} WeightedSumSetOne(c: seq<bool>, w: seq<nat>, i: nat)
    requires |c| == |w| && i < |c| && !c[i]
    ensures WeightedSum(c[i := true], w) == WeightedSum(c, w) + w[i]
  {
    if i > 0 {
      assert c[i := true][1..] == c[1..][i - 1 := true];
      WeightedSumSetOne(c[1..], w[1..], i - 1);
    }
  }

  /** The score never drops below the 0.5 base and never exceeds 1: the clamp to 0 is never
      used, and the confidence stays in [0, 100]. */
  lemma RiskScoreRange(f: Features)
    ensures RawScore(f) >= Base
    ensures Score(f) == Min(100, RawScore(f))
    ensures 50 <= Predict(Score(f)).riskScore <= 100
    ensures 0 <= Predict(Score(f)).confidence <= 100
    ensures Predict(Score(f)).confidence == 2 * (Predict(Score(f)).riskScore - 50)
  {
  }

  /** The prediction is `danger` exactly when at least one condition holds: the smallest
      increment, 0.15, already lifts the score past the 0.6 cut-off. */
  lemma DangerIffAnyCondition(f: Features)
    ensures Predict(Score(f)).category == Danger <==> AnyCondition(f)
    ensures Predict(Score(f)).labelText == ScamLabel <==> AnyCondition(f)
  {
    var c := Conditions(f);
    if AnyCondition(f) {
      var i :=
        if c[0] then 0 else if c[1] then 1 else if c[2] then 2 else if c[3] then 3
        else if c[4] then 4 else if c[5] then 5 else if c[6] then 6 else 7;
      WeightedSumAtLeast(c, Weights, i);
    } else {
      WeightedSumNone(c, Weights);
    }
  }

  /** With no condition holding, the result is the neutral prediction. */
  lemma NoConditionIsLegitimate(f: Features)
    requires !AnyCondition(f)
    ensures Predict(Score(f)) == Prediction(LegitimateLabel, 0, 50, Safe)
  {
    WeightedSumNone(Conditions(f), Weights);
  }

  /** More conditions holding never lowers the risk score and never turns `danger` into
      `safe`. */
  lemma ScoreMonotone(f: Features, g: Features)
    requires Implies(Conditions(f), Conditions(g))
    ensures Score(f) <= Score(g)
    ensures Predict(Score(f)).riskScore <= Predict(Score(g)).riskScore
    ensures Predict(Score(f)).category == Danger ==> Predict(Score(g)).category == Danger
  {
    WeightedSumMonotone(Conditions(f), Conditions(g), Weights);
  }

  /** Making the `i`-th condition hold in addition raises the raw score by its increment. */
  lemma OneMoreCondition(f: Features, g: Features, i: nat)
    requires i < |Weights| && !Conditions(f)[i]
    requires Conditions(g) == Conditions(f)[i := true]
    ensures RawScore(g) == RawScore(f) + Weights[i]
    ensures Score(f) <= Score(g)
    ensures Predict(Score(g)).category == Danger
  {
    WeightedSumSetOne(Conditions(f), Weights, i);
    WeightedSumAtLeast(Conditions(g), Weights, i);
  }

  /** Every input typed with an explicit `http://` or `https://` contains `//`, so it is
      flagged as a redirect and always classified `danger`. */
  lemma ExplicitSchemeIsDanger(url: string, parts: ParsedUrl, domainAge: real)
    requires StartsWith(url, "http://") || StartsWith(url, "https://")
    ensures ExtractFeatures(url, parts, domainAge).hasRedirect
    ensures Predict(Score(ExtractFeatures(url, parts, domainAge))).category == Danger
  {
    if StartsWith(url, "http://") {
      assert url[5..7] == "http://"[5..7];
      OccursAtContains(url, "//", 5);
    } else {
      assert url[6..8] == "https://"[6..8];
      OccursAtContains(url, "//", 6);
    }
    DangerIffAnyCondition(ExtractFeatures(url, parts, domainAge));
  }

  const BankUpdateExample := "suspicious-bank-update.net"

  /** The example has no `r`, `l`, `g`, `y`, `@` or `/`, and no upper-case letter. */
  lemma BankUpdateExampleChars(u: string)
    requires u == BankUpdateExample
    ensures 'r' !in u && 'l' !in u && 'g' !in u && 'y' !in u && '@' !in u && '/' !in u
    ensures ToLower(u) == u
  {
    assert forall i :: 0 <= i < |u| ==> !IsUpper(u[i]);
  }

  /** The example's one `c` is not doubled. */
  lemma BankUpdateExampleNoDoubleC(u: string)
    requires u == BankUpdateExample
    ensures !Contains(u, "cc")
  {
    assert forall i :: 0 <= i < |u| && u[i] == 'c' ==> i == 5;
    assert u[6] == 'i';
    forall i ensures !OccursAt(u, "cc", i) {
      if 0 <= i && i + 2 <= |u| {
        assert u[i..i + 2][0] == u[i] && u[i..i + 2][1] == u[i + 1];
      }
    }
    ContainsIffOccurs(u, "cc");
  }

  /** The example has at most one dot. */
  lemma BankUpdateExampleOneDot(u: string)
    requires u == BankUpdateExample
    ensures multiset(u)['.'] <= 1
  {
    assert forall i :: 0 <= i < |u| && u[i] == '.' ==> i == 22;
    AtMostOnce(u, '.', 22);
  }

  /** Without the letters `r`, `l`, `g`, `y` and the pair `cc`, only `update` and `bank` of
      the nine words can occur. */
  lemma AtMostTwoWords(low: string)
    requires 'r' !in low && 'l' !in low && 'g' !in low && 'y' !in low && !Contains(low, "cc")
    ensures CountContained(SuspiciousWords, low) <= 2
  {
    var w := SuspiciousWords;
    assert w[0][4] == 'r' && w[3][5] == 'r' && w[4][2] == 'r' && w[5][0] == 'l' && w[6][2] == 'g' && w[8][2] == 'y';
    MissingCharNotContained(low, w[0], 4);
    MissingCharNotContained(low, w[3], 5);
    MissingCharNotContained(low, w[4], 2);
    MissingCharNotContained(low, w[5], 0);
    MissingCharNotContained(low, w[6], 2);
    MissingCharNotContained(low, w[8], 2);
    assert w[1][1..3] == "cc";
    ContainsInfix(low, w[1], 1, 3);
    assert CountContained(w[..0], low) == 0;
    assert w[..1][..0] == w[..0] && w[..1][0] == w[0];
    assert CountContained(w[..1], low) == 0;
    assert w[..2][..1] == w[..1] && w[..2][1] == w[1];
    assert CountContained(w[..2], low) == 0;
    assert w[..3][..2] == w[..2];
    assert CountContained(w[..3], low) <= 1;
    assert w[..4][..3] == w[..3] && w[..4][3] == w[3];
    assert CountContained(w[..4], low) <= 1;
    assert w[..5][..4] == w[..4] && w[..5][4] == w[4];
    assert CountContained(w[..5], low) <= 1;
    assert w[..6][..5] == w[..5] && w[..6][5] == w[5];
    assert CountContained(w[..6], low) <= 1;
    assert w[..7][..6] == w[..6] && w[..7][6] == w[6];
    assert CountContained(w[..7], low) <= 1;
    assert w[..8][..7] == w[..7];
    assert CountContained(w[..8], low) <= 2;
    assert w[..9][..8] == w[..8] && w[..9][8] == w[8];
    assert w[..9] == w;
  }

  /** A host of at most 75 characters typed without scheme, `@`, `/` or more than two
      suspicious words, with at most four dots, scores as legitimate: the shape of the quick
      example below. */
  lemma PlainHostIsLegitimate(url: string, parts: ParsedUrl, domainAge: real)
    requires |url| <= 75 && '@' !in url && '/' !in url && CountSuspiciousWords(url) <= 2
    requires parts.protocol == "https:" && !parts.dottedQuadHost && multiset(parts.hostname)['.'] <= 4
    requires domainAge >= 30.0
    ensures Predict(Score(ExtractFeatures(url, parts, domainAge))) == Prediction(LegitimateLabel, 0, 50, Safe)
  {
    MissingCharNotContained(url, "@", 0);
    MissingCharNotContained(url, "//", 0);
    SubdomainCountIsDotsMinusOne(parts.hostname);
    NoConditionIsLegitimate(ExtractFeatures(url, parts, domainAge));
  }

  /** The quick example `suspicious-bank-update.net`, typed without a scheme and parsed as
      `https://suspicious-bank-update.net/`, holds at most two suspicious words, below the
      threshold, and so is classified `Legitimate` whenever its domain is 30 days or older. */
  lemma BankUpdateExampleIsLegitimate(url: string, parts: ParsedUrl, domainAge: real)
    requires url == BankUpdateExample && domainAge >= 30.0
    requires parts == ParsedUrl("https:", url, "", "/", "", "", "", 0, false)
    ensures Predict(Score(ExtractFeatures(url, parts, domainAge))) == Prediction(LegitimateLabel, 0, 50, Safe)
  {
    BankUpdateExampleChars(url);
    BankUpdateExampleNoDoubleC(url);
    AtMostTwoWords(url);
    BankUpdateExampleOneDot(url);
    PlainHostIsLegitimate(url, parts, domainAge);
  }
}
