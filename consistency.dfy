/** How the two components' views of one input relate: for one shared parse and domain age,
    the analyser's flat record and the extractor's grouped record agree on the structural
    and security features, and the analyser's suspicious-word count is at most the
    extractor's, its nine words being the first nine of the twenty keywords. The colour rule
    applied to the analyser's own values marks exactly its scoring conditions in red; the
    extractor's own twenty-keyword count can be red without a `danger` verdict. */
module Consistency {
  import opened Text
  import opened UrlParts
  import UA = UrlAnalyzer
  import FE = FeatureExtractor

  /** The analyser never finds more suspicious words than the extractor: its nine words are
      the first nine of the extractor's twenty. */
  lemma SuspiciousCountsAgree(url: string)
    ensures UA.CountSuspiciousWords(url) <= FE.CountSuspiciousKeywords(url)
  {
    assert FE.SuspiciousKeywords[..9] == UA.SuspiciousWords;
    CountPrefixAtMost(FE.SuspiciousKeywords, 9, ToLower(url));
  }

  /** For the same raw input, parsed parts and domain age (whole days in the extractor),
      the two records agree on the listed shared features, and the analyser's
      suspicious-word count is at most the extractor's. */
  lemma FeatureRecordsAgree(url: string, parts: ParsedUrl, domainAge: real)
    requires url != "" && domainAge >= 0.0
    ensures FE.ExtractAdvancedFeatures(url, parts, domainAge.Floor).Some?
    ensures var f := UA.ExtractFeatures(url, parts, domainAge);
      var a := FE.ExtractAdvancedFeatures(url, parts, domainAge.Floor).value;
      && a.structural.urlLength == f.urlLength
      && a.structural.domainLength == f.domainLength
      && a.structural.subdomainCount == f.subdomainCount
      && a.structural.pathDepth == f.pathDepth
      && a.security.hasHttps == f.hasHttps
      && a.security.hasPort == f.hasPort
      && a.security.hasIpAddress == f.hasIpAddress
      && a.security.hasAtSymbol == f.hasAtSymbol
      && a.security.hasDoubleSlash == f.hasRedirect
      && a.behavioral.hasRedirect == f.hasRedirect
      && (a.behavioral.redirectCount >= 1 <==> f.hasRedirect)
      && a.content.tldLength == f.tldLength
      && f.suspiciousWords <= a.content.suspiciousWords
      && (a.behavioral.domainAge < 30 <==> f.domainAge < 30.0)
  {
    SuspiciousCountsAgree(url);
    FE.RedirectCountMeansDoubleSlash(url);
  }

  /** Given the analyser's own feature values (its nine-word count among them), the colour
      rule shows red exactly for one of the scoring conditions, and any of these shown in
      red means the analyser's verdict is `danger`. */
  lemma RedIndicatorsAreScoringConditions(f: UA.Features)
    ensures FE.GetValueColor("hasIpAddress", FE.Bool(f.hasIpAddress)) == FE.Red <==> f.hasIpAddress
    ensures FE.GetValueColor("hasHttps", FE.Bool(f.hasHttps)) == FE.Red <==> !f.hasHttps
    ensures FE.GetValueColor("hasAtSymbol", FE.Bool(f.hasAtSymbol)) == FE.Red <==> f.hasAtSymbol
    ensures FE.GetValueColor("hasDoubleSlash", FE.Bool(f.hasRedirect)) == FE.Red <==> f.hasRedirect
    ensures FE.GetValueColor("suspiciousWords", FE.Num(f.suspiciousWords)) == FE.Red <==> f.suspiciousWords > 2
    ensures
      || FE.GetValueColor("hasIpAddress", FE.Bool(f.hasIpAddress)) == FE.Red
      || FE.GetValueColor("hasHttps", FE.Bool(f.hasHttps)) == FE.Red
      || FE.GetValueColor("hasAtSymbol", FE.Bool(f.hasAtSymbol)) == FE.Red
      || FE.GetValueColor("hasDoubleSlash", FE.Bool(f.hasRedirect)) == FE.Red
      || FE.GetValueColor("suspiciousWords", FE.Num(f.suspiciousWords)) == FE.Red
      ==> UA.Predict(UA.Score(f)).category == UA.Danger
  {
    assert FE.Red != FE.Emerald && FE.Red != FE.Slate;
    UA.DangerIffAnyCondition(f);
  }

  /** The domain age shown in whole days is red exactly when the analyser's domain-age
      condition holds for the same, unrounded age. */
  lemma DomainAgeColourAgrees(domainAge: real)
    requires domainAge >= 0.0
    ensures FE.GetValueColor("domainAge", FE.Num(domainAge.Floor)) == FE.Red <==> domainAge < 30.0
  {
    assert FE.Red != FE.Slate;
  }

  /** A typed host naming three brands: the extractor's twenty keywords include `amazon`,
      `google` and `apple`, the analyser's nine do not. */
  const BrandHostExample := "amazon-google-apple.com"

  /** The example has no `u`, `i`, `r`, `y`, `b`, `@` or `/`, and no upper-case letter. */
  lemma BrandHostExampleChars(u: string)
    requires u == BrandHostExample
    ensures 'u' !in u && 'i' !in u && 'r' !in u && 'y' !in u && 'b' !in u
    ensures '@' !in u && '/' !in u
    ensures ToLower(u) == u
  {
    assert forall i :: 0 <= i < |u| ==> !IsUpper(u[i]);
  }

  /** The example has one dot. */
  lemma BrandHostExampleOneDot(u: string)
    requires u == BrandHostExample
    ensures multiset(u)['.'] <= 1
  {
    assert forall i :: 0 <= i < |u| && u[i] == '.' ==> i == 19;
    AtMostOnce(u, '.', 19);
  }

  /** Where the three brand names sit in the example. */
  lemma BrandHostExampleBrands(u: string)
    requires u == BrandHostExample
    ensures OccursAt(u, "amazon", 0) && OccursAt(u, "google", 7) && OccursAt(u, "apple", 14)
  {
    assert u[0..6] == "amazon";
    assert u[7..13] == "google";
    assert u[14..19] == "apple";
  }

  /** Without the letters `u`, `i`, `r`, `y` and `b`, none of the analyser's nine words can
      occur. */
  lemma NoneOfTheNineWords(low: string)
    requires 'u' !in low && 'i' !in low && 'r' !in low && 'y' !in low && 'b' !in low
    ensures CountContained(UA.SuspiciousWords, low) == 0
  {
    var w := UA.SuspiciousWords;
    assert w[0][3] == 'u' && w[1][4] == 'u' && w[2][0] == 'u' && w[3][4] == 'i' && w[4][2] == 'r';
    assert w[5][3] == 'i' && w[6][1] == 'i' && w[7][0] == 'b' && w[8][2] == 'y';
    MissingCharNotContained(low, w[0], 3);
    MissingCharNotContained(low, w[1], 4);
    MissingCharNotContained(low, w[2], 0);
    MissingCharNotContained(low, w[3], 4);
    MissingCharNotContained(low, w[4], 2);
    MissingCharNotContained(low, w[5], 3);
    MissingCharNotContained(low, w[6], 1);
    MissingCharNotContained(low, w[7], 0);
    MissingCharNotContained(low, w[8], 2);
    assert Matched(w, low) == {};
    UA.SuspiciousWordsDistinct();
    CountIsMatchedWords(w, low);
  }

  /** A text holding `amazon`, `google` and `apple` holds at least three of the extractor's
      twenty keywords. */
  lemma ThreeBrandsAreThreeKeywords(low: string)
    requires Contains(low, "amazon") && Contains(low, "google") && Contains(low, "apple")
    ensures CountContained(FE.SuspiciousKeywords, low) >= 3
  {
    var m := Matched(FE.SuspiciousKeywords, low);
    var brands := {"amazon", "google", "apple"};
    assert FE.SuspiciousKeywords[9] == "amazon" && FE.SuspiciousKeywords[12] == "google";
    assert FE.SuspiciousKeywords[11] == "apple";
    assert brands <= m;
    assert m == (m - brands) + brands;
    FE.KeywordListsDistinct();
    CountIsMatchedWords(FE.SuspiciousKeywords, low);
  }

  /** More than two of the twenty keywords in a non-empty input are shown in red. */
  lemma ManyKeywordsShownRed(url: string, parts: ParsedUrl, domainAge: nat)
    requires url != "" && FE.CountSuspiciousKeywords(url) > 2
    ensures FE.ExtractAdvancedFeatures(url, parts, domainAge).Some?
    ensures var a := FE.ExtractAdvancedFeatures(url, parts, domainAge).value;
      FE.GetValueColor("suspiciousWords", FE.Num(a.content.suspiciousWords)) == FE.Red
  {
  }

  /** A red suspicious-word count in the extractor does not mean a `danger` verdict: for the
      typed host `amazon-google-apple.com` parsed as an HTTPS host and at least 30 days old,
      the extractor counts three keywords and shows the count in red, while the analyser
      counts none of its nine words and judges the address `Legitimate`. */
  lemma RedKeywordCountWithoutDanger(url: string, parts: ParsedUrl, domainAge: real)
    requires url == BrandHostExample && domainAge >= 30.0
    requires parts == ParsedUrl("https:", url, "", "/", "", "", "", 0, false)
    ensures FE.ExtractAdvancedFeatures(url, parts, domainAge.Floor).Some?
    ensures var a := FE.ExtractAdvancedFeatures(url, parts, domainAge.Floor).value;
      FE.GetValueColor("suspiciousWords", FE.Num(a.content.suspiciousWords)) == FE.Red
    ensures UA.Predict(UA.Score(UA.ExtractFeatures(url, parts, domainAge)))
      == UA.Prediction(UA.LegitimateLabel, 0, 50, UA.Safe)
  {
    BrandHostExampleChars(url);
    BrandHostExampleOneDot(url);
    BrandHostExampleBrands(url);
    OccursAtContains(url, "amazon", 0);
    OccursAtContains(url, "google", 7);
    OccursAtContains(url, "apple", 14);
    ThreeBrandsAreThreeKeywords(url);
    ManyKeywordsShownRed(url, parts, domainAge.Floor);
    NoneOfTheNineWords(url);
    UA.PlainHostIsLegitimate(url, parts, domainAge);
  }
}
