/** The feature-extractor component: the grouped feature record it derives from the raw
    input and the parsed URL, its keyword counters and list-membership tests, the `//`
    redirect count, and the three display helpers that turn a feature's key and value into
    a caption, a displayed text and a colour class. */
module FeatureExtractor {
  import opened Text
  import opened UrlParts

  datatype Option<T> = None | Some(value: T)

  // ---------------------------------------------------------------------------
  // Keyword counters
  // ---------------------------------------------------------------------------

  const SuspiciousKeywords: seq<string> := [
    "secure", "account", "update", "confirm", "verify", "login", "signin",
    "bank", "paypal", "amazon", "microsoft", "apple", "google", "facebook",
    "urgent", "suspended", "limited", "unlock", "restore", "alert"
  ]

  const DigitalWords: seq<string> := ["crypto", "bitcoin", "wallet", "investment", "trading", "finance"]

  /** How many of the twenty suspicious keywords occur in the lower-cased input. */
  function CountSuspiciousKeywords(url: string): (r: nat)
    ensures r <= 20
  {
    CountContained(SuspiciousKeywords, ToLower(url))
  }

  /** How many of the six finance and crypto words occur in the lower-cased input. */
  function CountDigitalWords(url: string): (r: nat)
    ensures r <= 6
  {
    CountContained(DigitalWords, ToLower(url))
  }

  lemma KeywordListsDistinct()
    ensures Distinct(SuspiciousKeywords)
    ensures Distinct(DigitalWords)
  {
  }

  /** Both counters count each listed word once, however often it occurs. */
  lemma KeywordsCountedOnce(url: string)
    ensures CountSuspiciousKeywords(url) == |Matched(SuspiciousKeywords, ToLower(url))|
    ensures CountDigitalWords(url) == |Matched(DigitalWords, ToLower(url))|
  {
    KeywordListsDistinct();
    CountIsMatchedWords(SuspiciousKeywords, ToLower(url));
    CountIsMatchedWords(DigitalWords, ToLower(url));
  }

  /** Neither counter depends on the case of the input. */
  lemma KeywordCountsIgnoreCase(url: string)
    ensures CountSuspiciousKeywords(ToUpper(url)) == CountSuspiciousKeywords(url)
    ensures CountSuspiciousKeywords(ToLower(url)) == CountSuspiciousKeywords(url)
    ensures CountDigitalWords(ToUpper(url)) == CountDigitalWords(url)
    ensures CountDigitalWords(ToLower(url)) == CountDigitalWords(url)
  {
    CountIgnoresCase(SuspiciousKeywords, url);
    CountIgnoresCase(DigitalWords, url);
  }

  // ---------------------------------------------------------------------------
  // Membership tests
  // ---------------------------------------------------------------------------

  const Shorteners: seq<string> := ["bit.ly", "tinyurl.com", "t.co", "goo.gl", "short.link"]

  const PopularTlds: seq<string> := ["com", "org", "net", "edu", "gov", "mil"]

  /** `shorteners.includes(hostname.toLowerCase())`. */
  function DetectShorteningService(hostname: string): bool {
    ToLower(hostname) in Shorteners
  }

  /** `popular.includes(tld.toLowerCase())`. */
  function IsPopularTld(tld: string): bool {
    ToLower(tld) in PopularTlds
  }

  /** A host is a shortening service exactly when it equals one of the five listed hosts up
      to case: a host that only ends with one, such as `www.bit.ly`, is not. */
  lemma ShorteningServiceIsExactHost(hostname: string)
    ensures DetectShorteningService(hostname) <==>
      exists k :: 0 <= k < |Shorteners| && EqualsIgnoringCase(hostname, Shorteners[k])
    ensures DetectShorteningService(ToUpper(hostname)) == DetectShorteningService(hostname)
  {
    LowerInListIffEqualsIgnoringCase(hostname, Shorteners);
    LowerForgetsCase(hostname);
  }

  lemma ShorteningServiceExamples()
    ensures DetectShorteningService("Bit.ly")
    ensures !DetectShorteningService("www.bit.ly")
  {
    assert ToLower("Bit.ly") == "bit.ly";
    assert |ToLower("www.bit.ly")| == 10 && ToLower("www.bit.ly")[0] == 'w';
  }

  /** A top-level domain is popular exactly when it equals one of the six listed ones up to
      case. */
  lemma PopularTldIsExactName(tld: string)
    ensures IsPopularTld(tld) <==>
      exists k :: 0 <= k < |PopularTlds| && EqualsIgnoringCase(tld, PopularTlds[k])
    ensures IsPopularTld(ToUpper(tld)) == IsPopularTld(tld)
  {
    LowerInListIffEqualsIgnoringCase(tld, PopularTlds);
    LowerForgetsCase(tld);
  }

  // ---------------------------------------------------------------------------
  // Redirects
  // ---------------------------------------------------------------------------

  /** `inputUrl.split('//').length - 1`: the non-overlapping occurrences of `//`. */
  function RedirectCount(inputUrl: string): nat {
    |SplitOn(inputUrl, "//")| - 1
  }

  /** The redirect count is positive exactly when the input contains `//`, and each
      occurrence it counts takes two characters of the input. */
  lemma RedirectCountMeansDoubleSlash(inputUrl: string)
    ensures RedirectCount(inputUrl) >= 1 <==> Contains(inputUrl, "//")
    ensures 2 * RedirectCount(inputUrl) <= |inputUrl|
  {
    SplitManyIffContains(inputUrl, "//");
    SplitCountBound(inputUrl, "//");
  }

  /** Each `//` the scan meets adds one: an occurrence placed after a text not ending in `/`
      is counted on top of the occurrences on either side of it. */
  lemma RedirectCountAdds(a: string, b: string)
    requires a == [] || a[|a| - 1] != '/'
    ensures RedirectCount(a + "//" + b) == RedirectCount(a) + 1 + RedirectCount(b)
  {
    assert "//" == ['/', '/'];
    SplitPairConcat(a, '/', b);
  }

  /** With no `//` the count is 0, and otherwise it is one more than the count after the
      leftmost `//`: together these fix the count as the number of non-overlapping
      occurrences found from the left. */
  lemma RedirectCountFromFirst(s: string, i: nat)
    requires OccursAt(s, "//", i)
    requires forall j :: 0 <= j < i ==> !OccursAt(s, "//", j)
    ensures RedirectCount(s) == 1 + RedirectCount(s[i + 2..])
  {
    var a, b := s[..i], s[i + 2..];
    assert s == a + "//" + b;
    if i > 0 {
      assert !OccursAt(s, "//", i - 1);
      assert s[i - 1..i + 1] == [s[i - 1], s[i]];
      assert s[i] == '/';
      assert a[|a| - 1] == s[i - 1];
    }
    forall j ensures !OccursAt(a, "//", j) {
      if 0 <= j && j + 2 <= |a| {
        assert a[j..j + 2] == s[j..j + 2];
        assert !OccursAt(s, "//", j);
      }
    }
    ContainsIffOccurs(a, "//");
    RedirectCountMeansDoubleSlash(a);
    RedirectCountAdds(a, b);
  }

  /** `"a//b//c".split('//')` has three pieces, so two redirects are counted. */
  lemma RedirectCountExample(s: string)
    requires s == "a//b//c"
    ensures RedirectCount(s) == 2
  {
    RedirectCountMeansDoubleSlash("a");
    RedirectCountMeansDoubleSlash("b");
    RedirectCountMeansDoubleSlash("c");
    assert "b//c" == "b" + "//" + "c";
    RedirectCountAdds("b", "c");
    assert s == "a" + "//" + "b//c";
    RedirectCountAdds("a", "b//c");
  }

  // ---------------------------------------------------------------------------
  // The grouped feature record
  // ---------------------------------------------------------------------------

  datatype Basic = Basic(protocol: string, hostname: string, pathname: string, search: string, port: string)

  datatype Structural = Structural(
    urlLength: nat,
    domainLength: nat,
    pathLength: nat,
    queryLength: nat,
    fragmentLength: nat,
    subdomainCount: int,
    pathDepth: nat,
    parameterCount: nat)

  datatype Security = Security(
    hasHttps: bool,
    hasPort: bool,
    hasIpAddress: bool,
    hasAtSymbol: bool,
    hasDoubleSlash: bool,
    hasHyphen: bool,
    hasUnderscore: bool)

  datatype Content = Content(
    suspiciousWords: nat,
    digitalWords: nat,
    shorteningService: bool,
    tld: string,
    tldLength: nat)

  /** `domainAge` is a whole number of days the caller supplies. */
  datatype Behavioral = Behavioral(redirectCount: nat, hasRedirect: bool, hasPopularTld: bool, domainAge: nat)

  datatype AdvancedFeatures = AdvancedFeatures(
    basic: Basic,
    structural: Structural,
    security: Security,
    content: Content,
    behavioral: Behavioral)

  /** `extractAdvancedFeatures`: nothing for an empty input; otherwise the five feature
      groups of the raw input, given what the parser reported for `WithScheme(inputUrl)`. */
  function ExtractAdvancedFeatures(inputUrl: string, parts: ParsedUrl, domainAge: nat): Option<AdvancedFeatures> {
    if inputUrl == "" then None
    else
      var hostname := parts.hostname;
      var tld := Tld(hostname);
      Some(AdvancedFeatures(
        basic := Basic(
          protocol := parts.protocol,
          hostname := hostname,
          pathname := parts.pathname,
          search := parts.search,
          port := if parts.port == "" then "default" else parts.port),
        structural := Structural(
          urlLength := |inputUrl|,
          domainLength := |hostname|,
          pathLength := |parts.pathname|,
          queryLength := |parts.search|,
          fragmentLength := |parts.hash|,
          subdomainCount := SubdomainCount(hostname),
          pathDepth := PathDepth(parts.pathname),
          parameterCount := parts.paramCount),
        security := Security(
          hasHttps := parts.protocol == "https:",
          hasPort := parts.port != "",
          hasIpAddress := parts.dottedQuadHost,
          hasAtSymbol := Contains(inputUrl, "@"),
          hasDoubleSlash := Contains(inputUrl, "//"),
          hasHyphen := Contains(hostname, "-"),
          hasUnderscore := Contains(hostname, "_")),
        content := Content(
          suspiciousWords := CountSuspiciousKeywords(inputUrl),
          digitalWords := CountDigitalWords(inputUrl),
          shorteningService := DetectShorteningService(hostname),
          tld := tld,
          tldLength := |tld|),
        behavioral := Behavioral(
          redirectCount := RedirectCount(inputUrl),
          hasRedirect := Contains(inputUrl, "//"),
          hasPopularTld := IsPopularTld(tld),
          domainAge := domainAge)))
  }

  /** The groups agree with each other: features present exactly for a non-empty input,
      the redirect count positive exactly when a redirect is flagged, the top-level domain
      free of dots with its length recorded, at least -1 subdomains, and the keyword counts
      within their lists. */
  lemma AdvancedFeaturesConsistent(inputUrl: string, parts: ParsedUrl, domainAge: nat)
    ensures ExtractAdvancedFeatures(inputUrl, parts, domainAge).Some? <==> inputUrl != ""
    ensures ExtractAdvancedFeatures(inputUrl, parts, domainAge).Some? ==>
      var a := ExtractAdvancedFeatures(inputUrl, parts, domainAge).value;
      && (a.behavioral.redirectCount >= 1 <==> a.behavioral.hasRedirect)
      && a.security.hasDoubleSlash == a.behavioral.hasRedirect
      && 2 * a.behavioral.redirectCount <= a.structural.urlLength
      && '.' !in a.content.tld
      && a.content.tldLength == |a.content.tld| <= a.structural.domainLength
      && a.structural.subdomainCount >= -1
      && a.content.suspiciousWords <= 20 && a.content.digitalWords <= 6
      && (a.security.hasPort <==> a.basic.port == parts.port)
  {
    if inputUrl != "" {
      RedirectCountMeansDoubleSlash(inputUrl);
      TldIsAfterLastDot(parts.hostname);
      SubdomainCountIsDotsMinusOne(parts.hostname);
      assert "default" != "";
    }
  }

  // ---------------------------------------------------------------------------
  // Display: feature names
  // ---------------------------------------------------------------------------

  /** `replace(/([A-Z])/g, ' $1')`: a space before every upper-case letter. */
  function SpaceBeforeUpper(s: string): string {
    if s == [] then []
    else (if IsUpper(s[0]) then [' ', s[0]] else [s[0]]) + SpaceBeforeUpper(s[1..])
  }

  /** `replace(/^./, str => str.toUpperCase())`: the first character upper-cased. */
  function UpperFirst(s: string): string {
    if s == [] then [] else [UpperChar(s[0])] + s[1..]
  }

  /** `replace(/([a-z])([A-Z])/g, '$1 $2')`: a space between a lower-case letter and the
      upper-case letter after it, the matches taken from the left without overlapping. */
  function SpaceBetweenLowerUpper(s: string): string {
    if s == [] then []
    else if |s| >= 2 && IsLower(s[0]) && IsUpper(s[1]) then [s[0], ' ', s[1]] + SpaceBetweenLowerUpper(s[2..])
    else [s[0]] + SpaceBetweenLowerUpper(s[1..])
  }

  /** `formatFeatureName`: a camel-case key turned into a caption. */
  function FormatFeatureName(key: string): string {
    SpaceBetweenLowerUpper(UpperFirst(SpaceBeforeUpper(key)))
  }

  /** No lower-case letter is directly followed by an upper-case one. */
  predicate NoLowerUpperPair(s: string) {
    forall i :: 0 <= i < |s| - 1 ==> !(IsLower(s[i]) && IsUpper(s[i + 1]))
  }

  lemma {:induction false} SpaceBetweenLowerUpperNoOp(s: string)
    requires NoLowerUpperPair(s)
    ensures SpaceBetweenLowerUpper(s) == s
  {
    if s != [] {
      assert NoLowerUpperPair(s[1..]);
      SpaceBetweenLowerUpperNoOp(s[1..]);
    }
  }

  /** After the first step every upper-case letter is preceded by a space, and the text does
      not start with an upper-case letter. */
  lemma {:induction false} SpaceBeforeUpperShape(s: string)
    ensures var t := SpaceBeforeUpper(s);
      && (|t| > 0 ==> !IsUpper(t[0]))
      && (forall i :: 0 < i < |t| && IsUpper(t[i]) ==> t[i - 1] == ' ')
      && (|s| > 0 && !IsUpper(s[0]) ==> |t| > 0 && t[0] == s[0])
  {
    if s != [] {
      SpaceBeforeUpperShape(s[1..]);
      var head := if IsUpper(s[0]) then [' ', s[0]] else [s[0]];
      var rest := SpaceBeforeUpper(s[1..]);
      assert SpaceBeforeUpper(s) == head + rest;
      forall i | 0 < i < |head + rest| && IsUpper((head + rest)[i])
        ensures (head + rest)[i - 1] == ' '
      {
        if i > |head| {
          assert (head + rest)[i] == rest[i - |head|];
        }
      }
    }
  }

  /** The third replace never changes anything: the caption is the key with the first
      character upper-cased and a space inserted before each upper-case letter. */
  lemma FormatFeatureNameThirdStepNoOp(key: string)
    ensures FormatFeatureName(key) == UpperFirst(SpaceBeforeUpper(key))
  {
    var t := SpaceBeforeUpper(key);
    SpaceBeforeUpperShape(key);
    var u := UpperFirst(t);
    if t != [] {
      assert u[0] == UpperChar(t[0]) && !IsLower(u[0]);
      assert forall i :: 0 < i < |u| ==> u[i] == t[i];
    }
    SpaceBetweenLowerUpperNoOp(u);
  }

  /** The inverse of the caption format: spaces removed and the first letter lower-cased. */
  function RemoveSpaces(s: string): string {
    if s == [] then [] else (if s[0] == ' ' then [] else [s[0]]) + RemoveSpaces(s[1..])
  }

  function LowerFirst(s: string): string {
    if s == [] then [] else [LowerChar(s[0])] + s[1..]
  }

  lemma {:induction false} RemoveSpacesAfterSpaceBeforeUpper(s: string)
    requires ' ' !in s
    ensures RemoveSpaces(SpaceBeforeUpper(s)) == s
  {
    if s != [] {
      RemoveSpacesAfterSpaceBeforeUpper(s[1..]);
      var head := if IsUpper(s[0]) then [' ', s[0]] else [s[0]];
      RemoveSpacesConcat(head, SpaceBeforeUpper(s[1..]));
      assert RemoveSpaces(head) == [s[0]];
    }
  }

  lemma {:induction false} RemoveSpacesConcat(a: string, b: string)
    ensures RemoveSpaces(a + b) == RemoveSpaces(a) + RemoveSpaces(b)
  {
    if a != [] {
      assert (a + b)[1..] == a[1..] + b;
      RemoveSpacesConcat(a[1..], b);
    } else {
      assert a + b == b;
    }
  }

  /** For a camel-case key starting with a lower-case letter, removing the spaces from the
      caption and lower-casing its first letter gives the key back. */
  lemma FormatFeatureNameRoundTrip(key: string)
    requires |key| > 0 && IsLower(key[0]) && ' ' !in key
    ensures LowerFirst(RemoveSpaces(FormatFeatureName(key))) == key
  {
    FormatFeatureNameThirdStepNoOp(key);
    var t := SpaceBeforeUpper(key);
    SpaceBeforeUpperShape(key);
    RemoveSpacesAfterSpaceBeforeUpper(key);
    var u := UpperFirst(t);
    assert u == [UpperChar(key[0])] + t[1..];
    assert t == [key[0]] + t[1..];
    RemoveSpacesConcat([key[0]], t[1..]);
    RemoveSpacesConcat([UpperChar(key[0])], t[1..]);
    assert RemoveSpaces(u) == [UpperChar(key[0])] + RemoveSpaces(t[1..]);
    assert RemoveSpaces(t) == [key[0]] + RemoveSpaces(t[1..]);
  }

  // ---------------------------------------------------------------------------
  // Display: values and colours
  // ---------------------------------------------------------------------------

  /** A feature value: the record's fields are booleans, whole numbers or texts. */
  datatype Value = Bool(b: bool) | Num(n: int) | Str(s: string)

  /** `String(value)`. */
  function ValueString(v: Value): string {
    match v
    case Bool(b) => if b then "true" else "false"
    case Num(n) => IntToString(n)
    case Str(s) => s
  }

  /** `formatFeatureValue`: `Yes`/`No` for booleans, the value followed by ` days` for the
      domain age, the plain value otherwise. */
  function FormatFeatureValue(key: string, v: Value): (r: string)
    ensures v.Bool? ==> (r == "Yes" <==> v.b) && (r == "No" <==> !v.b)
    ensures !v.Bool? ==> r == ValueString(v) + (if key == "domainAge" then " days" else "")
  {
    if v.Bool? then (if v.b then "Yes" else "No")
    else if Contains(key, "Length") || Contains(key, "Count") then
      ContainsFirstChar(key, "Length");
      ContainsFirstChar(key, "Count");
      assert key != "domainAge";
      ValueString(v)
    else if key == "domainAge" then ValueString(v) + " days"
    else ValueString(v)
  }

  /** A number shown by `formatFeatureValue` can be read back from the display: from the
      whole text, or for the domain age from the text before the ` days` suffix. */
  lemma FormatFeatureValueNumberRoundTrip(key: string, n: int)
    ensures var r := FormatFeatureValue(key, Num(n));
      if key == "domainAge" then
        |r| >= 5 && r[|r| - 5..] == " days" && ParseInt(r[..|r| - 5]) == n
      else ParseInt(r) == n
  {
    ParseIntToString(n);
    if key == "domainAge" {
      ContainsFirstChar(key, "Length");
      ContainsFirstChar(key, "Count");
      var r := FormatFeatureValue(key, Num(n));
      assert r == IntToString(n) + " days";
      assert r[..|r| - 5] == IntToString(n);
    }
  }

  const Emerald := "text-emerald-400"
  const Red := "text-red-400"
  const Slate := "text-slate-300"

  /** JavaScript truthiness of a value. */
  predicate Truthy(v: Value) {
    match v
    case Bool(b) => b
    case Num(n) => n != 0
    case Str(s) => s != ""
  }

  /** `value > k` and `value < k` for a number `k`; a boolean compares as 0 or 1, and a
      text is taken as not a number. */
  predicate GreaterThan(v: Value, k: int) {
    match v
    case Bool(b) => (if b then 1 else 0) > k
    case Num(n) => n > k
    case Str(_) => false
  }

  predicate LessThan(v: Value, k: int) {
    match v
    case Bool(b) => (if b then 1 else 0) < k
    case Num(n) => n < k
    case Str(_) => false
  }

  /** Keys whose true value is good news, and keys whose true value is bad news. */
  const GoodWhenTrue: seq<string> := ["hasHttps", "hasValidCertificate"]
  const BadWhenTrue: seq<string> := ["hasIpAddress", "hasAtSymbol", "hasDoubleSlash"]

  /** `getValueColor`: the rules tried in order, the first that applies deciding. */
  function GetValueColor(key: string, v: Value): string {
    if key == "hasHttps" || key == "hasValidCertificate" then (if Truthy(v) then Emerald else Red)
    else if key == "hasIpAddress" || key == "hasAtSymbol" || key == "hasDoubleSlash" then (if Truthy(v) then Red else Emerald)
    else if key == "suspiciousWords" && GreaterThan(v, 2) then Red
    else if key == "domainAge" && LessThan(v, 30) then Red
    else Slate
  }

  /** The colour is green exactly for a good indicator present or a bad indicator absent,
      and red exactly for a good indicator absent, a bad indicator present, more than two
      suspicious words, or a domain younger than 30 days; every other feature is slate. */
  lemma GetValueColorMeaning(key: string, v: Value)
    ensures GetValueColor(key, v) in {Emerald, Red, Slate}
    ensures GetValueColor(key, v) == Emerald <==>
      (key in GoodWhenTrue && Truthy(v)) || (key in BadWhenTrue && !Truthy(v))
    ensures GetValueColor(key, v) == Red <==>
      || (key in GoodWhenTrue && !Truthy(v))
      || (key in BadWhenTrue && Truthy(v))
      || (key == "suspiciousWords" && GreaterThan(v, 2))
      || (key == "domainAge" && LessThan(v, 30))
  {
    assert key in GoodWhenTrue <==> key == "hasHttps" || key == "hasValidCertificate";
    assert key in BadWhenTrue <==> key == "hasIpAddress" || key == "hasAtSymbol" || key == "hasDoubleSlash";
  }
}
