# Scam-site detection: URL features and risk scoring

This project models the two analysis components of a browser application that judges
whether a web address looks like a scam site.

- **The URL analyser** (`UrlAnalyzer`) turns a typed address into a flat record of thirteen
  features. It then scores the record with a fixed rule: start at 0.5, add an increment for
  each of eight warning signs, and clamp the result to [0, 1]. The outcome is a prediction:
  a label, a confidence, a risk score, and a `danger`/`safe` category.
- **The feature extractor** (`FeatureExtractor`) derives a richer record from the same
  address, in five groups: basic, structural, security, content and behavioural. It also
  formats each feature's name, value and colour for display.

The Dafny modules are:

- `Text`: the JavaScript string operations the components use, stated over `seq<char>`.
  - `includes`, as `Contains`.
  - `split` with a string separator, as `SplitOn`.
  - ASCII `toLowerCase`/`toUpperCase`.
  - The keyword-counting `reduce`, as `CountContained`.
  - Decimal rendering of integers.
- `UrlParts`: what the URL parser reports, and the structural features both components
  derive from it: subdomain count, top-level domain and path depth.
- `UrlAnalyzer`: the flat feature record, the nine-word counter and `classifyUrl`.
  - `classifyUrl` is a method with a sequence of `if` statements.
  - It is proved against the specification function `Predict(Score(f))`.
  - The score is kept in exact hundredths, so 0.5 is 50 and 0.15 is 15.
- `FeatureExtractor`: the grouped feature record, the keyword counters, the two membership
  tests and the three display helpers.
- `Consistency`: how the two components' records, keyword lists and colours relate.

## Model

| member | source | states |
|---|---|---|
| UrlAnalyzer.CountSuspiciousWords | src/components/UrlAnalyzer.tsx:59-62 | the count of suspicious words is at most the nine listed words |
| UrlAnalyzer.SuspiciousWordsCountedOnce | src/components/UrlAnalyzer.tsx:59-62 | the count equals the number of distinct listed words found in the lower-cased address, so repeated occurrences add nothing |
| UrlAnalyzer.SuspiciousWordsIgnoreCase | src/components/UrlAnalyzer.tsx:61 | upper- or lower-casing the address does not change the count |
| UrlAnalyzer.ClassifyUrl | src/components/UrlAnalyzer.tsx:64-90 | the step-by-step score equals the specification score; the risk score lies in [50, 100]; confidence is twice the distance from 50; the category is `danger` exactly when a warning sign holds; the scam label goes with `danger` |
| UrlAnalyzer.RawScoreUnfolded | src/components/UrlAnalyzer.tsx:66-76 | the unclamped score is 50 plus 15, 25, 20, 30, 20, 20, 15, 25 for each of the eight conditions that holds |
| UrlAnalyzer.RiskScoreRange | src/components/UrlAnalyzer.tsx:78-87 | the score never falls below the base, so clamping only caps it at 100; risk score in [50, 100]; confidence in [0, 100] and equal to twice the risk above 50 |
| UrlAnalyzer.DangerIffAnyCondition | src/components/UrlAnalyzer.tsx:68-88 | the verdict is `danger`, with the label `Suspicious/Scam`, if and only if at least one of the eight conditions holds, because the smallest increment already passes the 0.6 threshold |
| UrlAnalyzer.NoConditionIsLegitimate | src/components/UrlAnalyzer.tsx:81-89 | with no condition holding, the prediction is `Legitimate` with confidence 0, risk 50 and category `safe` |
| UrlAnalyzer.ScoreMonotone | src/components/UrlAnalyzer.tsx:66-81 | making more conditions hold never lowers the score and never turns `danger` into `safe` |
| UrlAnalyzer.OneMoreCondition | src/components/UrlAnalyzer.tsx:66-81 | adding one condition raises the unclamped score by exactly that condition's increment and makes the verdict `danger` |
| UrlAnalyzer.WeightedSumSetOne | src/components/UrlAnalyzer.tsx:69-76 | switching one condition on adds exactly its weight to the sum of increments |
| UrlAnalyzer.WeightedSumMonotone | src/components/UrlAnalyzer.tsx:69-76 | the sum of increments is monotone in the set of conditions that hold |
| UrlAnalyzer.ExplicitSchemeIsDanger | src/components/UrlAnalyzer.tsx:40-49 | an address typed with `http://` or `https://` contains `//`, so `hasRedirect` holds and the verdict is always `danger` |
| UrlAnalyzer.PlainHostIsLegitimate | src/components/UrlAnalyzer.tsx:39-90 | an input of at most 75 characters with no `@` or `/`, a host with at most four dots, at most two suspicious words, HTTPS, no dotted quad and an age of at least 30 days gives the neutral `Legitimate` prediction |
| UrlAnalyzer.BankUpdateExampleIsLegitimate | src/components/UrlAnalyzer.tsx:139 | the quick example `suspicious-bank-update.net`, parsed as an HTTPS host, is judged `Legitimate` with risk 50 whenever its domain is at least 30 days old |
| UrlAnalyzer.AtMostTwoWords | src/components/UrlAnalyzer.tsx:60-61 | a text without `r`, `l`, `g`, `y` and `cc` contains at most two of the nine suspicious words |
| UrlParts.WithSchemeStartsWithHttp | src/components/UrlAnalyzer.tsx:40 | the string handed to the parser always starts with `http`; prefixing `https://` happens exactly when the input lacks it and is idempotent |
| UrlParts.SubdomainCountIsDotsMinusOne | src/components/UrlAnalyzer.tsx:47 | `hostname.split('.').length - 2` is the number of dots minus one, hence at least -1 |
| UrlParts.TldIsAfterLastDot | src/components/UrlAnalyzer.tsx:55 | the top-level domain has no dot; it is the whole host when the host has no dot, and otherwise the host is a prefix, a dot and the top-level domain |
| UrlParts.PathDepthConcat | src/components/UrlAnalyzer.tsx:53 | path depth adds up over two paths joined by `/` |
| UrlParts.PathDepthOfSegments | src/components/UrlAnalyzer.tsx:53 | `/s1/.../sn` built from non-empty segments without `/` has depth n |
| UrlParts.PathDepthZeroIffOnlySlashes | src/components/UrlAnalyzer.tsx:53 | the path depth is 0 if and only if the path consists of slashes only |
| UrlParts.NonEmptyConcat | src/components/UrlAnalyzer.tsx:53 | `filter(p => p)` distributes over concatenation |
| FeatureExtractor.CountSuspiciousKeywords | src/components/FeatureExtractor.tsx:68-77 | the keyword count is at most the twenty listed keywords |
| FeatureExtractor.CountDigitalWords | src/components/FeatureExtractor.tsx:79-84 | the finance-word count is at most the six listed words |
| FeatureExtractor.KeywordsCountedOnce | src/components/FeatureExtractor.tsx:68-84 | each counter equals the number of distinct listed words found in the lower-cased address |
| FeatureExtractor.KeywordCountsIgnoreCase | src/components/FeatureExtractor.tsx:74-83 | neither counter depends on the case of the address |
| FeatureExtractor.ShorteningServiceIsExactHost | src/components/FeatureExtractor.tsx:86-89 | a host is a shortening service if and only if it equals one of the five listed hosts up to case; the answer is case-blind |
| FeatureExtractor.ShorteningServiceExamples | src/components/FeatureExtractor.tsx:86-89 | `Bit.ly` is a shortening service; `www.bit.ly` is not, because the match is on the whole host |
| FeatureExtractor.PopularTldIsExactName | src/components/FeatureExtractor.tsx:91-94 | a top-level domain is popular if and only if it equals one of the six listed names up to case; the answer is case-blind |
| FeatureExtractor.RedirectCountMeansDoubleSlash | src/components/FeatureExtractor.tsx:57-58 | `split('//').length - 1` is positive if and only if the address contains `//` (so 0 without one), and is at most half the address length |
| FeatureExtractor.RedirectCountAdds | src/components/FeatureExtractor.tsx:57 | a `//` placed after a text not ending in `/` adds exactly one to the counts of the texts on either side |
| FeatureExtractor.RedirectCountFromFirst | src/components/FeatureExtractor.tsx:57 | the count is one more than the count after the leftmost `//`; with the zero case this fixes it as the number of non-overlapping occurrences found from the left |
| FeatureExtractor.RedirectCountExample | src/components/FeatureExtractor.tsx:57 | `a//b//c` counts two redirects |
| Text.SplitPairConcat | src/components/FeatureExtractor.tsx:57 | splitting on a doubled character distributes over one occurrence that follows a text not ending in that character |
| FeatureExtractor.AdvancedFeaturesConsistent | src/components/FeatureExtractor.tsx:17-63 | features exist exactly for a non-empty address; the redirect count agrees with the redirect flags; the top-level domain is dot-free with its length recorded; at least -1 subdomains; counts within their lists; `hasPort` exactly when the shown port is the parser's own |
| FeatureExtractor.FormatFeatureNameThirdStepNoOp | src/components/FeatureExtractor.tsx:245-249 | for every key, the third replacement finds no lower-case letter followed by an upper-case one and changes nothing: the caption is the key with its first character upper-cased and a space before each upper-case letter |
| FeatureExtractor.FormatFeatureNameRoundTrip | src/components/FeatureExtractor.tsx:245-249 | for a camel-case key starting with a lower-case letter, removing the caption's spaces and lower-casing its first letter gives the key back |
| FeatureExtractor.FormatFeatureValue | src/components/FeatureExtractor.tsx:251-262 | a boolean is shown as `Yes` exactly when true and `No` exactly when false; any other value is shown as its text, followed by ` days` for `domainAge` and by nothing for every other key, so the `Length`/`Count` branch shows the same as the default |
| FeatureExtractor.FormatFeatureValueNumberRoundTrip | src/components/FeatureExtractor.tsx:251-262 | a number shown for any key parses back to itself; for `domainAge`, after removing the ` days` suffix |
| FeatureExtractor.GetValueColorMeaning | src/components/FeatureExtractor.tsx:264-280 | the colour is one of three; green if and only if a good indicator is present or a bad one absent; red if and only if a good indicator is absent, a bad one present, more than two suspicious words, or an age under 30; slate otherwise |
| Consistency.SuspiciousCountsAgree | src/components/FeatureExtractor.tsx:69-73 | the analyser's nine words are the extractor's first nine, so its count never exceeds the extractor's |
| Consistency.FeatureRecordsAgree | src/components/FeatureExtractor.tsx:30-60 | for the same address, parse and age, the two records agree on lengths, subdomain count, path depth, HTTPS, port, dotted-quad host, `@`, `//`, redirect flags, top-level-domain length and the under-30-days test; the analyser's suspicious-word count is at most the extractor's |
| Consistency.RedIndicatorsAreScoringConditions | src/components/FeatureExtractor.tsx:264-274 | when the colour rule is given the analyser's own feature values (its nine-word count among them), each red indicator is exactly one of the analyser's conditions, so any of them red means a `danger` verdict |
| Consistency.RedKeywordCountWithoutDanger | src/components/FeatureExtractor.tsx:264-274 | the extractor colours its own twenty-keyword count, and red there does not mean `danger`: `amazon-google-apple.com` over HTTPS, at least 30 days old, shows three keywords in red while the analyser counts none of its nine words and judges it `Legitimate` |
| Consistency.NoneOfTheNineWords | src/components/UrlAnalyzer.tsx:60-61 | a text without `u`, `i`, `r`, `y` and `b` contains none of the analyser's nine words |
| Consistency.ThreeBrandsAreThreeKeywords | src/components/FeatureExtractor.tsx:69-76 | a text holding `amazon`, `google` and `apple` holds at least three of the extractor's twenty keywords |
| Consistency.DomainAgeColourAgrees | src/components/FeatureExtractor.tsx:275-277 | the whole-day age shown red is exactly the analyser's condition of an age under 30 days |
| Text.CountIsMatchedWords | src/components/UrlAnalyzer.tsx:61 | over a list without repeats, the `reduce` count equals the number of distinct listed words contained in the text |
| Text.CountIgnoresCase | src/components/UrlAnalyzer.tsx:61 | counting in the lower-cased text gives the same answer for the text, its upper-cased form and its lower-cased form |
| Text.CountCaseBlind | src/components/UrlAnalyzer.tsx:61 | two texts that differ only in the case of their letters give the same count |
| Text.ContainsIffOccurs | src/components/UrlAnalyzer.tsx:48-49 | `includes` holds if and only if the word occurs at some position of the text |
| Text.JoinSplit | src/components/UrlAnalyzer.tsx:47 | joining the pieces of `split` with the separator gives back the original text |
| Text.SplitManyIffContains | src/components/FeatureExtractor.tsx:57 | `split` yields more than one piece if and only if the text contains the separator |
| Text.SplitCountBound | src/components/FeatureExtractor.tsx:57 | each separator occurrence counted by `split` takes its own characters of the text |
| Text.SplitCharCount | src/components/UrlAnalyzer.tsx:47 | splitting on one character gives one more piece than the character's occurrences |
| Text.SplitJoinChar | src/components/UrlAnalyzer.tsx:53 | `split` inverts joining on a character that no part contains |
| Text.LowerInListIffEqualsIgnoringCase | src/components/FeatureExtractor.tsx:88 | the lower-cased text is in a list of lower-case names if and only if it equals one of them up to case |
| Text.ParseIntToString | src/components/FeatureExtractor.tsx:256 | the decimal rendering of an integer parses back to the same integer |

## Left out

- URL parsing (`new URL(...)`) is not modelled: a `ParsedUrl` carries the parser's protocol, host name, port, path, query, fragment and serialised parameters as given, and an address the parser rejects (where the source throws) is outside the model.
- The IPv4 test `/\d{1,3}\.\d{1,3}\.\d{1,3}\.\d{1,3}/` is the boolean `dottedQuadHost` of the parsed parts; regular-expression matching is not modelled.
- `domainAge` comes from `Math.random()` in both components; it is a parameter here (a `real` for the analyser, whole days for the extractor, whose value is floored).
- `hasValidCertificate` (random) and `processingTime` (random) are not part of the records; `getValueColor` still handles the `hasValidCertificate` key.
- `analyzeUrl` (the `trim` guard, the two-second delay, the timestamp and the callback), React state and rendering, `FeatureSection`, `FeatureWeight`, the dashboard, the results view and the app shell are user-interface code and are not part of this model.
- Case mapping covers the ASCII letters only; other Unicode case mappings are not modelled. For example, JavaScript lower-cases the Kelvin sign `K` (U+212A) to `k` and upper-cases the long s `ſ` (U+017F) to `S`.
- UrlAnalyzer.SuspiciousWordsIgnoreCase: case-blindness is proved for the ASCII mapping only. In JavaScript, `ſecure` counts 0 while its upper-cased form `SECURE` counts 1, and `BANK` written with the Kelvin sign counts `bank`.
- FeatureExtractor.KeywordCountsIgnoreCase: case-blindness is proved for the ASCII mapping only; characters such as `ſ`, `ı` (U+0131) or the ligature `ﬁ` (U+FB01) change the counts in JavaScript when the input is upper-cased.
- FeatureExtractor.ShorteningServiceIsExactHost: the case-blind match and its invariance under upper-casing are proved for the ASCII mapping only; non-ASCII case mappings may differ in JavaScript.
- FeatureExtractor.PopularTldIsExactName: the case-blind match and its invariance under upper-casing are proved for the ASCII mapping only; non-ASCII case mappings may differ in JavaScript.
- Text.CountIgnoresCase: proved for the ASCII mapping only; JavaScript's full Unicode mapping can change the count when the text is upper-cased.
- Text.CountCaseBlind: "differ only in case" means differing in ASCII letters only.
- Lengths count characters of `seq<char>`, not UTF-16 code units.
- UrlAnalyzer.ClassifyUrl: floating-point arithmetic is replaced by exact hundredths. The float rounding errors of the sums are far below the 0.5 margin of `Math.round`, and the `> 0.6` test only ever meets 0.5 or a value of at least 0.65, so the exact results are the ones the component returns. The model does not carry the float reasoning itself.
- FeatureExtractor.GetValueColor: JavaScript's coercion of a text value to a number in `value > 2` and `value < 30` is not modelled; a text value compares as not-a-number, so the comparison is false.
- FeatureExtractor.FormatFeatureValue: `${value}` and `String(value)` are modelled for booleans, whole numbers and texts; fractional numbers are not rendered.
- Consistency.RedIndicatorsAreScoringConditions: in the application the two components draw their domain ages independently at random, and the extractor colours its own twenty-keyword count and the random `hasValidCertificate`. So the lemma (and Consistency.FeatureRecordsAgree and Consistency.DomainAgeColourAgrees) relates the two records only for one shared age, and red indicators in the extractor's view do not in general mean `danger` (Consistency.RedKeywordCountWithoutDanger).
- UrlParts.SubdomainCount follows the code: `split('.').length - 2` is not floored, so a host without a dot gives -1.
