/** String operations that the two analyser components use on the raw input and on the
    parsed parts of a URL: ASCII case mapping (`toLowerCase`, `toUpperCase`), substring
    containment (`includes`), splitting on a separator (`split`) and its inverse (`join`),
    counting which words of a list occur in a text (the `reduce` over a keyword list), and
    the decimal rendering of integers (`String(n)`). */
module Text {

  // ---------------------------------------------------------------------------
  // Case mapping (ASCII letters only)
  // ---------------------------------------------------------------------------

  predicate IsUpper(c: char) { 'A' <= c <= 'Z' }

  predicate IsLower(c: char) { 'a' <= c <= 'z' }

  function LowerChar(c: char): char {
    if IsUpper(c) then (c as int - 'A' as int + 'a' as int) as char else c
  }

  function UpperChar(c: char): char {
    if IsLower(c) then (c as int - 'a' as int + 'A' as int) as char else c
  }

  /** `s.toLowerCase()` on the ASCII letters. */
  function ToLower(s: string): (r: string)
    ensures |r| == |s|
    ensures forall i :: 0 <= i < |s| ==> r[i] == LowerChar(s[i])
  {
    seq(|s|, i requires 0 <= i < |s| => LowerChar(s[i]))
  }

  /** `s.toUpperCase()` on the ASCII letters. */
  function ToUpper(s: string): (r: string)
    ensures |r| == |s|
    ensures forall i :: 0 <= i < |s| ==> r[i] == UpperChar(s[i])
  {
    seq(|s|, i requires 0 <= i < |s| => UpperChar(s[i]))
  }

  predicate IsLowerCase(s: string) {
    forall i :: 0 <= i < |s| ==> !IsUpper(s[i])
  }

  /** Lower-casing forgets every earlier case mapping: a text, its upper-cased form and its
      lower-cased form all lower-case to the same text. */
  lemma LowerForgetsCase(s: string)
    ensures ToLower(ToUpper(s)) == ToLower(s)
    ensures ToLower(ToLower(s)) == ToLower(s)
    ensures IsLowerCase(ToLower(s))
  {
    assert forall i :: 0 <= i < |s| ==> ToLower(ToUpper(s))[i] == ToLower(s)[i];
    assert forall i :: 0 <= i < |s| ==> ToLower(ToLower(s))[i] == ToLower(s)[i];
  }

  /** Two texts are equal up to the case of their ASCII letters. */
  predicate EqualsIgnoringCase(a: string, b: string) {
    |a| == |b| && forall i :: 0 <= i < |a| ==> LowerChar(a[i]) == LowerChar(b[i])
  }

  /** `list.includes(x.toLowerCase())` over a list of lower-case entries is a case-blind
      comparison of `x` against every entry. */
  lemma {:induction false} LowerInListIffEqualsIgnoringCase(x: string, list: seq<string>)
    requires forall k :: 0 <= k < |list| ==> IsLowerCase(list[k])
    ensures ToLower(x) in list <==> exists k :: 0 <= k < |list| && EqualsIgnoringCase(x, list[k])
  {
    if ToLower(x) in list {
      var k :| 0 <= k < |list| && list[k] == ToLower(x);
      assert EqualsIgnoringCase(x, list[k]);
    }
    if exists k :: 0 <= k < |list| && EqualsIgnoringCase(x, list[k]) {
      var k :| 0 <= k < |list| && EqualsIgnoringCase(x, list[k]);
      forall i | 0 <= i < |x| ensures ToLower(x)[i] == list[k][i] {
        assert LowerChar(list[k][i]) == list[k][i];
      }
      assert ToLower(x) == list[k];
    }
  }

  // ---------------------------------------------------------------------------
  // Prefixes and containment
  // ---------------------------------------------------------------------------

  /** `text.startsWith(prefix)`. */
  predicate StartsWith(text: string, prefix: string) {
    |prefix| <= |text| && text[..|prefix|] == prefix
  }

  /** `text.includes(w)`: the search tries each starting position from the left. */
  predicate Contains(text: string, w: string)
    decreases |text|
  {
    if StartsWith(text, w) then true
    else if |text| == 0 then false
    else Contains(text[1..], w)
  }

  /** `w` occurs in `text` starting at position `i`. */
  predicate OccursAt(text: string, w: string, i: int) {
    0 <= i && i + |w| <= |text| && text[i..i + |w|] == w
  }

  lemma {:induction false} OccursAtContains(text: string, w: string, i: int)
    requires OccursAt(text, w, i)
    ensures Contains(text, w)
    decreases i
  {
    if i == 0 {
      assert StartsWith(text, w);
    } else if !StartsWith(text, w) {
      assert text[1..][i - 1..i - 1 + |w|] == text[i..i + |w|];
      OccursAtContains(text[1..], w, i - 1);
    }
  }

  /** The left-to-right search agrees with the positional definition of an occurrence. */
  lemma {:induction false} ContainsIffOccurs(text: string, w: string)
    ensures Contains(text, w) <==> exists i :: OccursAt(text, w, i)
    decreases |text|
  {
    if exists i :: OccursAt(text, w, i) {
      var i :| OccursAt(text, w, i);
      OccursAtContains(text, w, i);
    }
    if Contains(text, w) {
      if StartsWith(text, w) {
        assert OccursAt(text, w, 0);
      } else {
        ContainsIffOccurs(text[1..], w);
        var i :| OccursAt(text[1..], w, i);
        assert text[i + 1..i + 1 + |w|] == text[1..][i..i + |w|];
        assert OccursAt(text, w, i + 1);
      }
    }
  }

  /** A text containing `w` contains the first character of `w`. */
  lemma ContainsFirstChar(text: string, w: string)
    requires |w| > 0
    ensures Contains(text, w) ==> w[0] in text
  {
    ContainsIffOccurs(text, w);
    if Contains(text, w) {
      var i :| OccursAt(text, w, i);
      assert text[i] == text[i..i + |w|][0];
    }
  }

  /** A text containing `w` contains every character of `w`. */
  lemma ContainsChars(text: string, w: string)
    ensures Contains(text, w) ==> forall k :: 0 <= k < |w| ==> w[k] in text
  {
    ContainsIffOccurs(text, w);
    if Contains(text, w) {
      var i :| OccursAt(text, w, i);
      forall k | 0 <= k < |w| ensures w[k] in text {
        assert text[i + k] == text[i..i + |w|][k];
      }
    }
  }

  /** A text missing one of the characters of `w` does not contain `w`. */
  lemma MissingCharNotContained(text: string, w: string, k: nat)
    requires k < |w| && w[k] !in text
    ensures !Contains(text, w)
  {
    ContainsChars(text, w);
  }

  /** A text containing `w` contains every piece of `w`. */
  lemma ContainsInfix(text: string, w: string, a: nat, b: nat)
    requires a <= b <= |w|
    ensures Contains(text, w) ==> Contains(text, w[a..b])
  {
    ContainsIffOccurs(text, w);
    if Contains(text, w) {
      var i :| OccursAt(text, w, i);
      forall k | 0 <= k < b - a
        ensures text[i + a..i + b][k] == w[a..b][k]
      {
        assert text[i + a + k] == text[i..i + |w|][a + k];
      }
      assert text[i + a..i + b] == w[a..b];
      OccursAtContains(text, w[a..b], i + a);
    }
  }

  // ---------------------------------------------------------------------------
  // Keyword lists: how many words of a list occur in a text
  // ---------------------------------------------------------------------------

  /** `words.reduce((count, word) => count + (text.includes(word) ? 1 : 0), 0)`. */
  function CountContained(words: seq<string>, text: string): (r: nat)
    ensures r <= |words|
  {
    if words == [] then 0
    else CountContained(words[..|words| - 1], text) + (if Contains(text, words[|words| - 1]) then 1 else 0)
  }

  predicate Distinct(words: seq<string>) {
    forall i, j :: 0 <= i < j < |words| ==> words[i] != words[j]
  }

  /** The keywords of the list that occur in the text, as a set. */
  ghost function Matched(words: seq<string>, text: string): set<string> {
    set w | w in words && Contains(text, w)
  }

  /** Appending one word to the list adds it to the matched set exactly when it occurs. */
  lemma MatchedSnoc(init: seq<string>, last: string, text: string)
    ensures Matched(init + [last], text) == Matched(init, text) + (if Contains(text, last) then {last} else {})
  {
    forall w | w in init + [last] ensures w in init || w == last {
    }
  }

  /** Over a list without repeats, the count is the number of distinct listed words found in
      the text: a word adds one however often it occurs. */
  lemma {:induction false} CountIsMatchedWords(words: seq<string>, text: string)
    requires Distinct(words)
    ensures CountContained(words, text) == |Matched(words, text)|
  {
    if words != [] {
      var init, last := words[..|words| - 1], words[|words| - 1];
      assert words == init + [last];
      assert Distinct(init) by {
        forall i, j | 0 <= i < j < |init| ensures init[i] != init[j] {
          assert init[i] == words[i] && init[j] == words[j];
        }
      }
      CountIsMatchedWords(init, text);
      assert last !in init by {
        forall i | 0 <= i < |init| ensures init[i] != last {
          assert init[i] == words[i];
        }
      }
      MatchedSnoc(init, last, text);
      assert last !in Matched(init, text);
    } else {
      assert Matched(words, text) == {};
    }
  }

  /** Dropping words from the end of a list never raises the count. */
  lemma {:induction false} CountPrefixAtMost(words: seq<string>, k: nat, text: string)
    requires k <= |words|
    ensures CountContained(words[..k], text) <= CountContained(words, text)
    decreases |words|
  {
    if k < |words| {
      var init := words[..|words| - 1];
      assert words[..k] == init[..k];
      CountPrefixAtMost(init, k, text);
    } else {
      assert words[..k] == words;
    }
  }

  /** Counting over a lower-cased text ignores the case of the input. */
  lemma CountIgnoresCase(words: seq<string>, s: string)
    ensures CountContained(words, ToLower(ToUpper(s))) == CountContained(words, ToLower(s))
    ensures CountContained(words, ToLower(ToLower(s))) == CountContained(words, ToLower(s))
  {
    LowerForgetsCase(s);
  }

  /** Two texts that differ only in the case of their letters contain the same listed
      words. */
  lemma CountCaseBlind(words: seq<string>, s: string, t: string)
    requires EqualsIgnoringCase(s, t)
    ensures CountContained(words, ToLower(s)) == CountContained(words, ToLower(t))
  {
    assert ToLower(s) == ToLower(t);
  }

  // ---------------------------------------------------------------------------
  // split / join
  // ---------------------------------------------------------------------------

  /** `s.split(sep)` for a non-empty separator: the occurrences of `sep` are found from the
      left without overlapping, and the pieces between them (possibly empty) are returned. */
  function SplitOn(s: string, sep: string): (r: seq<string>)
    requires |sep| > 0
    ensures |r| >= 1
    decreases |s|
  {
    if s == [] then [[]]
    else if StartsWith(s, sep) then [[]] + SplitOn(s[|sep|..], sep)
    else
      var rest := SplitOn(s[1..], sep);
      [[s[0]] + rest[0]] + rest[1..]
  }

  /** `parts.join(sep)`. */
  function Join(parts: seq<string>, sep: string): string
    requires |parts| >= 1
    decreases |parts|
  {
    if |parts| == 1 then parts[0] else parts[0] + sep + Join(parts[1..], sep)
  }

  /** Joining the pieces with the separator gives back the text. */
  lemma {:induction false} JoinSplit(s: string, sep: string)
    requires |sep| > 0
    ensures Join(SplitOn(s, sep), sep) == s
    decreases |s|
  {
    if s == [] {
    } else if StartsWith(s, sep) {
      var tail := s[|sep|..];
      assert SplitOn(s, sep) == [[]] + SplitOn(tail, sep);
      JoinSplit(tail, sep);
      JoinConsEmpty(SplitOn(tail, sep), sep);
      assert s == sep + tail;
    } else {
      var rest := SplitOn(s[1..], sep);
      assert SplitOn(s, sep) == [[s[0]] + rest[0]] + rest[1..];
      JoinSplit(s[1..], sep);
      JoinConsFirst(s[0], rest, sep);
      assert s == [s[0]] + s[1..];
    }
  }

  /** An empty first part puts the separator in front of the joined text. */
  lemma JoinConsEmpty(parts: seq<string>, sep: string)
    requires |parts| >= 1
    ensures Join([[]] + parts, sep) == sep + Join(parts, sep)
  {
    assert ([[]] + parts)[1..] == parts;
  }

  /** Prepending a character to the first part prepends it to the joined text. */
  lemma JoinConsFirst(c: char, parts: seq<string>, sep: string)
    requires |parts| >= 1
    ensures Join([[c] + parts[0]] + parts[1..], sep) == [c] + Join(parts, sep)
  {
    var q := [[c] + parts[0]] + parts[1..];
    assert q[1..] == parts[1..];
    if |parts| > 1 {
      assert ([c] + parts[0]) + sep + Join(parts[1..], sep) == [c] + (parts[0] + sep + Join(parts[1..], sep));
    }
  }

  /** There is more than one piece exactly when the separator occurs in the text. */
  lemma {:induction false} SplitManyIffContains(s: string, sep: string)
    requires |sep| > 0
    ensures |SplitOn(s, sep)| > 1 <==> Contains(s, sep)
    decreases |s|
  {
    if s != [] && !StartsWith(s, sep) {
      SplitManyIffContains(s[1..], sep);
    }
  }

  /** Every occurrence counted uses up `|sep|` characters of the text. */
  lemma {:induction false} SplitCountBound(s: string, sep: string)
    requires |sep| > 0
    ensures (|SplitOn(s, sep)| - 1) * |sep| <= |s|
    decreases |s|
  {
    if s == [] {
    } else if StartsWith(s, sep) {
      var tail := s[|sep|..];
      var n := |SplitOn(tail, sep)|;
      assert |SplitOn(s, sep)| - 1 == n;
      SplitCountBound(tail, sep);
      MulStep(n, |sep|);
    } else {
      var rest := SplitOn(s[1..], sep);
      assert |SplitOn(s, sep)| == |rest|;
      SplitCountBound(s[1..], sep);
    }
  }

  lemma MulStep(n: int, k: int)
    ensures n * k == (n - 1) * k + k
  {
  }

  /** Splitting on one character: one piece more than the character's occurrences. */
  lemma {:induction false} SplitCharCount(s: string, c: char)
    ensures |SplitOn(s, [c])| == multiset(s)[c] + 1
    decreases |s|
  {
    if s != [] {
      SplitCharCount(s[1..], c);
      assert s == [s[0]] + s[1..];
      assert multiset(s) == multiset([s[0]]) + multiset(s[1..]);
      assert StartsWith(s, [c]) <==> s[0] == c;
    }
  }

  /** A character found at one position at most occurs at most once. */
  lemma {:induction false} AtMostOnce(s: string, c: char, j: int)
    requires forall i :: 0 <= i < |s| && s[i] == c ==> i == j
    ensures multiset(s)[c] <= 1
    decreases |s|
  {
    if s != [] {
      assert s == [s[0]] + s[1..];
      assert multiset(s) == multiset([s[0]]) + multiset(s[1..]);
      if s[0] == c {
        assert forall i :: 0 <= i < |s[1..]| ==> s[1..][i] != c by {
          forall i | 0 <= i < |s[1..]| ensures s[1..][i] != c {
            assert s[i + 1] == s[1..][i];
          }
        }
        assert c !in multiset(s[1..]);
      } else {
        forall i | 0 <= i < |s[1..]| && s[1..][i] == c ensures i == j - 1 {
          assert s[i + 1] == s[1..][i];
        }
        AtMostOnce(s[1..], c, j - 1);
      }
    }
  }

  /** No piece of a split on one character contains that character. */
  lemma {:induction false} SplitCharPiecesAvoid(s: string, c: char)
    ensures forall k :: 0 <= k < |SplitOn(s, [c])| ==> c !in SplitOn(s, [c])[k]
    decreases |s|
  {
    if s != [] {
      SplitCharPiecesAvoid(s[1..], c);
      assert StartsWith(s, [c]) <==> s[0] == c;
      if s[0] != c {
        var rest := SplitOn(s[1..], [c]);
        assert c !in [s[0]] + rest[0];
      }
    }
  }

  /** A text without the character is a single piece. */
  lemma {:induction false} SplitCharAbsent(s: string, c: char)
    requires c !in s
    ensures SplitOn(s, [c]) == [s]
    decreases |s|
  {
    if s != [] {
      assert s[0] != c;
      assert !StartsWith(s, [c]);
      SplitCharAbsent(s[1..], c);
      assert [s[0]] + s[1..] == s;
    }
  }

  /** Splitting on one character distributes over a text that contains it: the pieces of
      `a + [c] + b` are the pieces of `a` followed by the pieces of `b`. */
  lemma {:induction false} SplitCharConcat(a: string, c: char, b: string)
    ensures SplitOn(a + [c] + b, [c]) == SplitOn(a, [c]) + SplitOn(b, [c])
    decreases |a|
  {
    var s := a + [c] + b;
    if a == [] {
      assert s == [c] + b;
      assert StartsWith(s, [c]);
      assert s[1..] == b;
    } else {
      assert s[0] == a[0];
      assert StartsWith(s, [c]) <==> a[0] == c;
      assert s[1..] == a[1..] + [c] + b;
      SplitCharConcat(a[1..], c, b);
      if a[0] == c {
        assert StartsWith(a, [c]);
      } else {
        assert !StartsWith(a, [c]);
      }
    }
  }

  /** Splitting on a doubled character `cc` distributes over one occurrence of it, provided
      the text before that occurrence does not end in `c`: then the scan meets the
      occurrence where it was placed, and the pieces of `a + cc + b` are the pieces of `a`
      followed by the pieces of `b`. */
  lemma {:induction false} SplitPairConcat(a: string, c: char, b: string)
    requires a == [] || a[|a| - 1] != c
    ensures SplitOn(a + [c, c] + b, [c, c]) == SplitOn(a, [c, c]) + SplitOn(b, [c, c])
    decreases |a|
  {
    var sep := [c, c];
    var s := a + sep + b;
    if a == [] {
      assert s == sep + b;
      SplitAtSeparator(s, sep);
      assert s[2..] == b;
    } else if StartsWith(a, sep) {
      assert s[..2] == a[..2];
      SplitAtSeparator(s, sep);
      SplitAtSeparator(a, sep);
      assert s[2..] == a[2..] + sep + b;
      SplitPairConcat(a[2..], c, b);
    } else {
      assert !StartsWith(s, sep) by {
        if |a| >= 2 {
          assert s[..2] == a[..2];
        } else {
          assert s[0] == a[0] && s[1] == c && a[0] != c;
        }
      }
      assert s[1..] == a[1..] + sep + b;
      SplitPairConcat(a[1..], c, b);
      SplitPastCharacter(s, sep, SplitOn(a[1..], sep), SplitOn(b, sep));
      SplitPastCharacter(a, sep, SplitOn(a[1..], sep), []);
    }
  }

  /** A text starting with the separator splits into an empty piece and the pieces after. */
  lemma SplitAtSeparator(s: string, sep: string)
    requires |sep| > 0 && StartsWith(s, sep)
    ensures SplitOn(s, sep) == [[]] + SplitOn(s[|sep|..], sep)
  {
  }

  /** A text not starting with the separator puts its first character in front of the first
      piece of its tail, here given as `r + q`. */
  lemma SplitPastCharacter(s: string, sep: string, r: seq<string>, q: seq<string>)
    requires |sep| > 0 && s != [] && !StartsWith(s, sep)
    requires |r| >= 1 && SplitOn(s[1..], sep) == r + q
    ensures SplitOn(s, sep) == [[s[0]] + r[0]] + r[1..] + q
  {
    assert (r + q)[0] == r[0];
    assert (r + q)[1..] == r[1..] + q;
  }

  /** Split inverts join when no part contains the separator character. */
  lemma {:induction false} SplitJoinChar(parts: seq<string>, c: char)
    requires |parts| >= 1
    requires forall k :: 0 <= k < |parts| ==> c !in parts[k]
    ensures SplitOn(Join(parts, [c]), [c]) == parts
    decreases |parts|
  {
    SplitCharAbsent(parts[0], c);
    if |parts| > 1 {
      SplitJoinChar(parts[1..], c);
      SplitCharConcat(parts[0], c, Join(parts[1..], [c]));
      assert [parts[0]] + parts[1..] == parts;
    }
  }

  function Last<T>(xs: seq<T>): T
    requires |xs| >= 1
  {
    xs[|xs| - 1]
  }

  /** The text is everything before the last piece, the separator, then the last piece. */
  lemma {:induction false} JoinLast(parts: seq<string>, sep: string)
    requires |parts| >= 2
    ensures Join(parts, sep) == Join(parts[..|parts| - 1], sep) + sep + Last(parts)
    decreases |parts|
  {
    if |parts| > 2 {
      JoinLast(parts[1..], sep);
      assert parts[1..][..|parts| - 2] == parts[..|parts| - 1][1..];
    }
  }

  // ---------------------------------------------------------------------------
  // Decimal rendering of integers (`String(n)` / `${n}` for integral numbers)
  // ---------------------------------------------------------------------------

  predicate IsDigit(c: char) { '0' <= c <= '9' }

  function DigitChar(d: nat): char
    requires d < 10
  {
    ('0' as int + d) as char
  }

  function DigitValue(c: char): nat
    requires IsDigit(c)
  {
    c as int - '0' as int
  }

  function NatToString(n: nat): (r: string)
    ensures |r| >= 1 && forall i :: 0 <= i < |r| ==> IsDigit(r[i])
  {
    if n < 10 then [DigitChar(n)] else NatToString(n / 10) + [DigitChar(n % 10)]
  }

  function IntToString(n: int): string {
    if n < 0 then "-" + NatToString(-n) else NatToString(n)
  }

  function ParseNat(s: string): nat
    requires |s| >= 1 && forall i :: 0 <= i < |s| ==> IsDigit(s[i])
  {
    if |s| == 1 then DigitValue(s[0]) else ParseNat(s[..|s| - 1]) * 10 + DigitValue(s[|s| - 1])
  }

  /** Reads back a rendered integer: an optional minus sign followed by digits. */
  function ParseInt(s: string): int {
    if |s| >= 2 && s[0] == '-' && forall i :: 1 <= i < |s| ==> IsDigit(s[i]) then -(ParseNat(s[1..]) as int)
    else if |s| >= 1 && forall i :: 0 <= i < |s| ==> IsDigit(s[i]) then ParseNat(s)
    else 0
  }

  lemma {:induction false} ParseNatToString(n: nat)
    ensures ParseNat(NatToString(n)) == n
  {
    if n >= 10 {
      var s := NatToString(n);
      assert s[..|s| - 1] == NatToString(n / 10);
      ParseNatToString(n / 10);
    }
  }

  /** Rendering an integer in decimal loses nothing. */
  lemma ParseIntToString(n: int)
    ensures ParseInt(IntToString(n)) == n
  {
    if n < 0 {
      var s := IntToString(n);
      assert s[1..] == NatToString(-n);
      ParseNatToString(-n);
    } else {
      ParseNatToString(n);
    }
  }
}
