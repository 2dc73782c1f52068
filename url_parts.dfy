/** The parsed parts of a URL that both analyser components read, and the structural
    features both derive from them in the same way: the subdomain count, the top-level
    domain and the path depth.

    Parsing itself (`new URL(...)` in the browser) is not modelled: a `ParsedUrl` is the
    parser's answer, taken as given. The only rule kept from the call site is the one that
    decides what string is handed to the parser. */
module UrlParts {
  import opened Text

  /** What the browser's URL parser reports for the string it was given.
      `dottedQuadHost` is the answer of the unanchored pattern `\d{1,3}(\.\d{1,3}){3}` on
      `hostname`; `serializedParams` is `searchParams.toString()` and `paramCount` the number
      of entries of `searchParams`. */
  datatype ParsedUrl = ParsedUrl(
    protocol: string,
    hostname: string,
    port: string,
    pathname: string,
    search: string,
    hash: string,
    serializedParams: string,
    paramCount: nat,
    dottedQuadHost: bool)

  /** The string given to the parser: the input itself when it starts with `http`,
      otherwise the input behind `https://`. */
  function WithScheme(raw: string): string {
    if StartsWith(raw, "http") then raw else "https://" + raw
  }

  /** The parser always receives a string starting with `http`, and the rule adds the
      scheme at most once. */
  lemma WithSchemeStartsWithHttp(raw: string)
    ensures StartsWith(WithScheme(raw), "http")
    ensures WithScheme(WithScheme(raw)) == WithScheme(raw)
    ensures WithScheme(raw) == raw <==> StartsWith(raw, "http")
  {
    assert ("https://" + raw)[..4] == "http";
    if WithScheme(raw) == raw {
      assert StartsWith(raw, "http");
    }
  }

  /** The dot-separated labels of a host name (`hostname.split('.')`). */
  function Labels(hostname: string): seq<string> {
    SplitOn(hostname, ".")
  }

  /** `hostname.split('.').length - 2`; not floored, so a host without a dot gives -1. */
  function SubdomainCount(hostname: string): int {
    |Labels(hostname)| - 2
  }

  /** `hostname.split('.').pop() || ''`: the last label. */
  function Tld(hostname: string): string {
    Last(Labels(hostname))
  }

  /** `pathname.split('/').filter(p => p)`: the non-empty segments. */
  function NonEmpty(parts: seq<string>): seq<string> {
    if parts == [] then []
    else (if parts[0] != "" then [parts[0]] else []) + NonEmpty(parts[1..])
  }

  /** `pathname.split('/').filter(p => p).length`. */
  function PathDepth(pathname: string): nat {
    |NonEmpty(SplitOn(pathname, "/"))|
  }

  /** The subdomain count is one less than the number of dots in the host name. */
  lemma SubdomainCountIsDotsMinusOne(hostname: string)
    ensures SubdomainCount(hostname) == multiset(hostname)['.'] as int - 1
    ensures SubdomainCount(hostname) >= -1
  {
    SplitCharCount(hostname, '.');
  }

  /** The top-level domain is the text after the last dot of the host name, or the whole
      host name when it has no dot. */
  lemma TldIsAfterLastDot(hostname: string)
    ensures '.' !in Tld(hostname)
    ensures '.' !in hostname ==> Tld(hostname) == hostname
    ensures '.' in hostname ==>
      |Tld(hostname)| < |hostname| &&
      hostname == hostname[..|hostname| - |Tld(hostname)| - 1] + "." + Tld(hostname)
  {
    var labels := Labels(hostname);
    SplitCharPiecesAvoid(hostname, '.');
    SplitCharCount(hostname, '.');
    JoinSplit(hostname, ".");
    if |labels| == 1 {
      assert hostname == labels[0];
    } else {
      assert multiset(hostname)['.'] > 0;
      JoinLast(labels, ".");
      var front := Join(labels[..|labels| - 1], ".");
      assert hostname == front + "." + Tld(hostname);
      assert hostname[..|front|] == front;
    }
  }

  /** Dropping empty pieces distributes over concatenation. */
  lemma {:induction false} NonEmptyConcat(a: seq<string>, b: seq<string>)
    ensures NonEmpty(a + b) == NonEmpty(a) + NonEmpty(b)
    decreases |a|
  {
    if a != [] {
      assert (a + b)[1..] == a[1..] + b;
      NonEmptyConcat(a[1..], b);
    } else {
      assert a + b == b;
    }
  }

  /** Path depth adds up over a `/` joining two paths. */
  lemma PathDepthConcat(a: string, b: string)
    ensures PathDepth(a + "/" + b) == PathDepth(a) + PathDepth(b)
  {
    SplitCharConcat(a, '/', b);
    NonEmptyConcat(SplitOn(a, "/"), SplitOn(b, "/"));
  }

  lemma {:induction false} NonEmptyOfNonEmpty(parts: seq<string>)
    requires forall k :: 0 <= k < |parts| ==> parts[k] != ""
    ensures NonEmpty(parts) == parts
  {
    if parts != [] {
      NonEmptyOfNonEmpty(parts[1..]);
    }
  }

  /** A path `/s1/s2/.../sn` built from non-empty segments without `/` has depth `n`. */
  lemma PathDepthOfSegments(segments: seq<string>)
    requires |segments| >= 1
    requires forall k :: 0 <= k < |segments| ==> segments[k] != "" && '/' !in segments[k]
    ensures PathDepth("/" + Join(segments, "/")) == |segments|
  {
    var joined := Join(segments, "/");
    assert "/" + joined == "" + "/" + joined;
    PathDepthConcat("", joined);
    assert PathDepth("") == 0 by {
      assert SplitOn("", "/") == [[]];
    }
    assert "/" == ['/'];
    SplitJoinChar(segments, '/');
    assert SplitOn(joined, "/") == segments;
    NonEmptyOfNonEmpty(segments);
  }

  /** A path has depth 0 exactly when it is made of slashes only. */
  lemma {:induction false} PathDepthZeroIffOnlySlashes(pathname: string)
    ensures PathDepth(pathname) == 0 <==> forall i :: 0 <= i < |pathname| ==> pathname[i] == '/'
    decreases |pathname|
  {
    if pathname != [] {
      var tail := pathname[1..];
      PathDepthZeroIffOnlySlashes(tail);
      assert StartsWith(pathname, "/") <==> pathname[0] == '/';
      if pathname[0] == '/' {
        assert SplitOn(pathname, "/") == [[]] + SplitOn(tail, "/");
        NonEmptyConcat([[]], SplitOn(tail, "/"));
        assert forall i :: 1 <= i < |pathname| ==> pathname[i] == tail[i - 1];
      } else {
        var rest := SplitOn(tail, "/");
        assert SplitOn(pathname, "/") == [[pathname[0]] + rest[0]] + rest[1..];
        NonEmptyConcat([[pathname[0]] + rest[0]], rest[1..]);
      }
    }
  }
}
