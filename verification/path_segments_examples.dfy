/** The segment lists and verdicts of the rule's own worked examples, derived from the
    general lemmas. Each example URL is written as the concatenation of its parts. */
module PathSegmentsExamples {
  import opened JavaText
  import opened PathSegments
  import opened PathSegmentsLemmas
  import opened PathSegmentsSpec

  /** The host of the examples. */
  const Host: string := "http://example.com/"

  /** On the example host, the path text is what follows the host, minus leading slashes. */
  lemma OnExampleHost(uri: string, rest: string)
    requires uri == Host + rest
    ensures GetSegments(uri) == SegmentsOf(StripLeadingSlashes(rest))
  {
    AuthorityCut("http:", "example.com", rest);
    HostParts();
    assert uri == "http:" + "//" + "example.com" + "/" + rest;
  }

  lemma HostParts()
    ensures "http:" + "//" + "example.com" + "/" == Host
  {
  }

  /** A URL on the example host whose path is three pieces and a query tail. */
  lemma ThreePieceUrl(uri: string, a: string, b: string, c: string, q: string)
    requires a != "" && b != "" && (q == "" ==> c != "") && (q == "" || q[0] == '?')
    requires '/' !in a && '?' !in a && '/' !in b && '?' !in b && '/' !in c && '?' !in c
    requires uri == Host + a + "/" + b + "/" + c + q
    ensures GetSegments(uri) == [a, b, c + q]
  {
    var rest := a + "/" + b + "/" + c + q;
    Regroup(Host, a, "/", b, "/", c, q);
    ThreePiecePath(a, b, c, q);
    OnExampleHost(uri, rest);
    Unrooted(rest);
  }

  /** A text that does not start with a slash has none to strip. */
  lemma Unrooted(s: string)
    requires s != "" && s[0] != '/'
    ensures StripLeadingSlashes(s) == s
  {
  }

  /** The path text of `ThreePieceUrl`. */
  lemma ThreePiecePath(a: string, b: string, c: string, q: string)
    requires a != "" && b != "" && (q == "" ==> c != "") && (q == "" || q[0] == '?')
    requires '/' !in a && '?' !in a && '/' !in b && '?' !in b && '/' !in c && '?' !in c
    ensures var t := a + "/" + b + "/" + c + q; t != "" && t[0] != '/' && SegmentsOf(t) == [a, b, c + q]
  {
    var parts := [a, b, c];
    ThreePieces(a, b, c);
    SegmentsRoundTrip(parts, q);
    assert (a + "/" + b + "/" + c + q)[0] == a[0];
  }

  /** Concatenation regrouped behind a prefix. */
  lemma Regroup(h: string, a: string, b: string, c: string, d: string, e: string, f: string)
    ensures h + a + b + c + d + e + f == h + (a + b + c + d + e + f)
  {
  }

  /** Three pieces: their join, and when they can build a path. */
  lemma ThreePieces(a: string, b: string, c: string)
    requires a != "" && b != ""
    requires '/' !in a && '?' !in a && '/' !in b && '?' !in b && '/' !in c && '?' !in c
    ensures Buildable([a, b, c]) && Join([a, b, c], '/') == a + "/" + b + "/" + c
  {
    var parts := [a, b, c];
    assert parts[1..][1..] == [c];
    assert Join(parts[1..], '/') == b + "/" + c;
  }

  /** A URL on the example host whose first two pieces are separated by a run of slashes. */
  lemma SlashRunUrl(uri: string, a: string, run: string, b: string, c: string)
    requires a != "" && b != "" && c != ""
    requires '/' !in a && '?' !in a && '/' !in b && '?' !in b && '/' !in c && '?' !in c
    requires run != "" && forall i :: 0 <= i < |run| ==> run[i] == '/'
    requires uri == Host + a + run + b + "/" + c
    ensures GetSegments(uri) == [a, b, c]
  {
    var t := a + run + b + "/" + c;
    Regroup(Host, a, run, b, "/", c, "");
    assert t + "" == t && uri + "" == uri;
    OnExampleHost(uri, t);
    assert t[0] == a[0];
    Unrooted(t);
    RunPath(a, run, b, c);
  }

  /** The path text of `SlashRunUrl` has the segments of the same path with one slash. */
  lemma RunPath(a: string, run: string, b: string, c: string)
    requires a != "" && b != "" && c != ""
    requires '/' !in a && '?' !in a && '/' !in b && '?' !in b && '/' !in c && '?' !in c
    requires run != "" && forall i :: 0 <= i < |run| ==> run[i] == '/'
    ensures SegmentsOf(a + run + b + "/" + c) == [a, b, c]
  {
    PlainThree(a, b, c);
    RunText(a, run, b, c);
    CollapsedRun(a, run, b, c);
    SameShape(a + run + b + "/" + c, a + "/" + b + "/" + c);
  }

  /** The path text with a slash run is unrooted and has no `?`. */
  lemma RunText(a: string, run: string, b: string, c: string)
    requires a != "" && '?' !in a && '?' !in b && '?' !in c
    requires forall i :: 0 <= i < |run| ==> run[i] == '/'
    ensures var t := a + run + b + "/" + c; t != "" && t[0] == a[0] && '?' !in t
  {
    assert '?' !in run;
  }

  /** The same path with one slash between the pieces: its segments and its shape. */
  lemma PlainThree(a: string, b: string, c: string)
    requires a != "" && b != "" && c != ""
    requires '/' !in a && '?' !in a && '/' !in b && '?' !in b && '/' !in c && '?' !in c
    ensures var plain := a + "/" + b + "/" + c;
      && plain != "" && plain[0] != '/' && '?' !in plain && NoDoubleSlash(plain)
      && plain[|plain| - 1] != '/' && SegmentsOf(plain) == [a, b, c]
  {
    PlainSegments(a, b, c);
    PlainShape(a, b, c);
  }

  /** The segments of the path with one slash between the pieces. */
  lemma PlainSegments(a: string, b: string, c: string)
    requires a != "" && b != "" && c != ""
    requires '/' !in a && '?' !in a && '/' !in b && '?' !in b && '/' !in c && '?' !in c
    ensures SegmentsOf(a + "/" + b + "/" + c) == [a, b, c]
  {
    ThreePiecePath(a, b, c, "");
    assert a + "/" + b + "/" + c + "" == a + "/" + b + "/" + c && c + "" == c;
  }

  /** The path with one slash between the pieces is unrooted, collapsed, without `?`
      and without a trailing slash. */
  lemma PlainShape(a: string, b: string, c: string)
    requires a != "" && b != "" && c != ""
    requires '/' !in a && '?' !in a && '/' !in b && '?' !in b && '/' !in c && '?' !in c
    ensures var plain := a + "/" + b + "/" + c;
      && plain != "" && plain[0] != '/' && '?' !in plain && NoDoubleSlash(plain)
      && plain[|plain| - 1] != '/'
  {
    var plain := a + "/" + b + "/" + c;
    ThreePieces(a, b, c);
    JoinShape([a, b, c]);
    assert plain[|plain| - 1] == c[|c| - 1];
  }

  /** The slash run between the first two pieces collapses to one slash. */
  lemma CollapsedRun(a: string, run: string, b: string, c: string)
    requires a != "" && b != "" && c != ""
    requires '/' !in a && '/' !in b && '/' !in c
    requires run != "" && forall i :: 0 <= i < |run| ==> run[i] == '/'
    ensures CollapseSlashes(a + run + b + "/" + c) == a + "/" + b + "/" + c
  {
    var rest := b + "/" + c;
    Nest(a, run, b, "/", c);
    CollapseAppend(a, run + rest);
    AllSlashes(run);
    CollapseSlashRun(|run|, rest);
    SlashFree(a);
    SlashFree(c);
    CollapseIdentity(a);
    GlueSlash(b, c);
    CollapseIdentity(rest);
    Nest(a, "/", b, "/", c);
  }

  /** Concatenation regrouped to the right. */
  lemma Nest(a: string, b: string, c: string, d: string, e: string)
    ensures a + (b + (c + d + e)) == a + b + c + d + e
  {
  }

  /** The two texts of `RunPath` have the same query tail and collapsed path. */
  lemma SameShape(t: string, plain: string)
    requires t != "" && t[0] != '/' && plain != "" && plain[0] != '/'
    requires '?' !in t && '?' !in plain && NoDoubleSlash(plain) && plain[|plain| - 1] != '/'
    requires CollapseSlashes(t) == plain
    ensures SegmentsOf(t) == SegmentsOf(plain)
  {
    NoQueryIn(plain);
    assert QueryTail(t) == "";
    SameShapeSameSegments(t, plain);
  }

  /** A text of slashes only is `Slashes` of its length. */
  lemma AllSlashes(run: string)
    requires forall i :: 0 <= i < |run| ==> run[i] == '/'
    ensures run == Slashes(|run|)
  {
  }

  /** A text without slashes has no two adjacent ones. */
  lemma SlashFree(s: string)
    requires '/' !in s
    ensures NoDoubleSlash(s)
  {
    assert forall i :: 0 <= i < |s| ==> s[i] != '/';
  }

  lemma SimplePath(uri: string)
    requires uri == Host + "path1" + "/" + "path2" + "/" + "index.html"
    ensures GetSegments(uri) == ["path1", "path2", "index.html"]
  {
    ThreePieceUrl(uri, "path1", "path2", "index.html", "");
    assert "index.html" + "" == "index.html";
  }

  lemma RepeatedSlashes(uri: string)
    requires uri == Host + "path1" + "///" + "path2" + "/" + "index.html"
    ensures GetSegments(uri) == ["path1", "path2", "index.html"]
  {
    SlashRunUrl(uri, "path1", "///", "path2", "index.html");
  }

  lemma QueryInLastSegment(uri: string)
    requires uri == Host + "path1" + "/" + "path2" + "/" + "index.php" + "?stuff=cool/stuff"
    ensures GetSegments(uri) == ["path1", "path2", "index.php" + "?stuff=cool/stuff"]
  {
    ThreePieceUrl(uri, "path1", "path2", "index.php", "?stuff=cool/stuff");
  }

  lemma QueryBeginsSegment(uri: string)
    requires uri == Host + "path1" + "/" + "path2" + "/" + "?stuff=cool/stuff"
    ensures GetSegments(uri) == ["path1", "path2", "?stuff=cool/stuff"]
  {
    ThreePieceUrl(uri, "path1", "path2", "", "?stuff=cool/stuff");
    assert Host + "path1" + "/" + "path2" + "/" + "" + "?stuff=cool/stuff" == uri;
    assert "" + "?stuff=cool/stuff" == "?stuff=cool/stuff";
  }

  lemma DoubleSlashOnly(uri: string)
    requires uri == Host + "/"
    ensures GetSegments(uri) == [""]
  {
    OnExampleHost(uri, "/");
    assert StripLeadingSlashes("/") == "";
    SegmentsNonEmpty("");
  }

  /** The three evaluations of the rule's tests, with limits 3 and 2. */
  method EvaluateExamples() returns (repeated: DecideResult, recurring: DecideResult, plain: DecideResult)
    ensures repeated == Reject && recurring == Reject && plain == Abstain
  {
    var s1 := ["path1", "path1", "path1", "index.html"];
    RunTooLongExample(s1);
    repeated := Evaluate(3, 2, s1);
    var s2 := ["path1", "path2", "path1", "path1", "path2", "path1", "index.html"];
    TooManyExample(s2);
    recurring := Evaluate(3, 2, s2);
    var s3 := ["path1", "path2", "index.html"];
    NoTrapExample(s3);
    plain := Evaluate(3, 2, s3);
  }

  /** Three equal segments in a row exceed a consecutive limit of 2. */
  lemma RunTooLongExample(s: seq<string>)
    requires s == ["path1", "path1", "path1", "index.html"]
    ensures IsTrap(s, 3, 2)
  {
    assert RunLength(s, 0) == 1;
    assert RunLength(s, 1) == 2;
    assert RunLength(s, 2) == 3;
  }

  /** Four occurrences of `path1` exceed a total limit of 3 although no run is longer than 2. */
  lemma TooManyExample(s: seq<string>)
    requires s == ["path1", "path2", "path1", "path1", "path2", "path1", "index.html"]
    ensures !RunTooLong(s, 2) && TooManyOccurrences(s, 3)
    ensures IsTrap(s, 3, 2)
  {
    var p1, p2, ix := "path1", "path2", "index.html";
    assert p1 != p2 && p1 != ix && p2 != ix by {
      assert p1[4] != p2[4] && |p1| != |ix| && |p2| != |ix|;
    }
    assert RunLength(s, 0) == 1 && RunLength(s, 1) == 1 && RunLength(s, 2) == 1;
    assert RunLength(s, 3) == 2 && RunLength(s, 4) == 1 && RunLength(s, 5) == 1;
    assert RunLength(s, 6) == 1;
    assert s == [p1, p2, p1] + [p1, p2, p1] + [ix];
    assert multiset([p1, p2, p1])[p1] == 2;
    assert multiset(s)[s[0]] == 4;
  }

  /** Three different segments are no trap. */
  lemma NoTrapExample(s: seq<string>)
    requires s == ["path1", "path2", "index.html"]
    ensures !IsTrap(s, 3, 2)
  {
    assert "path1" != "path2" && "path1" != "index.html" && "path2" != "index.html";
    forall i | 0 <= i < |s|
      ensures RunLength(s, i) == 1 && multiset(s)[s[i]] == 1
    {
    }
  }
}
