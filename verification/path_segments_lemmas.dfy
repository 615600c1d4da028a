/** Facts about segment extraction in PathSegmentsDecideRule: what the authority cut removes,
    how slash runs collapse, the shape of the segments, and the published examples. */
module PathSegmentsLemmas {
  import opened JavaText
  import opened PathSegments

  // ---------------------------------------------------------------------------
  // Cutting off the scheme and authority

  /** The number of slashes in `s`. */
  function SlashCount(s: string): nat {
    if |s| == 0 then 0 else (if s[0] == '/' then 1 else 0) + SlashCount(s[1..])
  }

  /** The smaller of two integers. */
  function Min(a: int, b: int): int {
    if a < b then a else b
  }

  /** Slash counts add up over a concatenation. */
  lemma {:induction false} SlashCountAppend(a: string, b: string)
    ensures SlashCount(a + b) == SlashCount(a) + SlashCount(b)
    decreases |a|
  {
    if |a| == 0 {
      assert a + b == b;
    } else {
      assert (a + b)[1..] == a[1..] + b;
      SlashCountAppend(a[1..], b);
    }
  }

  /** A string without slashes has none to count. */
  lemma {:induction false} NoSlashCount(a: string)
    requires '/' !in a
    ensures SlashCount(a) == 0
    decreases |a|
  {
    if a != "" {
      assert '/' !in a[1..];
      NoSlashCount(a[1..]);
    }
  }

  /** A string with no slashes to count has none. */
  lemma {:induction false} ZeroSlashCount(a: string)
    requires SlashCount(a) == 0
    ensures '/' !in a
    decreases |a|
  {
    if a != "" {
      ZeroSlashCount(a[1..]);
      assert a == [a[0]] + a[1..];
    }
  }

  /** The authority cut goes through the third slash, or the last one when there are fewer,
      and so ends at a slash unless nothing is cut. */
  lemma AuthorityCutSlashes(uri: string)
    ensures var k := SkipLength(uri, 3);
      SlashCount(uri[..k]) == Min(3, SlashCount(uri)) && (k == 0 || uri[k - 1] == '/') &&
      (SlashCount(uri) <= 3 ==> '/' !in uri[k..])
  {
    var k := SkipLength(uri, 3);
    SkipLengthCount(uri, 3);
    SkipLengthEndsAtSlash(uri, 3);
    if SlashCount(uri) <= 3 {
      NothingAfterLastSlash(uri, k);
    }
  }

  /** After the cut, the path text is what follows the leading slashes: a suffix of the URI. */
  lemma PathTextAfterCut(uri: string)
    ensures var k := SkipLength(uri, 3);
      uri[k..] == Slashes(LeadingSlashes(uri[k..])) + PathText(uri) && EndsWith(uri, PathText(uri))
  {
    var k := SkipLength(uri, 3);
    StripShape(uri[k..]);
    EndsWithSuffix(uri, k, PathText(uri));
  }

  /** When the cut holds every slash, none is left after it. */
  lemma NothingAfterLastSlash(s: string, k: nat)
    requires k <= |s| && SlashCount(s[..k]) == SlashCount(s)
    ensures '/' !in s[k..]
  {
    assert s == s[..k] + s[k..];
    SlashCountAppend(s[..k], s[k..]);
    ZeroSlashCount(s[k..]);
  }

  /** A text is its leading slashes followed by the stripped text. */
  lemma StripShape(r: string)
    ensures r == Slashes(LeadingSlashes(r)) + StripLeadingSlashes(r)
    ensures EndsWith(r, StripLeadingSlashes(r))
  {
    var j := LeadingSlashes(r);
    assert r[..j] == Slashes(j);
    assert r == r[..j] + r[j..];
  }

  /** A suffix of a suffix is a suffix. */
  lemma EndsWithSuffix(s: string, k: nat, t: string)
    requires k <= |s| && EndsWith(s[k..], t)
    ensures EndsWith(s, t)
  {
    assert s[|s| - |t|..] == s[k..][|s[k..]| - |t|..];
  }

  /** A string made of a slash-free piece, a slash and `t` has one slash more than `t`. */
  lemma SlashesAround(s: string, i: nat, u: string, t: string)
    requires i < |s| && IndexOf(s, '/') == i
    requires u == s[..i] + ['/'] + t
    ensures SlashCount(u) == 1 + SlashCount(t)
  {
    NoSlashCount(s[..i]);
    assert u == s[..i] + (['/'] + t);
    SlashCountAppend(s[..i], ['/'] + t);
    assert (['/'] + t)[1..] == t;
  }

  /** Dropping through the first slash removes exactly one slash from the count. */
  lemma SlashesThroughFirst(s: string, i: nat, m: nat)
    requires i < |s| && IndexOf(s, '/') == i
    requires m <= |s| - i - 1
    ensures SlashCount(s[..i + 1 + m]) == 1 + SlashCount(s[i + 1..][..m])
  {
    CutAround(s, i, m);
    SlashesAround(s, i, s[..i + 1 + m], s[i + 1..][..m]);
  }

  /** The text through `m` characters past position `i`, split around `i`. */
  lemma CutAround(s: string, i: nat, m: nat)
    requires i < |s| && m <= |s| - i - 1
    ensures s[..i + 1 + m] == s[..i] + [s[i]] + s[i + 1..][..m]
  {
    var r := s[..i] + [s[i]] + s[i + 1..][..m];
    assert forall j :: 0 <= j < i + 1 + m ==> s[..i + 1 + m][j] == r[j];
  }

  /** The text after the first slash has one slash fewer than the whole. */
  lemma SlashesAfterFirst(s: string, i: nat)
    requires i < |s| && IndexOf(s, '/') == i
    ensures SlashCount(s) == 1 + SlashCount(s[i + 1..])
  {
    assert s == s[..i] + ['/'] + s[i + 1..];
    SlashesAround(s, i, s, s[i + 1..]);
  }

  /** The slash count after cutting through the first slash and `m` more characters. */
  lemma CountThroughFirst(s: string, n: nat, i: nat, m: nat)
    requires n > 0 && i < |s| && IndexOf(s, '/') == i && m <= |s| - i - 1
    requires SlashCount(s[i + 1..][..m]) == Min(n - 1, SlashCount(s[i + 1..]))
    ensures SlashCount(s[..i + 1 + m]) == Min(n, SlashCount(s))
  {
    SlashesThroughFirst(s, i, m);
    SlashesAfterFirst(s, i);
  }

  /** Cutting through the `n`-th slash drops exactly `n` slashes, or all of them
      when `s` has fewer. */
  lemma {:induction false} SkipLengthCount(s: string, n: nat)
    ensures SlashCount(s[..SkipLength(s, n)]) == Min(n, SlashCount(s))
    decreases n, 1
  {
    if n == 0 || IndexOf(s, '/') < 0 {
      assert s[..0] == [];
      if n > 0 {
        NoSlashCount(s);
      }
    } else {
      SkipLengthCountStep(s, n);
    }
  }

  /** The inductive step of `SkipLengthCount`: the first slash is dropped, then `n - 1` more. */
  lemma {:induction false} SkipLengthCountStep(s: string, n: nat)
    requires n > 0 && IndexOf(s, '/') >= 0
    ensures SlashCount(s[..SkipLength(s, n)]) == Min(n, SlashCount(s))
    decreases n, 0
  {
    var i := IndexOf(s, '/');
    var m := SkipLength(s[i + 1..], n - 1);
    SkipLengthCount(s[i + 1..], n - 1);
    CountThroughFirst(s, n, i, m);
    SkipLengthStep(s, n);
  }

  /** Cutting through the `n`-th slash is cutting through the first, then through the
      `n - 1`-th of the rest. */
  lemma SkipLengthStep(s: string, n: nat)
    requires n > 0 && IndexOf(s, '/') >= 0
    ensures SkipLength(s, n) == IndexOf(s, '/') + 1 + SkipLength(s[IndexOf(s, '/') + 1..], n - 1)
  {
  }

  /** The first `k` characters of `s` are nothing, or end with a slash. */
  predicate CutAtSlash(s: string, k: nat) {
    k == 0 || (k <= |s| && s[k - 1] == '/')
  }

  /** What is cut off ends with a slash (unless nothing is cut). */
  lemma {:induction false} SkipLengthEndsAtSlash(s: string, n: nat)
    ensures CutAtSlash(s, SkipLength(s, n))
    decreases n
  {
    if n > 0 && IndexOf(s, '/') >= 0 {
      var i := IndexOf(s, '/');
      SkipLengthEndsAtSlash(s[i + 1..], n - 1);
      EndsAtSlashStep(s, n, i);
    }
  }

  /** The inductive step of `SkipLengthEndsAtSlash`. */
  lemma EndsAtSlashStep(s: string, n: nat, i: nat)
    requires n > 0 && IndexOf(s, '/') == i
    requires CutAtSlash(s[i + 1..], SkipLength(s[i + 1..], n - 1))
    ensures CutAtSlash(s, SkipLength(s, n))
  {
    SkipLengthStep(s, n);
    CutAfterSlash(s, i, SkipLength(s[i + 1..], n - 1));
  }

  /** A cut of the text after a slash, ending at a slash, extends to a cut of the whole
      text ending at a slash. */
  lemma CutAfterSlash(s: string, i: nat, m: nat)
    requires i < |s| && s[i] == '/' && m <= |s| - i - 1
    requires CutAtSlash(s[i + 1..], m)
    ensures CutAtSlash(s, i + 1 + m)
  {
    if m > 0 {
      assert s[i + 1..][m - 1] == s[i + m];
    }
  }

  // ---------------------------------------------------------------------------
  // Stripping and collapsing slashes

  /** Any run of leading slashes that is followed by a non-slash (or the end) is the one
      `LeadingSlashes` finds. */
  lemma LeadingSlashesUnique(s: string, k: nat)
    requires k <= |s| && (forall i :: 0 <= i < k ==> s[i] == '/')
    requires k == |s| || s[k] != '/'
    ensures LeadingSlashes(s) == k
  {
  }

  /** Leading slashes of `a` are stripped the same way when more text follows,
      as long as `a` ends with something other than a slash. */
  lemma StripAppend(a: string, b: string)
    requires a != "" && a[|a| - 1] != '/'
    ensures StripLeadingSlashes(a + b) == StripLeadingSlashes(a) + b
  {
    var k := LeadingSlashes(a);
    assert k < |a|;
    LeadingSlashesUnique(a + b, k);
    assert (a + b)[k..] == a[k..] + b;
  }

  /** Stripping a string that ends with a non-slash character keeps that character at the end. */
  lemma StripSnoc(x: string, ch: char)
    requires ch != '/'
    ensures StripLeadingSlashes(x + [ch]) == StripLeadingSlashes(x) + [ch]
  {
    var k := LeadingSlashes(x);
    LeadingSlashesUnique(x + [ch], k);
    assert (x + [ch])[k..] == x[k..] + [ch];
  }

  /** A run of slashes in front of text that does not start with one is stripped entirely. */
  lemma StripSlashRun(k: nat, b: string)
    requires b == "" || b[0] != '/'
    ensures StripLeadingSlashes(Slashes(k) + b) == b
  {
    LeadingSlashesUnique(Slashes(k) + b, k);
    assert (Slashes(k) + b)[k..] == b;
  }

  /** Collapsing leaves no two adjacent slashes. */
  lemma {:induction false} CollapseNoDoubleSlash(s: string)
    ensures NoDoubleSlash(CollapseSlashes(s))
    decreases |s|
  {
    if s != "" {
      var r := CollapseSlashes(s);
      var t := if s[0] == '/' then StripLeadingSlashes(s) else s[1..];
      var rt := CollapseSlashes(t);
      CollapseNoDoubleSlash(t);
      assert r == [s[0]] + rt;
      forall i | 0 <= i < |r| - 1
        ensures !(r[i] == '/' && r[i + 1] == '/')
      {
        if i > 0 {
          assert r[i] == rt[i - 1] && r[i + 1] == rt[i];
        } else if s[0] == '/' {
          assert rt == "" || rt[0] == t[0];
        }
      }
    }
  }

  /** Collapsing introduces no character that was not there. */
  lemma {:induction false} CollapseChars(s: string, ch: char)
    requires ch in CollapseSlashes(s)
    ensures ch in s
    decreases |s|
  {
    var r := CollapseSlashes(s);
    var t := if s[0] == '/' then StripLeadingSlashes(s) else s[1..];
    if ch != s[0] {
      assert r == [s[0]] + CollapseSlashes(t);
      assert ch in CollapseSlashes(t);
      CollapseChars(t, ch);
      assert t == s[|s| - |t|..];
    }
  }

  /** Collapsing distributes over a concatenation whose first part does not end with a slash:
      no run of slashes straddles the boundary. */
  lemma {:induction false} CollapseAppend(a: string, b: string)
    requires a == "" || a[|a| - 1] != '/'
    ensures CollapseSlashes(a + b) == CollapseSlashes(a) + CollapseSlashes(b)
    decreases |a|, 1
  {
    if a == "" {
      assert a + b == b;
    } else if a[0] == '/' {
      CollapseAppendRooted(a, b);
    } else {
      assert (a + b)[1..] == a[1..] + b;
      CollapseAppend(a[1..], b);
      assert (a + b)[0] == a[0];
      assert CollapseSlashes(a + b) == [a[0]] + CollapseSlashes(a[1..] + b);
    }
  }

  /** `CollapseAppend` when `a` starts with a run of slashes. */
  lemma {:induction false} CollapseAppendRooted(a: string, b: string)
    requires a != "" && a[0] == '/' && a[|a| - 1] != '/'
    ensures CollapseSlashes(a + b) == CollapseSlashes(a) + CollapseSlashes(b)
    decreases |a|, 0
  {
    var t := StripLeadingSlashes(a);
    StripAppend(a, b);
    assert t != "" && t[|t| - 1] == a[|a| - 1];
    CollapseAppend(t, b);
    assert (a + b)[0] == '/';
    assert CollapseSlashes(a + b) == "/" + CollapseSlashes(t + b);
  }

  /** Appending a character other than a slash appends it to the collapsed text. */
  lemma {:induction false} CollapseSnoc(x: string, ch: char)
    requires ch != '/'
    ensures CollapseSlashes(x + [ch]) == CollapseSlashes(x) + [ch]
    decreases |x|
  {
    if x == "" {
      assert x + [ch] == [ch];
      assert [ch][1..] == "";
    } else if x[0] == '/' {
      StripSnoc(x, ch);
      CollapseSnoc(StripLeadingSlashes(x), ch);
    } else {
      assert (x + [ch])[1..] == x[1..] + [ch];
      CollapseSnoc(x[1..], ch);
    }
  }

  /** A run of one or more slashes collapses to a single slash. */
  lemma CollapseSlashRun(k: nat, b: string)
    requires k >= 1 && (b == "" || b[0] != '/')
    ensures CollapseSlashes(Slashes(k) + b) == "/" + CollapseSlashes(b)
  {
    StripSlashRun(k, b);
    assert (Slashes(k) + b)[0] == '/';
  }

  /** Text without adjacent slashes is left as it is. */
  lemma {:induction false} CollapseIdentity(s: string)
    requires NoDoubleSlash(s)
    ensures CollapseSlashes(s) == s
    decreases |s|
  {
    if s != "" {
      assert NoDoubleSlash(s[1..]) by {
        forall i | 0 <= i < |s[1..]| - 1
          ensures !(s[1..][i] == '/' && s[1..][i + 1] == '/')
        {
          assert s[1..][i] == s[i + 1] && s[1..][i + 1] == s[i + 2];
        }
      }
      if s[0] == '/' {
        assert StripLeadingSlashes(s) == s[1..] by {
          assert |s| == 1 || s[1] != '/';
          LeadingSlashesUnique(s, 1);
        }
      }
      CollapseIdentity(s[1..]);
    }
  }

  // ---------------------------------------------------------------------------
  // The shape of the segments

  /** `c` without one trailing slash. */
  function DropTrailingSlash(c: string): string {
    if c != "" && c[|c| - 1] == '/' then c[..|c| - 1] else c
  }

  /** A suffix of text without doubled slashes has none either. */
  lemma NoDoubleSlashSuffix(c: string, j: nat)
    requires j <= |c| && NoDoubleSlash(c)
    ensures NoDoubleSlash(c[j..])
  {
    forall i | 0 <= i < |c[j..]| - 1
      ensures !(c[j..][i] == '/' && c[j..][i + 1] == '/')
    {
      assert c[j..][i] == c[j + i] && c[j..][i + 1] == c[j + i + 1];
    }
  }

  /** In text without doubled slashes that does not start with one, only the last piece
      of the split can be empty. */
  lemma {:induction false} InnerPiecesNonEmpty(c: string)
    requires NoDoubleSlash(c) && (c == "" || c[0] != '/')
    ensures forall k :: 0 <= k < |SplitAll(c, '/')| - 1 ==> SplitAll(c, '/')[k] != ""
    decreases |c|
  {
    var i := IndexOf(c, '/');
    if i >= 0 {
      var rest := c[i + 1..];
      assert SplitAll(c, '/') == [c[..i]] + SplitAll(rest, '/');
      assert i > 0 && |c[..i]| > 0;
      NoDoubleSlashSuffix(c, i + 1);
      assert rest == "" || rest[0] != '/' by {
        if rest != "" {
          assert rest[0] == c[i + 1] && c[i] == '/';
        }
      }
      InnerPiecesNonEmpty(rest);
    }
  }

  /** Java's split of text without doubled slashes that does not start with one: the pieces
      join back to the text minus a trailing slash. */
  lemma SplitCollapsed(c: string)
    requires NoDoubleSlash(c) && (c == "" || c[0] != '/')
    ensures Join(Split(c, '/'), '/') == DropTrailingSlash(c)
  {
    if c != "" {
      if c[|c| - 1] == '/' {
        SplitCollapsedTrailing(c);
      } else {
        SplitJoinsBack(c, '/');
      }
    }
  }

  /** Java's split of non-empty text without doubled slashes that does not start with one
      has no empty piece: the inner ones are non-empty and a trailing empty one is dropped. */
  lemma SplitCollapsedNonEmpty(c: string)
    requires NoDoubleSlash(c) && c != "" && c[0] != '/'
    ensures forall k :: 0 <= k < |Split(c, '/')| ==> Split(c, '/')[k] != ""
  {
    var all := SplitAll(c, '/');
    var parts := Split(c, '/');
    InnerPiecesNonEmpty(c);
    assert parts == DropTrailingEmpty(all);
    assert |parts| <= |all| && parts == all[..|parts|];
    forall k | 0 <= k < |parts|
      ensures parts[k] != ""
    {
      if k < |parts| - 1 {
        assert parts[k] == all[k];
      }
    }
  }

  /** `SplitCollapsed` for text that ends with a slash: the split drops the one empty piece. */
  lemma SplitCollapsedTrailing(c: string)
    requires NoDoubleSlash(c) && c != "" && c[0] != '/' && c[|c| - 1] == '/'
    ensures Split(c, '/') == SplitAll(c[..|c| - 1], '/')
    ensures Join(Split(c, '/'), '/') == c[..|c| - 1]
  {
    var x := c[..|c| - 1];
    assert |c| >= 2;
    assert c[|c| - 2] != '/';
    assert x[|x| - 1] == c[|c| - 2];
    assert c == x + ['/'];
    SplitAllSnoc(x, '/');
    SplitJoinsBack(x, '/');
    var all := SplitAll(x, '/');
    assert SplitAll(c, '/') == all + [""];
    assert (all + [""])[..|all + [""]| - 1] == all;
    assert DropTrailingEmpty(all + [""]) == DropTrailingEmpty(all);
  }

  /** The split pieces of a collapsed path hold only characters of the path. */
  lemma PieceCharsInPath(c: string, k: nat, ch: char)
    requires NoDoubleSlash(c) && (c == "" || c[0] != '/')
    requires k < |Split(c, '/')| && ch in Split(c, '/')[k]
    ensures ch in c
  {
    SplitCollapsed(c);
    InJoin(Split(c, '/'), '/', k, ch);
    if c != "" && c[|c| - 1] == '/' {
      var d := c[..|c| - 1];
      var j :| 0 <= j < |d| && d[j] == ch;
      assert c[j] == ch;
    }
  }

  /** The collapsed path part of a path text starts as the text does and has no doubled slash. */
  lemma CollapsedPathPart(t: string)
    requires t == "" || t[0] != '/'
    ensures var c := CollapseSlashes(PathPart(t));
      NoDoubleSlash(c) && (c == "" || c[0] != '/') && (c == "" <==> t == "")
  {
    CollapseNoDoubleSlash(PathPart(t));
  }

  /** Without a `?`, the segments are exactly Java's split of the collapsed text. */
  lemma SegmentsWithoutQuery(t: string)
    requires (t == "" || t[0] != '/') && IndexOf(t, '?') == -1
    ensures SegmentsOf(t) == Split(CollapseSlashes(t), '/')
  {
    assert PathPart(t) == t && Params(t) == "";
    CollapsedPathPart(t);
    SplitOfUnrootedIsNonEmpty(CollapseSlashes(t));
    AppendNothing(Split(CollapseSlashes(t), '/'));
  }

  /** Appending nothing to the last part changes nothing. */
  lemma AppendNothing(parts: seq<string>)
    requires |parts| >= 1
    ensures AppendToLast(parts, "") == parts
  {
    var r := AppendToLast(parts, "");
    assert r[|r| - 1] == parts[|parts| - 1];
    assert r == r[..|r| - 1] + [r[|r| - 1]];
    assert parts == parts[..|parts| - 1] + [parts[|parts| - 1]];
  }

  /** With a `?` at `p`, the collapsed path part is the collapsed text before it plus the `?`. */
  lemma CollapsedBeforeQuery(t: string, p: nat)
    requires p < |t| && IndexOf(t, '?') == p
    ensures CollapseSlashes(t[..p + 1]) == CollapseSlashes(t[..p]) + "?"
    ensures '?' !in CollapseSlashes(t[..p])
  {
    assert t[..p + 1] == t[..p] + ['?'];
    CollapseSnoc(t[..p], '?');
    if '?' in CollapseSlashes(t[..p]) {
      CollapseChars(t[..p], '?');
    }
  }

  /** Joining the segments with `/` gives the path with every slash run collapsed, followed
      by the query tail verbatim; without a query a trailing slash is dropped. */
  lemma SegmentsRejoin(t: string)
    requires t == "" || t[0] != '/'
    ensures var q := QueryTail(t);
      Join(SegmentsOf(t), '/') ==
        if q == "" then DropTrailingSlash(CollapseSlashes(t))
        else CollapseSlashes(t[..|t| - |q|]) + q
  {
    var p := IndexOf(t, '?');
    if p == -1 {
      RejoinWithoutQuery(t);
    } else {
      RejoinWithQuery(t, p);
      assert QueryTail(t) == t[p..];
      assert t[..|t| - |t[p..]|] == t[..p];
    }
  }

  /** `SegmentsRejoin` when the path text has no `?`. */
  lemma RejoinWithoutQuery(t: string)
    requires (t == "" || t[0] != '/') && IndexOf(t, '?') == -1
    ensures Join(SegmentsOf(t), '/') == DropTrailingSlash(CollapseSlashes(t))
  {
    CollapsedPathPart(t);
    SegmentsWithoutQuery(t);
    SplitCollapsed(CollapseSlashes(t));
  }

  /** `SegmentsRejoin` when the path text has a `?` at `p`. */
  lemma RejoinWithQuery(t: string, p: nat)
    requires (t == "" || t[0] != '/') && p < |t| && IndexOf(t, '?') == p
    ensures Join(SegmentsOf(t), '/') == CollapseSlashes(t[..p]) + t[p..]
  {
    var c := CollapseSlashes(t[..p + 1]);
    SegmentsWithQuery(t, p);
    CollapsedBeforeQuery(t, p);
    SplitJoinsBack(c, '/');
    QueryJoin(CollapseSlashes(t[..p]), t, p, Split(c, '/'));
  }

  /** Pieces joining to `x + "?"`, with the text after the `?` at `p` appended to the
      last, join to `x` followed by the query tail from `p`. */
  lemma QueryJoin(x: string, t: string, p: nat, parts: seq<string>)
    requires p < |t| && t[p] == '?'
    requires |parts| >= 1 && Join(parts, '/') == x + "?"
    ensures Join(AppendToLast(parts, t[p + 1..]), '/') == x + t[p..]
  {
    JoinAppendToLast(parts, t[p + 1..]);
    assert t[p..] == "?" + t[p + 1..];
    ConcatAssoc(x, "?", t[p + 1..]);
  }

  /** With the first `?` at `p`, the segments are the split of the collapsed text through
      the `?`, with the parameters after it appended to the last. */
  lemma SegmentsWithQuery(t: string, p: nat)
    requires (t == "" || t[0] != '/') && p < |t| && IndexOf(t, '?') == p
    ensures |Split(CollapseSlashes(t[..p + 1]), '/')| >= 1
    ensures SegmentsOf(t) == AppendToLast(Split(CollapseSlashes(t[..p + 1]), '/'), t[p + 1..])
  {
    assert PathPart(t) == t[..p + 1] && Params(t) == t[p + 1..];
    SplitOfUnrootedIsNonEmpty(CollapseSlashes(t[..p + 1]));
  }

  /** Concatenation is associative. */
  lemma ConcatAssoc(a: string, b: string, c: string)
    ensures a + b + c == a + (b + c)
  {
  }

  /** Appending text to the last part appends it to the join. */
  lemma JoinAppendToLast(parts: seq<string>, tail: string)
    requires |parts| >= 1
    ensures Join(AppendToLast(parts, tail), '/') == Join(parts, '/') + tail
  {
    JoinLastAppend(parts, tail, '/');
  }

  /** The segments are `[""]` exactly when the path text is empty; otherwise none is empty. */
  lemma SegmentsNonEmpty(t: string)
    requires t == "" || t[0] != '/'
    ensures SegmentsOf(t) == [""] <==> t == ""
    ensures t != "" ==> forall k :: 0 <= k < |SegmentsOf(t)| ==> SegmentsOf(t)[k] != ""
  {
    if t != "" {
      var c := CollapseSlashes(PathPart(t));
      var parts := Split(c, '/');
      assert |parts| >= 1 && forall k :: 0 <= k < |parts| ==> parts[k] != "" by {
        CollapsedPathPart(t);
        SplitCollapsedNonEmpty(c);
        SplitOfUnrootedIsNonEmpty(c);
      }
      assert SegmentsOf(t) == AppendToLast(parts, Params(t));
      AppendKeepsNonEmpty(parts, Params(t));
    }
  }

  /** Appending to the last of non-empty parts leaves every part non-empty, and the list
      is not `[""]`. */
  lemma AppendKeepsNonEmpty(parts: seq<string>, tail: string)
    requires |parts| >= 1 && forall k :: 0 <= k < |parts| ==> parts[k] != ""
    ensures var r := AppendToLast(parts, tail);
      r != [""] && forall k :: 0 <= k < |r| ==> r[k] != ""
  {
    var r := AppendToLast(parts, tail);
    forall k | 0 <= k < |r|
      ensures r[k] != ""
    {
      if k < |r| - 1 {
        assert r[k] == r[..|r| - 1][k] == parts[k];
      }
    }
    assert r[0] != "";
  }

  /** Without a `?`, no segment holds a slash or a `?`. */
  lemma SeparatorsWithoutQuery(t: string)
    requires (t == "" || t[0] != '/') && IndexOf(t, '?') == -1
    ensures Avoids(SegmentsOf(t), '/') && Avoids(SegmentsOf(t), '?')
  {
    SegmentsWithoutQuery(t);
    CollapsedWithoutQuery(t);
    PiecesWithout(CollapseSlashes(t), '?');
  }

  /** Without a `?`, the collapsed text has none either, no doubled slash, and no leading
      slash. */
  lemma CollapsedWithoutQuery(t: string)
    requires (t == "" || t[0] != '/') && IndexOf(t, '?') == -1
    ensures var c := CollapseSlashes(t); NoDoubleSlash(c) && (c == "" || c[0] != '/') && '?' !in c
  {
    assert PathPart(t) == t;
    CollapsedPathPart(t);
    if '?' in CollapseSlashes(t) {
      CollapseChars(t, '?');
    }
  }

  /** A character absent from a collapsed unrooted path is absent from each of its pieces. */
  lemma PiecesWithout(c: string, ch: char)
    requires NoDoubleSlash(c) && (c == "" || c[0] != '/') && ch !in c
    ensures Avoids(Split(c, '/'), '/') && Avoids(Split(c, '/'), ch)
  {
    forall k | 0 <= k < |Split(c, '/')|
      ensures ch !in Split(c, '/')[k]
    {
      if ch in Split(c, '/')[k] {
        PieceCharsInPath(c, k, ch);
      }
    }
  }

  /** With the first `?` at `p`: no segment but the last holds a slash or a `?`, and the last
      is a piece without either followed by the query tail `t[p..]`. */
  lemma SeparatorsWithQuery(t: string, p: nat)
    requires (t == "" || t[0] != '/') && p < |t| && IndexOf(t, '?') == p
    ensures var segs := SegmentsOf(t);
      forall k :: 0 <= k < |segs| - 1 ==> '/' !in segs[k] && '?' !in segs[k]
    ensures var last := SegmentsOf(t)[|SegmentsOf(t)| - 1];
      EndsWith(last, t[p..]) && var piece := last[..|last| - |t[p..]|];
      '/' !in piece && '?' !in piece
  {
    var c := CollapseSlashes(t[..p + 1]);
    var x := CollapseSlashes(t[..p]);
    var parts := Split(c, '/');
    assert PathPart(t) == t[..p + 1] && Params(t) == t[p + 1..];
    CollapsedBeforeQuery(t, p);
    SplitJoinsBack(c, '/');
    var segs := SegmentsOf(t);
    assert segs == AppendToLast(parts, t[p + 1..]);
    forall k | 0 <= k < |segs| - 1
      ensures '/' !in segs[k] && '?' !in segs[k]
    {
      assert segs[k] == segs[..|segs| - 1][k] == parts[k];
      if '?' in parts[k] {
        JoinLastPiece(parts, '/', k, '?');
        InPrefix(c, |c| - |parts[|parts| - 1]| - 1, x);
      }
    }
    LastSegmentWithQuery(t, p, parts);
  }

  /** A character in a prefix of `x + "?"` no longer than `x` is a character of `x`. */
  lemma InPrefix(c: string, m: nat, x: string)
    requires c == x + "?" && m <= |x| && '?' in c[..m]
    ensures '?' in x
  {
    assert c[..m] == x[..m];
  }

  /** The last segment when the first `?` is at `p`: the last piece of the collapsed path part
      (which ends with that `?`) followed by the parameters. */
  lemma LastSegmentWithQuery(t: string, p: nat, parts: seq<string>)
    requires (t == "" || t[0] != '/') && p < |t| && IndexOf(t, '?') == p
    requires parts == Split(CollapseSlashes(t[..p + 1]), '/')
    ensures var last := SegmentsOf(t)[|SegmentsOf(t)| - 1];
      EndsWith(last, t[p..]) && var piece := last[..|last| - |t[p..]|];
      '/' !in piece && '?' !in piece
  {
    var c := CollapseSlashes(t[..p + 1]);
    CollapsedBeforeQuery(t, p);
    SplitJoinsBack(c, '/');
    var piece := LastPieceOfQueryPath(c, CollapseSlashes(t[..p]), parts);
    LastSegmentIsLastPiece(t, p, parts);
    GlueQuery(SegmentsOf(t)[|SegmentsOf(t)| - 1], piece, t, p);
  }

  /** With the first `?` at `p`, the last segment is the last piece of the collapsed path
      part followed by the parameters. */
  lemma LastSegmentIsLastPiece(t: string, p: nat, parts: seq<string>)
    requires (t == "" || t[0] != '/') && p < |t| && IndexOf(t, '?') == p
    requires parts == Split(CollapseSlashes(t[..p + 1]), '/')
    ensures |parts| >= 1
    ensures SegmentsOf(t)[|SegmentsOf(t)| - 1] == parts[|parts| - 1] + t[p + 1..]
  {
    assert PathPart(t) == t[..p + 1] && Params(t) == t[p + 1..];
    SplitOfUnrootedIsNonEmpty(CollapseSlashes(t[..p + 1]));
    assert SegmentsOf(t) == AppendToLast(parts, t[p + 1..]);
  }

  /** The last piece of the split of `x + "?"` is a piece of `x` without slashes, then the `?`. */
  lemma LastPieceOfQueryPath(c: string, x: string, parts: seq<string>) returns (piece: string)
    requires c == x + "?" && parts == Split(c, '/') && |parts| >= 1 && Join(parts, '/') == c
    ensures parts[|parts| - 1] == piece + "?"
    ensures '/' !in piece && ('?' !in x ==> '?' !in piece)
  {
    JoinEndsWithLast(parts, '/');
    var l := parts[|parts| - 1];
    piece := l[..|l| - 1];
    QuerySuffix(x, l);
    NotInSlice(l, 0, |l| - 1, '/');
    if '?' !in x {
      NotInSlice(x, |x| - |piece|, |x|, '?');
    }
  }

  /** A non-empty suffix of `x + "?"` is a suffix of `x` followed by the `?`. */
  lemma QuerySuffix(x: string, l: string)
    requires l != "" && EndsWith(x + "?", l)
    ensures l == l[..|l| - 1] + "?" && l[..|l| - 1] == x[|x| - (|l| - 1)..]
  {
    var c := x + "?";
    assert l == c[|c| - |l|..];
    assert l[|l| - 1] == '?';
  }

  /** A character missing from a text is missing from each slice of it. */
  lemma NotInSlice(s: string, i: nat, j: nat, ch: char)
    requires i <= j <= |s| && ch !in s
    ensures ch !in s[i..j]
  {
    assert forall k :: 0 <= k < j - i ==> s[i..j][k] == s[i + k];
  }

  /** A last segment made of a piece, the `?` and the parameters ends with the query tail. */
  lemma GlueQuery(last: string, piece: string, t: string, p: nat)
    requires p < |t| && t[p] == '?' && last == piece + "?" + t[p + 1..]
    ensures EndsWith(last, t[p..]) && last[..|last| - |t[p..]|] == piece
  {
    assert t[p..] == "?" + t[p + 1..];
    ConcatAssoc(piece, "?", t[p + 1..]);
  }

  // ---------------------------------------------------------------------------
  // The two limits

  /** A run of equal segments ending at `i` is part of that value's count so far. */
  lemma {:induction false} RunWithinCount(s: seq<string>, i: nat)
    requires i < |s|
    ensures RunLength(s, i) <= multiset(s[..i + 1])[s[i]]
  {
    assert s[..i + 1] == s[..i] + [s[i]];
    if i > 0 && s[i - 1] == s[i] {
      RunWithinCount(s, i - 1);
      assert s[..i] == s[..i - 1] + [s[i - 1]];
    }
  }

  /** With `maxConSeg >= maxSeg > 0` the consecutive limit never decides: the URL is a trap
      exactly when some value occurs too often. */
  lemma ConsecutiveLimitRedundant(s: seq<string>, maxSeg: int, maxConSeg: int)
    requires maxConSeg >= maxSeg > 0
    ensures IsTrap(s, maxSeg, maxConSeg) <==> TooManyOccurrences(s, maxSeg)
  {
    if RunTooLong(s, maxConSeg) {
      var i :| 0 <= i < |s| && RunLength(s, i) > maxConSeg;
      RunWithinCount(s, i);
      PrefixCountAtMostTotal(s, i);
    }
  }
}
