/** A declarative description of the segments of a path, independent of how
    `getSegments` computes them, and the proof that it pins them down exactly. */
module PathSegmentsSpec {
  import opened JavaText
  import opened PathSegments
  import opened PathSegmentsLemmas

  /** The path a segment list must join back to: the collapsed text before the first `?`,
      or, without a `?`, the collapsed text minus a trailing slash. */
  function JoinedPath(t: string): string {
    var q := QueryTail(t);
    if q == "" then DropTrailingSlash(CollapseSlashes(t)) else CollapseSlashes(t[..|t| - |q|])
  }

  /** The segments with the query tail `q` taken off the last one. */
  function Pieces(segs: seq<string>, q: string): (pieces: seq<string>)
    requires |segs| >= 1 && EndsWith(segs[|segs| - 1], q)
    ensures |pieces| == |segs| && pieces[..|segs| - 1] == segs[..|segs| - 1]
    ensures pieces[|segs| - 1] + q == segs[|segs| - 1]
  {
    var last := segs[|segs| - 1];
    segs[..|segs| - 1] + [last[..|last| - |q|]]
  }

  /** `segs` are segments of the path text `t`: the last one ends with the query tail, and
      once that is taken off, no segment holds a slash and together they join back to the
      collapsed path. */
  predicate Describes(t: string, segs: seq<string>) {
    Fits(QueryTail(t), JoinedPath(t), segs)
  }

  /** `segs` end with the tail `q`, and once it is taken off, no segment holds a slash and
      together they join to `path`. */
  predicate Fits(q: string, path: string, segs: seq<string>) {
    |segs| >= 1 && EndsWith(segs[|segs| - 1], q) &&
    Avoids(Pieces(segs, q), '/') && Join(Pieces(segs, q), '/') == path
  }

  /** The computed segments meet the description. */
  lemma SegmentsMeetDescription(t: string)
    requires t == "" || t[0] != '/'
    ensures Describes(t, SegmentsOf(t))
  {
    var p := IndexOf(t, '?');
    if p == -1 {
      DescribedWithoutQuery(t);
    } else {
      DescribedWithQuery(t, p);
    }
  }

  /** `SegmentsMeetDescription` for a path text without `?`. */
  lemma DescribedWithoutQuery(t: string)
    requires (t == "" || t[0] != '/') && IndexOf(t, '?') == -1
    ensures Describes(t, SegmentsOf(t))
  {
    NoQueryTail(t);
    SeparatorsWithoutQuery(t);
    RejoinWithoutQuery(t);
    FitsWithoutTail(SegmentsOf(t), JoinedPath(t));
  }

  /** Without a `?` there is no query tail, and the path to rejoin is the collapsed text
      minus a trailing slash. */
  lemma NoQueryTail(t: string)
    requires IndexOf(t, '?') == -1
    ensures QueryTail(t) == "" && JoinedPath(t) == DropTrailingSlash(CollapseSlashes(t))
  {
  }

  /** Slash-free segments that join to `path` fit it with no tail. */
  lemma FitsWithoutTail(segs: seq<string>, path: string)
    requires |segs| >= 1 && Avoids(segs, '/') && Join(segs, '/') == path
    ensures Fits("", path, segs)
  {
    PiecesWithoutTail(segs);
  }

  /** `SegmentsMeetDescription` for a path text whose first `?` is at `p`. */
  lemma DescribedWithQuery(t: string, p: nat)
    requires (t == "" || t[0] != '/') && p < |t| && IndexOf(t, '?') == p
    ensures Describes(t, SegmentsOf(t))
  {
    var segs := SegmentsOf(t);
    var q := t[p..];
    QueryTailAt(t, p);
    SeparatorsWithQuery(t, p);
    PiecesFree(segs, q);
    RejoinWithQuery(t, p);
    JoinPieces(segs, q);
    CancelTail(Join(Pieces(segs, q), '/'), CollapseSlashes(t[..p]), q);
  }

  /** Equal texts with the same tail are equal without it. */
  lemma CancelTail(a: string, b: string, q: string)
    requires a + q == b + q
    ensures a == b
  {
    assert a == (a + q)[..|a|];
  }

  /** With the first `?` at `p`, the query tail starts at `p` and the path to rejoin is
      the collapsed text before it. */
  lemma QueryTailAt(t: string, p: nat)
    requires p < |t| && IndexOf(t, '?') == p
    ensures QueryTail(t) == t[p..] && JoinedPath(t) == CollapseSlashes(t[..p])
  {
    assert t[..|t| - |t[p..]|] == t[..p];
  }

  /** Taking the empty tail off changes nothing. */
  lemma PiecesWithoutTail(segs: seq<string>)
    requires |segs| >= 1
    ensures Pieces(segs, "") == segs
  {
    var n := |segs|;
    assert segs[n - 1][..|segs[n - 1]|] == segs[n - 1];
    assert segs == segs[..n - 1] + [segs[n - 1]];
  }

  /** Segments without slashes, but the last which has none before the tail, give slash-free pieces. */
  lemma PiecesFree(segs: seq<string>, q: string)
    requires |segs| >= 1 && EndsWith(segs[|segs| - 1], q)
    requires forall k :: 0 <= k < |segs| - 1 ==> '/' !in segs[k]
    requires var last := segs[|segs| - 1]; '/' !in last[..|last| - |q|]
    ensures Avoids(Pieces(segs, q), '/')
  {
    var pieces := Pieces(segs, q);
    forall k | 0 <= k < |segs| - 1
      ensures '/' !in pieces[k]
    {
      assert pieces[k] == pieces[..|segs| - 1][k];
    }
  }

  /** The segments join to their pieces' join followed by the tail. */
  lemma JoinPieces(segs: seq<string>, q: string)
    requires |segs| >= 1 && EndsWith(segs[|segs| - 1], q)
    ensures Join(segs, '/') == Join(Pieces(segs, q), '/') + q
  {
    var pieces := Pieces(segs, q);
    RebuildFromPieces(segs, q);
    JoinLastAppend(pieces, q, '/');
  }

  /** Putting the tail back on the last piece gives the segments. */
  lemma RebuildFromPieces(segs: seq<string>, q: string)
    requires |segs| >= 1 && EndsWith(segs[|segs| - 1], q)
    ensures var pieces := Pieces(segs, q);
      pieces[..|pieces| - 1] + [pieces[|pieces| - 1] + q] == segs
  {
    var n := |segs|;
    assert segs == segs[..n - 1] + [segs[n - 1]];
  }

  /** The segment list a query tail and a rejoined path determine: the path split at
      every slash, with the tail put back on the last piece. */
  function FromShape(q: string, path: string): (segs: seq<string>)
    ensures |segs| >= 1
  {
    var ps := SplitAll(path, '/');
    ps[..|ps| - 1] + [ps[|ps| - 1] + q]
  }

  /** A segment list that fits a tail and a path is the one they determine. */
  lemma FitsIsShape(q: string, path: string, segs: seq<string>)
    requires Fits(q, path, segs)
    ensures segs == FromShape(q, path)
  {
    SplitAllJoin(Pieces(segs, q), '/');
    RebuildFromPieces(segs, q);
  }

  /** The computed segments are the ones the query tail and the rejoined path determine. */
  lemma ComputedShape(t: string)
    requires t == "" || t[0] != '/'
    ensures SegmentsOf(t) == FromShape(QueryTail(t), JoinedPath(t))
  {
    SegmentsMeetDescription(t);
    FitsIsShape(QueryTail(t), JoinedPath(t), SegmentsOf(t));
  }

  /** Only one segment list meets the description: the computed one. */
  lemma DescriptionIsUnique(t: string, segs: seq<string>)
    requires t == "" || t[0] != '/'
    requires Describes(t, segs)
    ensures segs == SegmentsOf(t)
  {
    ComputedShape(t);
    FitsIsShape(QueryTail(t), JoinedPath(t), segs);
  }

  /** The segments depend on a path text only through its query tail and the collapsed
      path before it: slash runs before the `?` may differ in length, those inside the
      query may not. */
  lemma SameShapeSameSegments(t1: string, t2: string)
    requires (t1 == "" || t1[0] != '/') && (t2 == "" || t2[0] != '/')
    requires QueryTail(t1) == QueryTail(t2) && JoinedPath(t1) == JoinedPath(t2)
    ensures SegmentsOf(t1) == SegmentsOf(t2)
  {
    ComputedShape(t1);
    ComputedShape(t2);
  }

  // ---------------------------------------------------------------------------
  // The cut through the scheme and authority

  /** Cutting through the first slash of `a + "/" + b`, where `a` has none, leaves `b`. */
  lemma SkipThrough(a: string, b: string, n: nat)
    requires '/' !in a
    ensures SkipLength(a + "/" + b, n + 1) == |a| + 1 + SkipLength(b, n)
  {
    var s := a + "/" + b;
    assert s[..|a|] == a;
    IndexOfAt(s, '/', |a|);
    assert s[|a| + 1..] == b;
  }

  /** For a URL `scheme://host/rest` (no slash in scheme or host) the path text is `rest`
      without its leading slashes. */
  lemma AuthorityCut(scheme: string, host: string, rest: string)
    requires '/' !in scheme && '/' !in host
    ensures PathText(scheme + "//" + host + "/" + rest) == StripLeadingSlashes(rest)
  {
    var uri := scheme + "//" + host + "/" + rest;
    var b1 := "/" + host + "/" + rest;
    var b2 := host + "/" + rest;
    assert uri == scheme + "/" + b1;
    assert b1 == "" + "/" + b2;
    SkipThrough(scheme, b1, 2);
    SkipThrough("", b2, 1);
    SkipThrough(host, rest, 0);
    assert uri[|scheme| + |host| + 3..] == rest;
  }

  // ---------------------------------------------------------------------------
  // Round trip: joining segments and splitting them again

  /** Pieces a path can be built from: none holds a slash or a `?`, and only the last may be empty. */
  predicate Buildable(parts: seq<string>) {
    |parts| >= 1 &&
    (forall k :: 0 <= k < |parts| ==> '/' !in parts[k] && '?' !in parts[k]) &&
    (forall k :: 0 <= k < |parts| - 1 ==> parts[k] != "")
  }

  /** Joining such pieces gives a collapsed, unrooted path, with no trailing slash when the
      last piece is not empty. */
  lemma {:induction false} JoinShape(parts: seq<string>)
    requires Buildable(parts)
    ensures var j := Join(parts, '/');
      NoDoubleSlash(j) && (j == "" || j[0] != '/') &&
      (parts[|parts| - 1] != "" ==> j != "" && j[|j| - 1] != '/')
    decreases |parts|
  {
    if |parts| == 1 {
      assert Join(parts, '/') == parts[0];
      assert forall i :: 0 <= i < |parts[0]| ==> parts[0][i] != '/';
    } else {
      var tail := parts[1..];
      assert forall k :: 0 <= k < |tail| ==> tail[k] == parts[k + 1];
      JoinShape(tail);
      assert Join(parts, '/') == parts[0] + "/" + Join(tail, '/');
      GlueSlash(parts[0], Join(tail, '/'));
    }
  }

  /** A nonempty slash-free text, a slash, and a collapsed unrooted text make a collapsed
      unrooted text. */
  lemma GlueSlash(a: string, b: string)
    requires a != "" && '/' !in a
    requires NoDoubleSlash(b) && (b == "" || b[0] != '/')
    ensures var s := a + "/" + b; NoDoubleSlash(s) && s[0] != '/'
    ensures b != "" ==> (a + "/" + b)[|a + "/" + b| - 1] == b[|b| - 1]
  {
    var s := a + "/" + b;
    forall i | 0 <= i < |s| - 1
      ensures !(s[i] == '/' && s[i + 1] == '/')
    {
      if i < |a| {
        assert s[i] == a[i];
      } else if i > |a| {
        assert s[i] == b[i - |a| - 1] && s[i + 1] == b[i - |a|];
      }
    }
  }

  /** Joining slash- and `?`-free pieces with `/`, appending a query tail, and cutting the
      result into segments gives back the pieces, with the tail on the last one. */
  lemma SegmentsRoundTrip(parts: seq<string>, q: string)
    requires Buildable(parts)
    requires q == "" || q[0] == '?'
    requires q == "" && |parts| > 1 ==> parts[|parts| - 1] != ""
    ensures var t := Join(parts, '/') + q; (t == "" || t[0] != '/') && SegmentsOf(t) == AppendToLast(parts, q)
  {
    JoinShape(parts);
    JoinAvoids(parts, '/', '?');
    if q == "" {
      RoundTripWithoutQuery(parts);
    } else {
      RoundTripWithQuery(parts, q);
    }
  }

  /** `SegmentsRoundTrip` without a query tail. */
  lemma RoundTripWithoutQuery(parts: seq<string>)
    requires Buildable(parts) && (|parts| > 1 ==> parts[|parts| - 1] != "")
    requires var j := Join(parts, '/'); NoDoubleSlash(j) && (j == "" || j[0] != '/') && '?' !in j
    requires var j := Join(parts, '/'); parts[|parts| - 1] != "" ==> j != "" && j[|j| - 1] != '/'
    ensures var t := Join(parts, '/') + ""; (t == "" || t[0] != '/') && SegmentsOf(t) == AppendToLast(parts, "")
  {
    var j := Join(parts, '/');
    assert j + "" == j;
    NoQueryIn(j);
    DescribedByParts(j, parts, "");
    DescriptionIsUnique(j, AppendToLast(parts, ""));
  }

  /** A collapsed path with no `?` and no trailing slash is its own path to rejoin. */
  lemma NoQueryIn(j: string)
    requires NoDoubleSlash(j) && '?' !in j && (j == "" || j[|j| - 1] != '/')
    ensures QueryTail(j) == "" && JoinedPath(j) == j
  {
    CollapseIdentity(j);
  }

  /** `SegmentsRoundTrip` with a query tail. */
  lemma RoundTripWithQuery(parts: seq<string>, q: string)
    requires Buildable(parts) && q != "" && q[0] == '?'
    requires var j := Join(parts, '/'); NoDoubleSlash(j) && (j == "" || j[0] != '/') && '?' !in j
    ensures var t := Join(parts, '/') + q; (t == "" || t[0] != '/') && SegmentsOf(t) == AppendToLast(parts, q)
  {
    var j := Join(parts, '/');
    CollapseIdentity(j);
    QueryAfter(j, q);
    DescribedByParts(j + q, parts, q);
    DescriptionIsUnique(j + q, AppendToLast(parts, q));
  }

  /** In `j + q`, with no `?` in `j` and `q` starting with one, `q` is the query tail and
      `j` is what comes before it. */
  lemma QueryAfter(j: string, q: string)
    requires '?' !in j && q != "" && q[0] == '?'
    ensures QueryTail(j + q) == q && JoinedPath(j + q) == CollapseSlashes(j)
  {
    var t := j + q;
    assert t[..|j|] == j && t[|j|] == '?';
    IndexOfAt(t, '?', |j|);
    assert t[|j|..] == q && t[..|t| - |q|] == j;
  }

  /** Slash-free pieces that join to the path of `t`, with its query tail on the last,
      are described segments of `t`. */
  lemma DescribedByParts(t: string, parts: seq<string>, q: string)
    requires |parts| >= 1 && QueryTail(t) == q
    requires Avoids(parts, '/')
    requires Join(parts, '/') == JoinedPath(t)
    ensures Describes(t, AppendToLast(parts, q))
  {
    PiecesOfAppended(parts, q);
  }

  /** Taking the tail back off the last segment gives the pieces. */
  lemma PiecesOfAppended(parts: seq<string>, q: string)
    requires |parts| >= 1
    ensures var segs := AppendToLast(parts, q);
      EndsWith(segs[|segs| - 1], q) && Pieces(segs, q) == parts
  {
    var segs := AppendToLast(parts, q);
    var n := |parts|;
    assert segs[n - 1][..|segs[n - 1]| - |q|] == parts[n - 1];
    assert parts == parts[..n - 1] + [parts[n - 1]];
  }
}
