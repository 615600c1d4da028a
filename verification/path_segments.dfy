/** The crawler-trap guard of PathSegmentsDecideRule: a URL's path is cut into
    segments, and the URL is rejected when one segment value repeats too often,
    in total or back to back. */
module PathSegments {
  import opened JavaText

  /** The verdict of a decide rule; `Abstain` is the framework's NONE ("no opinion"). */
  datatype DecideResult = Accept | Reject | Abstain

  /** Default for `maximumIdenticalSegments`. */
  const DefaultMaximumIdenticalSegments: int := 3

  /** Default for `maximumIdenticalConsecutiveSegments`. */
  const DefaultMaximumIdenticalConsecutiveSegments: int := 2

  // ---------------------------------------------------------------------------
  // Segment extraction

  /** A string of `n` slashes. */
  function Slashes(n: nat): (r: string)
    ensures |r| == n
    ensures forall i :: 0 <= i < n ==> r[i] == '/'
  {
    if n == 0 then "" else "/" + Slashes(n - 1)
  }

  /** How many leading characters of `s` are dropped by cutting through its `n`-th
      slash; with fewer than `n` slashes, through the last one. */
  function SkipLength(s: string, n: nat): (k: nat)
    ensures k <= |s|
  {
    if n == 0 then 0
    else
      var i := IndexOf(s, '/');
      if i < 0 then 0 else i + 1 + SkipLength(s[i + 1..], n - 1)
  }

  /** The number of slashes `s` starts with. */
  function LeadingSlashes(s: string): (k: nat)
    ensures k <= |s|
    ensures forall i :: 0 <= i < k ==> s[i] == '/'
    ensures k == |s| || s[k] != '/'
  {
    LeadingSlashesFrom(s, 0)
  }

  /** The end of the run of slashes that covers positions `0 .. j - 1` of `s`. */
  function LeadingSlashesFrom(s: string, j: nat): (k: nat)
    requires j <= |s| && forall i :: 0 <= i < j ==> s[i] == '/'
    ensures j <= k <= |s|
    ensures forall i :: 0 <= i < k ==> s[i] == '/'
    ensures k == |s| || s[k] != '/'
    decreases |s| - j
  {
    if j < |s| && s[j] == '/' then LeadingSlashesFrom(s, j + 1) else j
  }

  /** `s` without its leading slashes: the loop that drops one leading slash at a time. */
  function StripLeadingSlashes(s: string): (r: string)
    ensures r == "" || r[0] != '/'
  {
    s[LeadingSlashes(s)..]
  }

  /** No two adjacent slashes. */
  predicate NoDoubleSlash(s: string) {
    forall i :: 0 <= i < |s| - 1 ==> !(s[i] == '/' && s[i + 1] == '/')
  }

  /** No part holds `ch`. */
  predicate Avoids(parts: seq<string>, ch: char) {
    forall k :: 0 <= k < |parts| ==> ch !in parts[k]
  }

  /** `s.replaceAll("//+", "/")`: every run of slashes becomes a single slash. */
  function CollapseSlashes(s: string): (r: string)
    ensures |r| <= |s|
    ensures s == "" <==> r == ""
    ensures s != "" ==> r[0] == s[0]
    decreases |s|
  {
    if s == "" then ""
    else if s[0] == '/' then "/" + CollapseSlashes(StripLeadingSlashes(s))
    else [s[0]] + CollapseSlashes(s[1..])
  }

  /** The text the segments are cut from: the URL minus its scheme and authority
      (everything through the third slash) and minus any further leading slashes. */
  function PathText(uri: string): string {
    StripLeadingSlashes(uri[SkipLength(uri, 3)..])
  }

  /** The query tail of a path text: everything from its first `?` on, or "" when it has none. */
  function QueryTail(url: string): (q: string)
    ensures q == "" || q[0] == '?'
    ensures EndsWith(url, q)
  {
    var p := IndexOf(url, '?');
    if p == -1 then "" else url[p..]
  }

  /** The part of a path text that is split: through its first `?` (kept), or all of it. */
  function PathPart(url: string): (path: string)
    ensures StartsWith(url, path)
    ensures path == "" <==> url == ""
  {
    var p := IndexOf(url, '?');
    if p == -1 then url else url[..p + 1]
  }

  /** The parameters after the first `?` of a path text, or "" when it has none. */
  function Params(url: string): (params: string)
    ensures EndsWith(url, params)
  {
    var p := IndexOf(url, '?');
    if p == -1 then "" else url[p + 1..]
  }

  /** `parts` with `tail` appended to the last one. */
  function AppendToLast(parts: seq<string>, tail: string): (r: seq<string>)
    requires |parts| >= 1
    ensures |r| == |parts| && r[..|r| - 1] == parts[..|parts| - 1]
    ensures r[|r| - 1] == parts[|parts| - 1] + tail
  {
    parts[..|parts| - 1] + [parts[|parts| - 1] + tail]
  }

  /** The segments of a path text (a text that does not start with a slash): runs of
      slashes before the first `?` separate segments; the query tail, slashes and all,
      is glued to the last segment. */
  function SegmentsOf(url: string): (segments: seq<string>)
    requires url == "" || url[0] != '/'
    ensures |segments| >= 1
  {
    var c := CollapseSlashes(PathPart(url));
    SplitOfUnrootedIsNonEmpty(c);
    AppendToLast(Split(c, '/'), Params(url))
  }

  /** `getSegments`: the path segments of a URL. */
  function GetSegments(uri: string): (segments: seq<string>)
    ensures |segments| >= 1
  {
    SegmentsOf(PathText(uri))
  }

  // ---------------------------------------------------------------------------
  // Evaluation

  /** Length of the run of equal segments that ends at position `i`. */
  function RunLength(s: seq<string>, i: nat): (n: nat)
    requires i < |s|
    ensures 1 <= n <= i + 1
  {
    if i > 0 && s[i - 1] == s[i] then RunLength(s, i - 1) + 1 else 1
  }

  /** Some run of equal adjacent segments is longer than `maxConSeg` (a positive limit). */
  predicate RunTooLong(s: seq<string>, maxConSeg: int) {
    maxConSeg > 0 && exists i | 0 <= i < |s| :: RunLength(s, i) > maxConSeg
  }

  /** Some segment value occurs more than `maxSeg` times (a positive limit). */
  predicate TooManyOccurrences(s: seq<string>, maxSeg: int) {
    maxSeg > 0 && exists i | 0 <= i < |s| :: multiset(s)[s[i]] > maxSeg
  }

  /** The trap condition the rule rejects on. */
  predicate IsTrap(s: seq<string>, maxSeg: int, maxConSeg: int) {
    RunTooLong(s, maxConSeg) || TooManyOccurrences(s, maxSeg)
  }

  /** No run among the first `i` positions is longer than `maxConSeg` (when positive). */
  ghost predicate NoLongRunBefore(s: seq<string>, i: nat, maxConSeg: int)
    requires i <= |s|
  {
    !(maxConSeg > 0 && exists j | 0 <= j < i :: RunLength(s, j) > maxConSeg)
  }

  /** No value's running count among the first `i` positions exceeds `maxSeg` (when positive). */
  ghost predicate NoExcessBefore(s: seq<string>, i: nat, maxSeg: int)
    requires i <= |s|
  {
    !(maxSeg > 0 && exists j | 0 <= j < i :: multiset(s[..j + 1])[s[j]] > maxSeg)
  }

  /** `evaluate`: one pass over the segments with a run counter and a per-value count. */
  method Evaluate(maxSeg: int, maxConSeg: int, segments: seq<string>) returns (result: DecideResult)
    ensures result != Accept
    ensures result == Reject <==> IsTrap(segments, maxSeg, maxConSeg)
  {
    var consecutive := 0;
    var lastSeg := "";
    var segMap: map<string, int> := map[];
    var i := 0;
    while i < |segments|
      invariant 0 <= i <= |segments|
      invariant forall v :: v in segMap ==> segMap[v] == multiset(segments[..i])[v]
      invariant forall v :: v !in segMap ==> multiset(segments[..i])[v] == 0
      invariant i == 0 ==> consecutive == 0
      invariant i > 0 ==> lastSeg == segments[i - 1] && consecutive == RunLength(segments, i - 1)
      invariant NoLongRunBefore(segments, i, maxConSeg)
      invariant NoExcessBefore(segments, i, maxSeg)
    {
      var seg := segments[i];
      if seg == lastSeg {
        consecutive := consecutive + 1;
      } else {
        consecutive := 1;
      }
      assert consecutive == RunLength(segments, i);
      if consecutive > maxConSeg && maxConSeg > 0 {
        return Reject;
      }
      var count := if seg in segMap then segMap[seg] + 1 else 1;
      assert segments[..i + 1] == segments[..i] + [seg];
      assert count == multiset(segments[..i + 1])[seg];
      if count > maxSeg && maxSeg > 0 {
        PrefixCountAtMostTotal(segments, i);
        return Reject;
      }
      NoLongRunExtend(segments, i, maxConSeg);
      NoExcessExtend(segments, i, maxSeg);
      segMap := segMap[seg := count];
      lastSeg := seg;
      i := i + 1;
    }
    NoExcessMeansNoTooMany(segments, maxSeg);
    return Abstain;
  }

  /** `innerDecide`: a disabled rule (both limits non-positive) abstains without looking
      at the URL; otherwise the URL's segments are evaluated. */
  method InnerDecide(maxSeg: int, maxConSeg: int, uri: string) returns (result: DecideResult)
    ensures result != Accept
    ensures maxSeg <= 0 && maxConSeg <= 0 ==> result == Abstain
    ensures result == Reject <==> IsTrap(GetSegments(uri), maxSeg, maxConSeg)
  {
    if maxSeg <= 0 && maxConSeg <= 0 {
      return Abstain;
    }
    result := Evaluate(maxSeg, maxConSeg, GetSegments(uri));
  }

  // ---------------------------------------------------------------------------
  // Helper lemmas

  /** Java's split of a string that does not start with a slash has at least one piece. */
  lemma SplitOfUnrootedIsNonEmpty(s: string)
    requires s == "" || s[0] != '/'
    ensures |Split(s, '/')| >= 1
  {
    if s != "" {
      var parts := SplitAll(s, '/');
      var i := IndexOf(s, '/');
      assert parts[0] != "" by {
        if i >= 0 {
          assert parts[0] == s[..i];
          assert i != 0;
        }
      }
    }
  }

  /** The run ending at position `i` is short enough, so no run up to `i` is too long. */
  lemma NoLongRunExtend(s: seq<string>, i: nat, maxConSeg: int)
    requires i < |s| && NoLongRunBefore(s, i, maxConSeg)
    requires !(maxConSeg > 0 && RunLength(s, i) > maxConSeg)
    ensures NoLongRunBefore(s, i + 1, maxConSeg)
  {
  }

  /** The running count at position `i` is within the limit, so none up to `i` exceeds it. */
  lemma NoExcessExtend(s: seq<string>, i: nat, maxSeg: int)
    requires i < |s| && NoExcessBefore(s, i, maxSeg)
    requires !(maxSeg > 0 && multiset(s[..i + 1])[s[i]] > maxSeg)
    ensures NoExcessBefore(s, i + 1, maxSeg)
  {
  }

  /** The count of a value in a prefix never exceeds its total count. */
  lemma PrefixCountAtMostTotal(s: seq<string>, i: nat)
    requires i < |s|
    ensures multiset(s[..i + 1])[s[i]] <= multiset(s)[s[i]]
  {
    assert s == s[..i + 1] + s[i + 1..];
  }

  /** When no running count ever exceeds the limit, no total count does. */
  lemma NoExcessMeansNoTooMany(s: seq<string>, maxSeg: int)
    requires NoExcessBefore(s, |s|, maxSeg)
    ensures !TooManyOccurrences(s, maxSeg)
  {
    forall k | 0 <= k < |s|
      ensures !(maxSeg > 0 && multiset(s)[s[k]] > maxSeg)
    {
      var j := LastOccurrence(s, k);
      assert multiset(s[..j + 1])[s[j]] == multiset(s)[s[k]];
    }
  }

  /** The last position holding the value found at position `k`: there the prefix
      count equals the total count. */
  lemma LastOccurrence(s: seq<string>, k: nat) returns (j: nat)
    requires k < |s|
    ensures k <= j < |s| && s[j] == s[k]
    ensures multiset(s[..j + 1])[s[j]] == multiset(s)[s[j]]
  {
    j := k;
    while j + 1 < |s| && s[j + 1..] != [] && s[k] in s[j + 1..]
      invariant k <= j < |s| && s[j] == s[k]
      decreases |s| - j
    {
      var m :| j + 1 <= m < |s| && s[m] == s[k];
      j := m;
    }
    assert s == s[..j + 1] + s[j + 1..];
    assert s[k] !in s[j + 1..];
    assert multiset(s[j + 1..])[s[k]] == 0;
  }
}
