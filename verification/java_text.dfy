/** The pieces of java.lang.String and of Java integer arithmetic that the crawler
    add-ons rely on, written out over `seq<char>` and unbounded integers:
    `indexOf`, `split` on a one-character separator, joining, `startsWith`,
    `contains`, `isBlank`, narrowing to `int`, and truncating division. */
module JavaText {

  /** `s.startsWith(prefix)`. */
  predicate StartsWith(s: string, prefix: string) {
    |prefix| <= |s| && s[..|prefix|] == prefix
  }

  /** `s.endsWith(suffix)`. */
  predicate EndsWith(s: string, suffix: string) {
    |suffix| <= |s| && s[|s| - |suffix|..] == suffix
  }

  /** `s.contains(sub)`: `sub` occurs somewhere in `s` as a contiguous block. */
  predicate Contains(s: string, sub: string) {
    exists i | 0 <= i <= |s| - |sub| :: OccursAt(s, sub, i)
  }

  /** `sub` occurs in `s` starting at position `i`. */
  predicate OccursAt(s: string, sub: string, i: int) {
    0 <= i <= |s| - |sub| && s[i..i + |sub|] == sub
  }

  /** `s.indexOf(c)`: the position of the first `c` in `s`, or -1 when there is none. */
  function IndexOf(s: string, c: char): (i: int)
    ensures -1 <= i < |s|
    ensures i == -1 <==> c !in s
    ensures 0 <= i ==> s[i] == c && c !in s[..i]
  {
    IndexFrom(s, c, 0)
  }

  /** The position of the first `c` in `s` at or after `k`, or -1 when there is none. */
  function IndexFrom(s: string, c: char, k: nat): (i: int)
    requires k <= |s| && c !in s[..k]
    ensures -1 <= i < |s|
    ensures i == -1 <==> c !in s
    ensures 0 <= i ==> k <= i && s[i] == c && c !in s[..i]
    decreases |s| - k
  {
    if k == |s| then
      assert s[..k] == s;
      -1
    else if s[k] == c then k
    else
      assert s[..k + 1] == s[..k] + [s[k]];
      IndexFrom(s, c, k + 1)
  }

  /** The pieces of `s` between occurrences of `c`, empty pieces included:
      the split before Java drops trailing empty strings. */
  function SplitAll(s: string, c: char): (parts: seq<string>)
    ensures |parts| >= 1
    ensures forall k :: 0 <= k < |parts| ==> c !in parts[k]
    decreases |s|
  {
    var i := IndexOf(s, c);
    if i < 0 then [s] else [s[..i]] + SplitAll(s[i + 1..], c)
  }

  /** The pieces joined with `sep` between consecutive ones. */
  function Join(parts: seq<string>, sep: char): string
  {
    if |parts| == 0 then ""
    else if |parts| == 1 then parts[0]
    else parts[0] + [sep] + Join(parts[1..], sep)
  }

  /** The pieces, each followed by `sep`: what appending piece and separator in turn
      to a string buffer produces. */
  function Terminated(parts: seq<string>, sep: char): string
  {
    if |parts| == 0 then ""
    else Terminated(parts[..|parts| - 1], sep) + parts[|parts| - 1] + [sep]
  }

  /** `xs` without its trailing run of empty strings. */
  function DropTrailingEmpty(xs: seq<string>): (r: seq<string>)
    ensures |r| <= |xs| && r == xs[..|r|]
    ensures |r| > 0 ==> r[|r| - 1] != ""
    ensures forall k :: |r| <= k < |xs| ==> xs[k] == ""
  {
    if |xs| == 0 then xs
    else if xs[|xs| - 1] == "" then DropTrailingEmpty(xs[..|xs| - 1])
    else xs
  }

  /** `s.split(c)` for a separator that is not a regex metacharacter: trailing
      empty strings are removed, except that the empty string splits to `[""]`. */
  function Split(s: string, c: char): (parts: seq<string>)
    ensures forall k :: 0 <= k < |parts| ==> c !in parts[k]
    ensures s == "" ==> parts == [""]
    ensures s != "" && |parts| > 0 ==> parts[|parts| - 1] != ""
  {
    if s == "" then [""] else DropTrailingEmpty(SplitAll(s, c))
  }

  /** Java's `Character.isWhitespace`: the Unicode space, line and paragraph
      separators other than the no-break spaces, plus the ASCII controls
      tab, line feed, vertical tab, form feed, carriage return and U+001C..U+001F. */
  predicate IsWhitespace(ch: char) {
    || ch == ' ' || ch == '\t' || ch == '\n' || ch == '\U{B}' || ch == '\U{C}' || ch == '\r'
    || ('\U{1C}' <= ch <= '\U{1F}')
    || ch == '\U{1680}' || ('\U{2000}' <= ch <= '\U{2006}') || ('\U{2008}' <= ch <= '\U{200A}')
    || ch == '\U{2028}' || ch == '\U{2029}' || ch == '\U{205F}' || ch == '\U{3000}'
  }

  /** `s.isBlank()`: empty, or whitespace only. */
  predicate IsBlank(s: string) {
    forall i :: 0 <= i < |s| ==> IsWhitespace(s[i])
  }

  const TwoTo31: int := 0x8000_0000
  const TwoTo32: int := 0x1_0000_0000

  /** Narrowing of an integer to Java `int` (two's complement, 32 bits). */
  function ToInt32(x: int): (r: int)
    ensures -TwoTo31 <= r < TwoTo31
    ensures (r - x) % TwoTo32 == 0
    ensures -TwoTo31 <= x < TwoTo31 ==> r == x
  {
    (x + TwoTo31) % TwoTo32 - TwoTo31
  }

  /** Java's integer division `a / b` for a positive divisor: it truncates toward zero. */
  function JavaDiv(a: int, b: int): (q: int)
    requires b > 0
  {
    if a >= 0 then a / b else -((-a) / b)
  }

  // ---------------------------------------------------------------------------
  // Lemmas relating Split/SplitAll and Join

  /** Joining two lists of pieces: the separator goes between them. */
  lemma {:induction false} JoinAppend(xs: seq<string>, ys: seq<string>, c: char)
    requires |xs| >= 1 && |ys| >= 1
    ensures Join(xs + ys, c) == Join(xs, c) + [c] + Join(ys, c)
    decreases |xs|
  {
    if |xs| == 1 {
      assert (xs + ys)[1..] == ys;
    } else {
      assert (xs + ys)[1..] == xs[1..] + ys;
      JoinAppend(xs[1..], ys, c);
    }
  }

  /** `IndexOf` finds the separator placed right after a piece that does not contain it. */
  lemma IndexOfAfterPiece(a: string, c: char, b: string)
    requires c !in a
    ensures IndexOf(a + [c] + b, c) == |a|
  {
    var s := a + [c] + b;
    assert s[..|a|] == a;
    assert s[|a|] == c;
  }

  /** Joining the pieces of a string gives the string back. */
  lemma {:induction false} JoinSplitAll(s: string, c: char)
    ensures Join(SplitAll(s, c), c) == s
    decreases |s|
  {
    var i := IndexOf(s, c);
    if i >= 0 {
      var head, tail := s[..i], s[i + 1..];
      var rest := SplitAll(tail, c);
      JoinSplitAll(tail, c);
      JoinPieceStep(head, tail, rest, c);
      assert SplitAll(s, c) == [head] + rest;
      SplitAround(s, i);
    } else {
      assert SplitAll(s, c) == [s];
    }
  }

  /** A piece and a separator in front of pieces that join to `tail`. */
  lemma JoinPieceStep(head: string, tail: string, rest: seq<string>, c: char)
    requires |rest| >= 1 && Join(rest, c) == tail
    ensures Join([head] + rest, c) == head + [c] + tail
  {
    assert ([head] + rest)[1..] == rest;
  }

  /** A string is what comes before position `i`, the character there, and the rest. */
  lemma SplitAround(s: string, i: nat)
    requires i < |s|
    ensures s == s[..i] + [s[i]] + s[i + 1..]
  {
  }

  /** Splitting the join of separator-free pieces gives the pieces back. */
  lemma {:induction false} SplitAllJoin(parts: seq<string>, c: char)
    requires |parts| >= 1
    requires forall k :: 0 <= k < |parts| ==> c !in parts[k]
    ensures SplitAll(Join(parts, c), c) == parts
    decreases |parts|
  {
    if |parts| > 1 {
      var tail := Join(parts[1..], c);
      assert Join(parts, c) == parts[0] + [c] + tail;
      SplitAllCons(parts[0], c, tail);
      SplitAllJoin(parts[1..], c);
      assert parts == [parts[0]] + parts[1..];
    }
  }

  /** A separator-free piece followed by the separator splits off as the first piece. */
  lemma SplitAllCons(a: string, c: char, tail: string)
    requires c !in a
    ensures SplitAll(a + [c] + tail, c) == [a] + SplitAll(tail, c)
  {
    var s := a + [c] + tail;
    IndexOfAfterPiece(a, c, tail);
    assert s[..|a|] == a;
    assert s[|a| + 1..] == tail;
  }

  /** A join ends with its last piece, preceded by the separator when there are several. */
  lemma JoinSnoc(parts: seq<string>, x: string, c: char)
    requires |parts| >= 1
    ensures Join(parts + [x], c) == Join(parts, c) + [c] + x
  {
    JoinAppend(parts, [x], c);
  }

  /** The last piece of a split is empty only when the string is empty or ends with the separator. */
  lemma SplitAllLastEmpty(s: string, c: char)
    requires SplitAll(s, c)[|SplitAll(s, c)| - 1] == ""
    ensures s == "" || s[|s| - 1] == c
  {
    var parts := SplitAll(s, c);
    JoinSplitAll(s, c);
    if |parts| > 1 {
      var init := parts[..|parts| - 1];
      assert parts == init + [""];
      JoinSnoc(init, "", c);
    }
  }

  /** A non-empty string that does not end with the separator loses nothing to Java's
      trailing-empty rule, and its pieces join back to it. */
  lemma SplitJoinsBack(s: string, c: char)
    requires s != "" && s[|s| - 1] != c
    ensures Split(s, c) == SplitAll(s, c)
    ensures Join(Split(s, c), c) == s
  {
    var parts := SplitAll(s, c);
    if parts[|parts| - 1] == "" {
      SplitAllLastEmpty(s, c);
    }
    JoinSplitAll(s, c);
  }

  /** Java's split undoes a join of separator-free pieces whose last piece is non-empty. */
  lemma SplitJoin(parts: seq<string>, c: char)
    requires |parts| >= 1 && parts[|parts| - 1] != ""
    requires forall k :: 0 <= k < |parts| ==> c !in parts[k]
    ensures Split(Join(parts, c), c) == parts
  {
    var s := Join(parts, c);
    SplitAllJoin(parts, c);
    if |parts| > 1 {
      assert s == parts[0] + [c] + Join(parts[1..], c);
      assert s[|parts[0]|] == c;
    }
    assert s != "";
    assert Split(s, c) == DropTrailingEmpty(parts);
  }

  /** Splitting a string and cutting the pieces at `k` splits the string at the `k`-th separator. */
  lemma JoinSplitsAt(parts: seq<string>, k: nat, c: char)
    requires 0 < k < |parts|
    ensures Join(parts, c) == Join(parts[..k], c) + [c] + Join(parts[k..], c)
  {
    JoinAppend(parts[..k], parts[k..], c);
    assert parts[..k] + parts[k..] == parts;
  }

  /** A trailing separator adds one empty piece. */
  lemma SplitAllSnoc(x: string, c: char)
    ensures SplitAll(x + [c], c) == SplitAll(x, c) + [""]
  {
    var parts := SplitAll(x, c);
    JoinSplitAll(x, c);
    JoinSnoc(parts, "", c);
    assert x + [c] == Join(parts + [""], c);
    SplitAllJoin(parts + [""], c);
  }

  /** A piece of a join occurs in the join. */
  lemma {:induction false} InJoin(parts: seq<string>, c: char, k: nat, ch: char)
    requires k < |parts| && ch in parts[k]
    ensures ch in Join(parts, c)
    decreases |parts|
  {
    if |parts| > 1 {
      var tail := Join(parts[1..], c);
      assert Join(parts, c) == parts[0] + [c] + tail;
      if k > 0 {
        assert parts[1..][k - 1] == parts[k];
        InJoin(parts[1..], c, k - 1, ch);
      }
    }
  }

  /** A character other than the separator that no piece holds is not in the join. */
  lemma {:induction false} JoinAvoids(parts: seq<string>, c: char, ch: char)
    requires ch != c && forall k :: 0 <= k < |parts| ==> ch !in parts[k]
    ensures ch !in Join(parts, c)
    decreases |parts|
  {
    if |parts| > 1 {
      assert forall k :: 0 <= k < |parts| - 1 ==> parts[1..][k] == parts[k + 1];
      JoinAvoids(parts[1..], c, ch);
      assert Join(parts, c) == parts[0] + [c] + Join(parts[1..], c);
    }
  }

  /** `IndexOf` is the position of a `c` with no `c` before it. */
  lemma IndexOfAt(s: string, c: char, i: nat)
    requires i < |s| && s[i] == c && c !in s[..i]
    ensures IndexOf(s, c) == i
  {
  }

  /** Appending text to the last piece appends it to the join. */
  lemma JoinLastAppend(xs: seq<string>, p: string, c: char)
    requires |xs| >= 1
    ensures Join(xs[..|xs| - 1] + [xs[|xs| - 1] + p], c) == Join(xs, c) + p
  {
    var n := |xs|;
    if n == 1 {
      assert xs[..0] + [xs[0] + p] == [xs[0] + p];
    } else {
      var init := xs[..n - 1];
      JoinSnoc(init, xs[n - 1] + p, c);
      JoinSnoc(init, xs[n - 1], c);
      assert init + [xs[n - 1]] == xs;
    }
  }

  /** A join ends with its last piece, and every character of an earlier piece lies
      before the separator that precedes the last piece. */
  lemma JoinLastPiece(parts: seq<string>, c: char, k: nat, ch: char)
    requires |parts| >= 2 && k < |parts| - 1 && ch in parts[k]
    ensures var j := Join(parts, c); var n := |parts[|parts| - 1]|;
      n < |j| && ch in j[..|j| - n - 1]
  {
    var init := parts[..|parts| - 1];
    var last := parts[|parts| - 1];
    JoinSnoc(init, last, c);
    assert init + [last] == parts;
    var j := Join(parts, c);
    assert j == Join(init, c) + [c] + last;
    assert j[..|j| - |last| - 1] == Join(init, c);
    InJoin(init, c, k, ch);
  }

  /** A join ends with its last piece. */
  lemma JoinEndsWithLast(parts: seq<string>, c: char)
    requires |parts| >= 1
    ensures EndsWith(Join(parts, c), parts[|parts| - 1])
  {
    if |parts| >= 2 {
      var init := parts[..|parts| - 1];
      JoinSnoc(init, parts[|parts| - 1], c);
      assert init + [parts[|parts| - 1]] == parts;
    }
  }

  /** Each piece followed by the separator is the join with one more separator at the end. */
  lemma {:induction false} TerminatedIsJoin(parts: seq<string>, c: char)
    requires |parts| >= 1
    ensures Terminated(parts, c) == Join(parts, c) + [c]
    decreases |parts|
  {
    var n := |parts|;
    if n > 1 {
      var init := parts[..n - 1];
      TerminatedIsJoin(init, c);
      JoinSnoc(init, parts[n - 1], c);
      assert init + [parts[n - 1]] == parts;
    }
  }

  /** Terminated pieces followed by one last bare piece are the join of all of them. */
  lemma TerminatedThenLast(parts: seq<string>, x: string, c: char)
    ensures Terminated(parts, c) + x == Join(parts + [x], c)
  {
    if |parts| == 0 {
      assert parts + [x] == [x];
    } else {
      TerminatedIsJoin(parts, c);
      JoinSnoc(parts, x, c);
    }
  }

  /** A piece put in front of a join, with a separator between. */
  lemma JoinCons(a: string, xs: seq<string>, c: char)
    requires |xs| >= 1
    ensures Join([a] + xs, c) == a + [c] + Join(xs, c)
  {
    assert ([a] + xs)[1..] == xs;
  }

  /** No piece of `[a] + xs` holds `c` when neither `a` nor any of `xs` does. */
  lemma FreeCons(a: string, xs: seq<string>, c: char)
    requires c !in a && forall k :: 0 <= k < |xs| ==> c !in xs[k]
    ensures forall k :: 0 <= k < |[a] + xs| ==> c !in ([a] + xs)[k]
  {
    forall k | 0 <= k < |[a] + xs| ensures c !in ([a] + xs)[k] {
      if k > 0 {
        assert ([a] + xs)[k] == xs[k - 1];
      }
    }
  }

  /** A separator-free piece and a separator put in front of a string that does not end
      with the separator add one piece at the front of its split. */
  lemma SplitCons(a: string, s: string, c: char)
    requires c !in a && s != "" && s[|s| - 1] != c
    ensures Split(a + [c] + s, c) == [a] + Split(s, c)
  {
    var parts := SplitAll(s, c);
    var all := [a] + parts;
    assert SplitAll(a + [c] + s, c) == all by { SplitAllCons(a, c, s); }
    assert Split(s, c) == parts by { SplitJoinsBack(s, c); }
    assert parts[|parts| - 1] != "" by {
      if parts[|parts| - 1] == "" {
        SplitAllLastEmpty(s, c);
      }
    }
    assert all[|all| - 1] == parts[|parts| - 1];
    assert DropTrailingEmpty(all) == all;
  }

  /** Text free of the separator appended to a string that does not end with it lands
      on the last piece of the split. */
  lemma SplitLastAppend(s: string, t: string, c: char)
    requires s != "" && s[|s| - 1] != c && c !in t
    ensures var parts := Split(s, c);
      |parts| >= 1 && Split(s + t, c) == parts[..|parts| - 1] + [parts[|parts| - 1] + t]
  {
    var parts := Split(s, c);
    var n := |parts|;
    SplitJoinsBack(s, c);
    var moved := parts[..n - 1] + [parts[n - 1] + t];
    JoinLastAppend(parts, t, c);
    forall k | 0 <= k < |moved| ensures c !in moved[k] {
      if k < n - 1 {
        assert moved[k] == parts[k];
      }
    }
    SplitJoin(moved, c);
  }

  /** Separator-free pieces, each followed by the separator, split back into the pieces
      and one trailing empty piece. */
  lemma SplitAllTerminated(parts: seq<string>, c: char)
    requires forall k :: 0 <= k < |parts| ==> c !in parts[k]
    ensures SplitAll(Terminated(parts, c), c) == parts + [""]
  {
    if |parts| == 0 {
      assert SplitAll("", c) == [""];
    } else {
      TerminatedIsJoin(parts, c);
      SplitAllSnoc(Join(parts, c), c);
      SplitAllJoin(parts, c);
    }
  }
}
