/** The SURT prefixes a sheet association applies to when they come from an external
    source: the source's lines, less comments and empty lines, followed by the prefixes
    configured directly. */
module SurtPrefixes {
  import opened Wrappers
  import opened JavaText
  import opened ReadSource
  import RegexListRule

  /** Why the prefixes could not be produced. */
  datatype LoadError =
    | MissingSource   // no source configured: reading it throws
    | ReadFailure     // the reader failed: the partial list is not returned

  /** A source line that becomes a prefix: not a `#` comment and not exactly empty.
      Whitespace-only lines are kept. */
  predicate Kept(line: string) {
    !StartsWith(line, "#") && line != ""
  }

  /** The kept lines, in source order, repeats included. */
  function KeptLines(lines: seq<string>): (r: seq<string>)
    ensures |r| <= |lines|
    ensures forall k :: 0 <= k < |r| ==> Kept(r[k]) && r[k] in lines
    ensures forall k :: 0 <= k < |lines| && Kept(lines[k]) ==> lines[k] in r
  {
    if |lines| == 0 then []
    else
      var last := lines[|lines| - 1];
      KeptLines(lines[..|lines| - 1]) + (if Kept(last) then [last] else [])
  }

  /** `getSurtPrefixes()`: the kept source lines followed by the configured list, if
      there is one. A missing source or a read failure is an error. */
  function GetSurtPrefixes(source: Option<Reading>, configured: Option<seq<string>>)
    : Result<seq<string>, LoadError>
  {
    match source
    case None => Failure(MissingSource)
    case Some(reading) =>
      if reading.failed then Failure(ReadFailure)
      else Success(KeptLines(reading.lines) + configured.GetOr([]))
  }

  // ---------------------------------------------------------------------------
  // Lemmas

  /** Filtering works piece by piece: the kept lines keep their order, and nothing is
      merged or dropped for being a repeat. */
  lemma {:induction false} KeptLinesAppend(xs: seq<string>, ys: seq<string>)
    ensures KeptLines(xs + ys) == KeptLines(xs) + KeptLines(ys)
    decreases |ys|
  {
    if |ys| > 0 {
      var init := ys[..|ys| - 1];
      assert (xs + ys)[..|xs + ys| - 1] == xs + init;
      KeptLinesAppend(xs, init);
    } else {
      assert xs + ys == xs;
    }
  }

  /** A source repeated twice gives every kept line twice. */
  lemma RepeatsRetained(lines: seq<string>)
    ensures KeptLines(lines + lines) == KeptLines(lines) + KeptLines(lines)
    ensures |KeptLines(lines + lines)| == 2 * |KeptLines(lines)|
  {
    KeptLinesAppend(lines, lines);
  }

  /** One line on its own: kept iff it is neither a comment nor empty, so a line of
      spaces is a prefix while the empty line is not. */
  lemma SingleLine(line: string)
    ensures KeptLines([line]) == (if Kept(line) then [line] else [])
    ensures line != "" && IsBlank(line) ==> KeptLines([line]) == [line]
    ensures KeptLines([""]) == []
  {
    assert [line][..0] == [];
    assert [""][..0] == [];
    if line != "" && IsBlank(line) {
      assert IsWhitespace(line[0]);
      assert line[..1] != "#";
    }
  }

  /** Lines that are all kept come through unchanged. */
  lemma {:induction false} AllKept(lines: seq<string>)
    requires forall k :: 0 <= k < |lines| ==> Kept(lines[k])
    ensures KeptLines(lines) == lines
    decreases |lines|
  {
    if |lines| > 0 {
      var init := lines[..|lines| - 1];
      AllKept(init);
      assert init + [lines[|lines| - 1]] == lines;
    }
  }

  /** A line of whitespace is a prefix here but is skipped by the regex-list importer,
      which drops blank lines rather than empty ones only. */
  lemma BlankLineDiffers(line: string)
    requires line != "" && IsBlank(line)
    ensures Kept(line) && !RegexListRule.Importable(line)
  {
    assert IsWhitespace(line[0]);
    assert line[..1] != "#";
  }
}
