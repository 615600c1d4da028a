/** Properties of the regex-list decide rule: what `add` and `remove` do to the list,
    what an import leaves behind, and that the listing and the report can be read back. */
module RegexListLemmas {
  import opened Wrappers
  import opened JavaText
  import opened Decimal
  import opened ReadSource
  import opened RegexListRule
  import opened CrawlStates

  // ---------------------------------------------------------------------------
  // add and remove

  /** `add` fails exactly when the text is new and does not compile. On success the
      text is present afterwards, the earlier entries are kept with their counters, and
      at most one entry, with no hits, is appended. */
  lemma AddOutcome(rule: Rule, regex: string, compiles: Compiles)
    ensures Add(rule, regex, compiles).Failure?
        <==> !HasText(rule.entries, regex) && !compiles(regex)
    ensures Add(rule, regex, compiles).Success? ==>
      var after := Add(rule, regex, compiles).value;
      && HasText(after.entries, regex)
      && after.listLogicalOr == rule.listLogicalOr
      && after.entries[..|rule.entries|] == rule.entries
      && (|after.entries| == |rule.entries|
          || (|after.entries| == |rule.entries| + 1
              && after.entries[|rule.entries|] == Entry(regex, 0)))
  {
    var after := Add(rule, regex, compiles);
    if after.Success? && !HasText(rule.entries, regex) {
      var n := |rule.entries|;
      assert after.value.entries[n].text == regex;
    }
  }

  /** `add` never introduces a second entry with the same text. */
  lemma AddKeepsNoDuplicates(rule: Rule, regex: string, compiles: Compiles)
    requires NoDuplicateTexts(rule.entries)
    ensures Add(rule, regex, compiles).Success? ==>
      NoDuplicateTexts(Add(rule, regex, compiles).value.entries)
  {
  }

  /** Adding the same text twice is adding it once. */
  lemma AddIdempotent(rule: Rule, regex: string, compiles: Compiles)
    requires Add(rule, regex, compiles).Success?
    ensures Add(Add(rule, regex, compiles).value, regex, compiles)
         == Add(rule, regex, compiles)
  {
    AddOutcome(rule, regex, compiles);
  }

  /** Dropping a text no entry has changes nothing. */
  lemma {:induction false} WithoutAbsent(entries: seq<Entry>, regex: string)
    requires !HasText(entries, regex)
    ensures Without(entries, regex) == entries
    decreases |entries|
  {
    if |entries| > 0 {
      var init := entries[..|entries| - 1];
      assert !HasText(init, regex) by {
        assert forall k :: 0 <= k < |init| ==> init[k] == entries[k];
      }
      WithoutAbsent(init, regex);
      assert init + [entries[|entries| - 1]] == entries;
    }
  }

  /** Dropping entries works piece by piece: it keeps the relative order of what stays. */
  lemma {:induction false} WithoutAppend(xs: seq<Entry>, ys: seq<Entry>, regex: string)
    ensures Without(xs + ys, regex) == Without(xs, regex) + Without(ys, regex)
    decreases |ys|
  {
    if |ys| > 0 {
      var init := ys[..|ys| - 1];
      assert (xs + ys)[..|xs + ys| - 1] == xs + init;
      WithoutAppend(xs, init, regex);
    } else {
      assert xs + ys == xs;
    }
  }

  /** After `remove(regex)` no entry has that text, and every other entry is still there. */
  lemma RemoveLeavesNone(rule: Rule, regex: string)
    ensures !HasText(Remove(rule, regex).entries, regex)
    ensures forall k :: 0 <= k < |rule.entries| && rule.entries[k].text != regex ==>
      rule.entries[k] in Remove(rule, regex).entries
  {
  }

  /** Removing a text that was just added restores the rule. */
  lemma RemoveUndoesAdd(rule: Rule, regex: string, compiles: Compiles)
    requires !HasText(rule.entries, regex) && compiles(regex)
    ensures Remove(Add(rule, regex, compiles).value, regex) == rule
  {
    WithoutAppend(rule.entries, [Entry(regex, 0)], regex);
    WithoutAbsent(rule.entries, regex);
    assert [Entry(regex, 0)][..0] == [];
  }

  /** Removing twice is removing once. */
  lemma RemoveIdempotent(rule: Rule, regex: string)
    ensures Remove(Remove(rule, regex), regex) == Remove(rule, regex)
  {
    WithoutAbsent(Remove(rule, regex).entries, regex);
  }

  // ---------------------------------------------------------------------------
  // Evaluation counters

  /** A counter never goes down in an evaluation and rises by at most one; the
      decider, when there is one, is unique. */
  method EvaluateCountsOnce(rule: Rule, str: string, matches: FullMatch)
    returns (verdict: bool, after: Rule)
    ensures |after.entries| == |rule.entries|
    ensures forall i :: 0 <= i < |rule.entries| ==>
      rule.entries[i].hits <= after.entries[i].hits <= rule.entries[i].hits + 1
    ensures forall i, j :: 0 <= i < j < |rule.entries| ==>
      after.entries[i].hits == rule.entries[i].hits || after.entries[j].hits == rule.entries[j].hits
  {
    verdict, after := Evaluate(rule, str, matches);
    forall i, j | 0 <= i < j < |rule.entries|
      ensures after.entries[i].hits == rule.entries[i].hits
           || after.entries[j].hits == rule.entries[j].hits
    {
      if IsDecider(rule, str, matches, i) {
        DeciderUnique(rule, str, matches, i);
      }
    }
  }

  /** An OR miss and an AND full match leave every counter as it was. */
  lemma NoDeciderWhenModeFails(rule: Rule, str: string, matches: FullMatch)
    requires forall i :: 0 <= i < |rule.entries| ==>
      matches(rule.entries[i].text, str) != rule.listLogicalOr
    ensures forall i :: !IsDecider(rule, str, matches, i)
  {
  }

  /** How many of the evaluated strings entry `i` decided. */
  function Decisions(rule: Rule, strs: seq<string>, matches: FullMatch, i: int): nat
    decreases |strs|
  {
    if |strs| == 0 then 0
    else
      Decisions(rule, strs[..|strs| - 1], matches, i)
      + (if IsDecider(rule, strs[|strs| - 1], matches, i) then 1 else 0)
  }

  /** An entry decided none of the strings exactly when it is the decider of none. */
  lemma {:induction false} NoDecisions(rule: Rule, strs: seq<string>, matches: FullMatch, i: int)
    ensures Decisions(rule, strs, matches, i) == 0
        <==> forall k :: 0 <= k < |strs| ==> !IsDecider(rule, strs[k], matches, i)
    decreases |strs|
  {
    if |strs| > 0 {
      var init := strs[..|strs| - 1];
      NoDecisions(rule, init, matches, i);
      assert forall k :: 0 <= k < |init| ==> init[k] == strs[k];
    }
  }

  /** Which entry decides depends only on the pattern texts and the mode. */
  lemma DeciderByTexts(a: Rule, b: Rule, str: string, matches: FullMatch)
    requires |a.entries| == |b.entries| && a.listLogicalOr == b.listLogicalOr
    requires forall k :: 0 <= k < |a.entries| ==> a.entries[k].text == b.entries[k].text
    ensures forall i :: IsDecider(a, str, matches, i) <==> IsDecider(b, str, matches, i)
  {
  }

  /** Evaluating the strings in turn: the list, its texts and its mode stay as they were,
      and each counter rises by the number of strings its entry decided, so an entry that
      decides none keeps its count and, if it had no hits, still reports 0. */
  method EvaluateSeries(rule: Rule, strs: seq<string>, matches: FullMatch)
    returns (verdicts: seq<bool>, after: Rule)
    ensures |verdicts| == |strs|
    ensures |after.entries| == |rule.entries| && after.listLogicalOr == rule.listLogicalOr
    ensures forall i :: 0 <= i < |rule.entries| ==>
      after.entries[i].text == rule.entries[i].text
      && after.entries[i].hits == rule.entries[i].hits + Decisions(rule, strs, matches, i)
    ensures forall i :: 0 <= i < |rule.entries| && rule.entries[i].hits == 0
                        && Decisions(rule, strs, matches, i) == 0 ==>
      ReportLine(after.entries[i]) == rule.entries[i].text + "\t" + "0"
  {
    verdicts, after := [], rule;
    var n := 0;
    while n < |strs|
      invariant 0 <= n <= |strs| && |verdicts| == n
      invariant |after.entries| == |rule.entries| && after.listLogicalOr == rule.listLogicalOr
      invariant forall i :: 0 <= i < |rule.entries| ==>
        after.entries[i].text == rule.entries[i].text
        && after.entries[i].hits == rule.entries[i].hits + Decisions(rule, strs[..n], matches, i)
    {
      var v, next := Evaluate(after, strs[n], matches);
      DeciderByTexts(after, rule, strs[n], matches);
      assert strs[..n + 1][..n] == strs[..n];
      verdicts, after := verdicts + [v], next;
      n := n + 1;
    }
    assert strs[..n] == strs;
    assert DecimalText(0) == "0";
  }

  // ---------------------------------------------------------------------------
  // Import

  /** An import keeps the earlier entries in place with their counters and appends
      entries with no hits, each from an importable line of the source that compiles
      and whose text was not in the list before. */
  lemma {:induction false} AddLinesAppends(rule: Rule, lines: seq<string>, compiles: Compiles)
    ensures var after := AddLines(rule, lines, compiles);
      && after.listLogicalOr == rule.listLogicalOr
      && |rule.entries| <= |after.entries|
      && after.entries[..|rule.entries|] == rule.entries
      && forall k :: |rule.entries| <= k < |after.entries| ==>
           after.entries[k].hits == 0
           && after.entries[k].text in lines
           && Importable(after.entries[k].text)
           && compiles(after.entries[k].text)
           && !HasText(rule.entries, after.entries[k].text)
    decreases |lines|
  {
    if |lines| > 0 {
      var init := lines[..|lines| - 1];
      var line := lines[|lines| - 1];
      var mid := AddLines(rule, init, compiles);
      AddLinesAppends(rule, init, compiles);
      var after := AddLine(mid, line, compiles);
      assert after == AddLines(rule, lines, compiles);
      assert forall x :: x in init ==> x in lines;
      if Importable(line) && Add(mid, line, compiles).Success? && !HasText(mid.entries, line) {
        assert after.entries == mid.entries + [Entry(line, 0)];
        PrefixHasText(rule.entries, mid.entries, line);
      }
    }
  }

  /** A text absent from a list is absent from each of its prefixes. */
  lemma PrefixHasText(short: seq<Entry>, long: seq<Entry>, text: string)
    requires |short| <= |long| && long[..|short|] == short
    requires !HasText(long, text)
    ensures !HasText(short, text)
  {
    assert forall k :: 0 <= k < |short| ==> short[k] == long[k];
  }

  /** After an import, every importable source line that compiles is in the list. */
  lemma {:induction false} AddLinesPresent(rule: Rule, lines: seq<string>, compiles: Compiles)
    ensures forall k :: 0 <= k < |lines| && Importable(lines[k]) && compiles(lines[k]) ==>
      HasText(AddLines(rule, lines, compiles).entries, lines[k])
    decreases |lines|
  {
    if |lines| > 0 {
      var init := lines[..|lines| - 1];
      var line := lines[|lines| - 1];
      var mid := AddLines(rule, init, compiles);
      AddLinesPresent(rule, init, compiles);
      var after := AddLines(rule, lines, compiles);
      AddLineKeeps(mid, line, compiles);
      forall k | 0 <= k < |lines| && Importable(lines[k]) && compiles(lines[k])
        ensures HasText(after.entries, lines[k])
      {
        if k < |lines| - 1 {
          assert lines[k] == init[k];
          KeptText(mid.entries, after.entries, lines[k]);
        } else {
          AddOutcome(mid, line, compiles);
        }
      }
    }
  }

  /** Handling one line keeps the list as a prefix. */
  lemma AddLineKeeps(rule: Rule, line: string, compiles: Compiles)
    ensures var after := AddLine(rule, line, compiles);
      |rule.entries| <= |after.entries| && after.entries[..|rule.entries|] == rule.entries
  {
    AddOutcome(rule, line, compiles);
  }

  /** A text in a list is in every extension of it. */
  lemma KeptText(short: seq<Entry>, long: seq<Entry>, text: string)
    requires |short| <= |long| && long[..|short|] == short
    requires HasText(short, text)
    ensures HasText(long, text)
  {
    var i :| 0 <= i < |short| && short[i].text == text;
    assert long[i] == short[i];
  }

  /** Imports never introduce duplicate texts. */
  lemma {:induction false} AddLinesNoDuplicates(rule: Rule, lines: seq<string>, compiles: Compiles)
    requires NoDuplicateTexts(rule.entries)
    ensures NoDuplicateTexts(AddLines(rule, lines, compiles).entries)
    decreases |lines|
  {
    if |lines| > 0 {
      var mid := AddLines(rule, lines[..|lines| - 1], compiles);
      AddLinesNoDuplicates(rule, lines[..|lines| - 1], compiles);
      AddKeepsNoDuplicates(mid, lines[|lines| - 1], compiles);
    }
  }

  /** Only entering the preparing state imports: it then fails without a source, and
      otherwise leaves every importable source line that compiles in the list; every
      other event changes nothing and reports no error. */
  lemma EventImports(rule: Rule, event: AppEvent, source: Option<Reading>, compiles: Compiles)
    ensures event != StateChange(Preparing) ==> OnEvent(rule, event, source, compiles) == Imported(rule, None)
    ensures event == StateChange(Preparing) && source.None? ==>
      OnEvent(rule, event, source, compiles) == Imported(rule, Some(MissingSource))
    ensures event == StateChange(Preparing) && source.Some? ==>
      var lines := source.value.lines;
      forall k :: 0 <= k < |lines| && Importable(lines[k]) && compiles(lines[k]) ==>
        HasText(OnEvent(rule, event, source, compiles).rule.entries, lines[k])
  {
    if event == StateChange(Preparing) && source.Some? {
      AddLinesPresent(rule, source.value.lines, compiles);
    }
  }

  // ---------------------------------------------------------------------------
  // Reading the listing and the report back

  /** The listing splits back into the pattern texts, in order, when no text holds a
      newline. */
  lemma ListReadsBack(rule: Rule)
    requires PlainTexts(rule.entries)
    ensures SplitAll(GetList(rule), '\n') == Texts(rule.entries) + [""]
  {
    SplitAllTerminated(Texts(rule.entries), '\n');
  }

  /** A report line reads back as its entry. */
  lemma ReportLineReadsBack(e: Entry)
    requires '\t' !in e.text
    ensures ParseReportLine(ReportLine(e)) == Some(e)
  {
    var digits := DecimalText(e.hits);
    assert '\t' !in digits by {
      assert forall i :: 0 <= i < |digits| ==> IsDigit(digits[i]);
    }
    SplitAllCons(e.text, '\t', digits);
    assert SplitAll(digits, '\t') == [digits];
    assert ReportLine(e) == e.text + ['\t'] + digits;
    DecimalRoundTrip(e.hits);
  }

  /** The report lines read back as the entries. */
  lemma {:induction false} ReportLinesReadBack(entries: seq<Entry>)
    requires PlainTexts(entries)
    ensures ParseReportLines(ReportLines(entries)) == Some(entries)
    decreases |entries|
  {
    if |entries| > 0 {
      var n := |entries|;
      var init := entries[..n - 1];
      assert ReportLines(entries)[..n - 1] == ReportLines(init);
      ReportLinesReadBack(init);
      ReportLineReadsBack(entries[n - 1]);
      assert init + [entries[n - 1]] == entries;
    }
  }

  /** A report line holds no newline when its text holds none. */
  lemma ReportLineHasNoNewline(e: Entry)
    requires '\n' !in e.text
    ensures '\n' !in ReportLine(e)
  {
    var digits := DecimalText(e.hits);
    assert forall i :: 0 <= i < |digits| ==> IsDigit(digits[i]);
  }

  /** The report reads back as the entries, with their texts and hit counts, in list
      order, when no text holds a newline or a tab. */
  lemma ReportReadsBack(rule: Rule)
    requires PlainTexts(rule.entries)
    ensures ParseReport(GetReport(rule)) == Some(rule.entries)
  {
    var lines := ReportLines(rule.entries);
    forall k | 0 <= k < |lines| ensures '\n' !in lines[k] {
      ReportLineHasNoNewline(rule.entries[k]);
    }
    SplitAllTerminated(lines, '\n');
    assert (lines + [""])[..|lines|] == lines;
    ReportLinesReadBack(rule.entries);
  }

  /** A new pattern reports zero hits. */
  lemma NewPatternReportsZero(rule: Rule, regex: string, compiles: Compiles)
    requires !HasText(rule.entries, regex) && compiles(regex)
    ensures var after := Add(rule, regex, compiles).value;
      ReportLine(after.entries[|after.entries| - 1]) == regex + "\t" + "0"
  {
    assert DecimalText(0) == "0";
  }
}
