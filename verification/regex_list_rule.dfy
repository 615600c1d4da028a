/** A decide rule over an ordered list of regular expressions, read as a logical OR
    (the default) or AND of full matches against the URI text. The rule counts, per
    pattern, how often that pattern decided an evaluation, and reports the counts.

    The regex engine is not modelled: `FullMatch(pattern, input)` stands for
    `Pattern.compile(pattern).matcher(input).matches()` and `Compiles(pattern)` for
    `Pattern.compile(pattern)` not throwing. */
module RegexListRule {
  import opened Wrappers
  import opened JavaText
  import opened Decimal
  import opened ReadSource
  import opened CrawlStates

  /** Whether a pattern text matches the whole input. */
  type FullMatch = (string, string) -> bool

  /** Whether a pattern text compiles. */
  type Compiles = string -> bool

  /** A compiled pattern, known by its text, with the number of evaluations it decided. */
  datatype Entry = Entry(text: string, hits: nat)

  /** The rule's configuration and counters. */
  datatype Rule = Rule(entries: seq<Entry>, listLogicalOr: bool)

  /** A new rule: no patterns, OR semantics. */
  const Initial: Rule := Rule([], true)

  /** Some entry has this pattern text. */
  predicate HasText(entries: seq<Entry>, text: string) {
    exists i :: 0 <= i < |entries| && entries[i].text == text
  }

  /** No two entries share a pattern text. */
  predicate NoDuplicateTexts(entries: seq<Entry>) {
    forall i, j :: 0 <= i < j < |entries| ==> entries[i].text != entries[j].text
  }

  /** Why `add` failed. */
  datatype AddError = PatternSyntax(text: string)

  /** `add(regex)`: nothing happens when a pattern with that text is present; otherwise
      the compiled pattern is appended, or compilation fails. */
  function Add(rule: Rule, regex: string, compiles: Compiles): (r: Result<Rule, AddError>)
  {
    if HasText(rule.entries, regex) then Success(rule)
    else if !compiles(regex) then Failure(PatternSyntax(regex))
    else Success(rule.(entries := rule.entries + [Entry(regex, 0)]))
  }

  /** The entries other than those with pattern text `regex`, in their order. */
  function Without(entries: seq<Entry>, regex: string): (r: seq<Entry>)
    ensures |r| <= |entries|
    ensures forall k :: 0 <= k < |r| ==> r[k].text != regex && r[k] in entries
    ensures forall k :: 0 <= k < |entries| && entries[k].text != regex ==> entries[k] in r
  {
    if |entries| == 0 then []
    else
      var last := entries[|entries| - 1];
      Without(entries[..|entries| - 1], regex) + (if last.text == regex then [] else [last])
  }

  /** `remove(regex)`: every entry with that pattern text is dropped. */
  function Remove(rule: Rule, regex: string): Rule
  {
    rule.(entries := Without(rule.entries, regex))
  }

  /** The entry at `i` decided an evaluation of `str`: it is the first entry whose match
      outcome equals the mode (a match under OR, a non-match under AND). */
  predicate IsDecider(rule: Rule, str: string, matches: FullMatch, i: int) {
    && 0 <= i < |rule.entries|
    && matches(rule.entries[i].text, str) == rule.listLogicalOr
    && forall j :: 0 <= j < i ==> matches(rule.entries[j].text, str) != rule.listLogicalOr
  }

  /** The rule with the counter of entry `i` raised by one. */
  function Count(rule: Rule, i: nat): (r: Rule)
    requires i < |rule.entries|
    ensures |r.entries| == |rule.entries| && r.listLogicalOr == rule.listLogicalOr
    ensures forall k :: 0 <= k < |r.entries| ==>
      r.entries[k].text == rule.entries[k].text
      && r.entries[k].hits == rule.entries[k].hits + (if k == i then 1 else 0)
  {
    rule.(entries := rule.entries[i := rule.entries[i].(hits := rule.entries[i].hits + 1)])
  }

  /** `evaluate(uri)`: under OR, true iff some pattern matches; under AND, true iff the
      list is not empty and every pattern matches. The pattern that decided the outcome,
      if any, has its counter raised by one; no other counter changes. */
  method Evaluate(rule: Rule, str: string, matches: FullMatch) returns (verdict: bool, after: Rule)
    ensures |rule.entries| == 0 ==> !verdict
    ensures rule.listLogicalOr ==>
      (verdict <==> exists i :: 0 <= i < |rule.entries| && matches(rule.entries[i].text, str))
    ensures !rule.listLogicalOr ==>
      (verdict <==> |rule.entries| > 0
                    && forall i :: 0 <= i < |rule.entries| ==> matches(rule.entries[i].text, str))
    ensures |after.entries| == |rule.entries| && after.listLogicalOr == rule.listLogicalOr
    ensures forall i :: 0 <= i < |rule.entries| ==>
      after.entries[i].text == rule.entries[i].text
      && after.entries[i].hits
         == rule.entries[i].hits + (if IsDecider(rule, str, matches, i) then 1 else 0)
  {
    var entries := rule.entries;
    if |entries| == 0 {
      return false, rule;
    }
    var or := rule.listLogicalOr;
    var i := 0;
    while i < |entries|
      invariant 0 <= i <= |entries|
      invariant forall j :: 0 <= j < i ==> matches(entries[j].text, str) != or
    {
      var m := matches(entries[i].text, str);
      if m {
        if or {
          DeciderUnique(rule, str, matches, i);
          return true, Count(rule, i);
        }
      } else {
        if !or {
          DeciderUnique(rule, str, matches, i);
          return false, Count(rule, i);
        }
      }
      i := i + 1;
    }
    return !or, rule;
  }

  /** At most one entry decides an evaluation. */
  lemma DeciderUnique(rule: Rule, str: string, matches: FullMatch, i: int)
    requires IsDecider(rule, str, matches, i)
    ensures forall j :: IsDecider(rule, str, matches, j) <==> j == i
  {
  }

  // ---------------------------------------------------------------------------
  // The listing and the report

  /** The pattern texts in list order. */
  function Texts(entries: seq<Entry>): (r: seq<string>)
    ensures |r| == |entries| && forall k :: 0 <= k < |r| ==> r[k] == entries[k].text
  {
    seq(|entries|, k requires 0 <= k < |entries| => entries[k].text)
  }

  /** `getList()`: each pattern text followed by a newline. */
  function GetList(rule: Rule): string
  {
    Terminated(Texts(rule.entries), '\n')
  }

  /** A report line: the pattern text, a tab, and its hit count in decimal. */
  function ReportLine(e: Entry): string
  {
    e.text + "\t" + DecimalText(e.hits)
  }

  /** The report lines in list order. */
  function ReportLines(entries: seq<Entry>): (r: seq<string>)
    ensures |r| == |entries| && forall k :: 0 <= k < |r| ==> r[k] == ReportLine(entries[k])
  {
    seq(|entries|, k requires 0 <= k < |entries| => ReportLine(entries[k]))
  }

  /** `getReport()`: one report line per pattern, each followed by a newline. */
  function GetReport(rule: Rule): string
  {
    Terminated(ReportLines(rule.entries), '\n')
  }

  /** Reading one report line back: a text and a decimal count separated by one tab. */
  function ParseReportLine(line: string): Option<Entry>
  {
    var parts := SplitAll(line, '\t');
    if |parts| == 2 && IsDigits(parts[1]) then Some(Entry(parts[0], DecimalValue(parts[1])))
    else None
  }

  /** Reading report lines back, all or nothing. */
  function ParseReportLines(lines: seq<string>): Option<seq<Entry>>
  {
    if |lines| == 0 then Some([])
    else
      match ParseReportLines(lines[..|lines| - 1])
      case None => None
      case Some(init) =>
        match ParseReportLine(lines[|lines| - 1])
        case None => None
        case Some(e) => Some(init + [e])
  }

  /** Reading a report back: its newline-terminated lines, parsed. */
  function ParseReport(report: string): Option<seq<Entry>>
  {
    var lines := SplitAll(report, '\n');
    ParseReportLines(lines[..|lines| - 1])
  }

  /** Pattern texts without newlines or tabs: what the importer can read and what
      keeps the listing and the report readable. */
  predicate PlainTexts(entries: seq<Entry>) {
    forall k :: 0 <= k < |entries| ==> '\n' !in entries[k].text && '\t' !in entries[k].text
  }

  // ---------------------------------------------------------------------------
  // Importing patterns from a source

  /** Why an import did not complete. */
  datatype ImportError = MissingSource | ReadFailure

  /** The rule after an import, and the error that ended it early, if any. */
  datatype Imported = Imported(rule: Rule, error: Option<ImportError>)

  /** A line the importer hands to `add`: not a `#` comment and not blank. */
  predicate Importable(line: string) {
    !StartsWith(line, "#") && !IsBlank(line)
  }

  /** The importer's handling of one line: skipped unless importable, and a line that
      fails to compile is skipped too. */
  function AddLine(rule: Rule, line: string, compiles: Compiles): Rule
  {
    if !Importable(line) then rule
    else
      match Add(rule, line, compiles)
      case Success(r) => r
      case Failure(_) => rule
  }

  /** The lines handled in file order. */
  function AddLines(rule: Rule, lines: seq<string>, compiles: Compiles): Rule
  {
    if |lines| == 0 then rule
    else AddLine(AddLines(rule, lines[..|lines| - 1], compiles), lines[|lines| - 1], compiles)
  }

  /** `importRegexes()`: with no source configured it fails before reading; otherwise
      every delivered line is handled, and a read failure is reported after the lines
      read before it were added. */
  function Import(rule: Rule, source: Option<Reading>, compiles: Compiles): Imported
  {
    match source
    case None => Imported(rule, Some(MissingSource))
    case Some(reading) =>
      Imported(AddLines(rule, reading.lines, compiles),
               if reading.failed then Some(ReadFailure) else None)
  }

  /** The application events the rule listens to: a change of crawl state, or any
      other event. */
  datatype AppEvent = StateChange(state: CrawlState) | OtherEvent

  /** `onApplicationEvent`: entering the preparing state imports the patterns from the
      source; every other event leaves the rule as it is. */
  function OnEvent(rule: Rule, event: AppEvent, source: Option<Reading>, compiles: Compiles): Imported
  {
    match event
    case StateChange(state) =>
      if state == Preparing then Import(rule, source, compiles) else Imported(rule, None)
    case OtherEvent => Imported(rule, None)
  }
}
