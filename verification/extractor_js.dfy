/** The filters the JavaScript link extractor applies to a speculative link candidate:
    the strict mode, which keeps absolute links only, and the tests that throw out a
    relative candidate as a likely false positive, with the count of those.

    The regex engine is not modelled: `CaseInsensitiveMatch(pattern, input)` stands for
    a full match of `input` by `pattern` compiled case-insensitively, and
    `Compiles(pattern)` for that compilation not throwing. */
module ExtractorJs {
  import opened Wrappers
  import opened JavaText
  import opened Sequences

  /** Whether a pattern text, compiled case-insensitively, matches the whole input. */
  type CaseInsensitiveMatch = (string, string) -> bool

  /** Whether a pattern text compiles. */
  type Compiles = string -> bool

  /** Candidates longer than this are taken for false positives. */
  const MaxRelativeLength: nat := 150

  /** The extractor's filter settings and its false-positive counter. `compiled` is the
      list of compiled reject patterns, known by their texts; it is `None` until the
      reject list is first set. */
  datatype Extractor = Extractor(
    strict: bool,
    rejectTexts: seq<string>,
    compiled: Option<seq<string>>,
    ignoreSet: set<string>,
    falsePositives: nat)

  /** A new extractor: not strict, no reject patterns compiled yet, nothing to ignore. */
  const Initial: Extractor := Extractor(false, [], None, {}, 0)

  /** Why an operation threw. */
  datatype FilterError =
    | PatternSyntax(text: string)   // a reject pattern did not compile
    | NoCompiledList                // the compiled list was used before it was set

  /** The candidate is an absolute HTTP or HTTPS link. */
  predicate IsAbsolute(candidate: string) {
    StartsWith(candidate, "http://") || StartsWith(candidate, "https://")
  }

  /** `isStrictMatch`: anything passes unless strict, and then only absolute links. */
  function IsStrictMatch(ex: Extractor, candidate: string): (r: bool)
    ensures r <==> !ex.strict || IsAbsolute(candidate)
  {
    if !ex.strict then true else IsAbsolute(candidate)
  }

  /** The shape tests for a relative candidate: a `/.`, an `@`, more than 150
      characters, or membership of the literal ignore set. */
  predicate LooksSuspicious(ex: Extractor, candidate: string) {
    || Contains(candidate, "/.")
    || Contains(candidate, "@")
    || |candidate| > MaxRelativeLength
    || candidate in ex.ignoreSet
  }

  /** Some pattern in the list matches the candidate. */
  function AnyMatch(patterns: seq<string>, candidate: string, matches: CaseInsensitiveMatch): bool
  {
    AnyOf(patterns, p => matches(p, candidate))
  }

  /** The verdict on a candidate and the extractor after it. */
  datatype Verdict = Verdict(ignore: bool, after: Extractor)

  /** The extractor with one more false positive counted. */
  function CountFalsePositive(ex: Extractor): (r: Extractor)
    ensures r.falsePositives == ex.falsePositives + 1
  {
    ex.(falsePositives := ex.falsePositives + 1)
  }

  /** `shouldIgnorePossibleRelativeLink`: absolute links are kept; a suspicious relative
      one is ignored; otherwise it is ignored iff some compiled reject pattern matches.
      Each "ignore" counts one false positive. Reaching the pattern loop before the
      compiled list was set throws. */
  function ShouldIgnore(ex: Extractor, candidate: string, matches: CaseInsensitiveMatch)
    : Result<Verdict, FilterError>
  {
    if IsAbsolute(candidate) then Success(Verdict(false, ex))
    else if LooksSuspicious(ex, candidate) then Success(Verdict(true, CountFalsePositive(ex)))
    else
      match ex.compiled
      case None => Failure(NoCompiledList)
      case Some(patterns) =>
        if AnyMatch(patterns, candidate, matches) then Success(Verdict(true, CountFalsePositive(ex)))
        else Success(Verdict(false, ex))
  }

  // ---------------------------------------------------------------------------
  // Setters

  /** The extractor after a setter, and the error the setter threw, if any. */
  datatype Updated = Updated(ex: Extractor, error: Option<FilterError>)

  /** `setRejectRelativeMatchingRegexList`: the text list is replaced, then a fresh
      compiled list is filled in order; a pattern that fails to compile stops the
      setter, leaving the patterns before it compiled. */
  function SetRejectList(ex: Extractor, patterns: seq<string>, compiles: Compiles): Updated
  {
    var k := PrefixWhile(patterns, compiles);
    Updated(ex.(rejectTexts := patterns, compiled := Some(patterns[..k])),
            if k < |patterns| then Some(PatternSyntax(patterns[k])) else None)
  }

  /** `addRejectRelativeMatchingRegex`: compiles the pattern and appends it to the
      compiled list only; the text list is untouched. */
  function AddRejectPattern(ex: Extractor, pattern: string, compiles: Compiles)
    : Result<Extractor, FilterError>
  {
    if !compiles(pattern) then Failure(PatternSyntax(pattern))
    else
      match ex.compiled
      case None => Failure(NoCompiledList)
      case Some(ps) => Success(ex.(compiled := Some(ps + [pattern])))
  }

  /** `setRejectRelativeIgnoreList`: the ignore set is replaced wholesale. */
  function SetIgnoreSet(ex: Extractor, ignore: set<string>): Extractor
  {
    ex.(ignoreSet := ignore)
  }

  /** `addRejectRelativeIgnoreList`: one more literal to ignore. */
  function AddIgnore(ex: Extractor, literal: string): Extractor
  {
    ex.(ignoreSet := ex.ignoreSet + {literal})
  }

  // ---------------------------------------------------------------------------
  // Lemmas

  /** A new extractor lets every candidate through the strict test; a strict one lets
      through exactly the absolute links, which the relative-link filter then keeps
      without counting them. */
  lemma StrictPassesAbsolute(ex: Extractor, candidate: string, matches: CaseInsensitiveMatch)
    ensures IsStrictMatch(Initial, candidate)
    ensures ex.strict ==> (IsStrictMatch(ex, candidate) <==> IsAbsolute(candidate))
    ensures ex.strict && IsStrictMatch(ex, candidate) ==>
      ShouldIgnore(ex, candidate, matches) == Success(Verdict(false, ex))
  {
  }

  /** An absolute candidate is never ignored and leaves the counter as it was. */
  lemma AbsoluteKept(ex: Extractor, candidate: string, matches: CaseInsensitiveMatch)
    requires IsAbsolute(candidate)
    ensures ShouldIgnore(ex, candidate, matches) == Success(Verdict(false, ex))
  {
  }

  /** When the verdict is reached, a relative candidate is ignored iff it looks
      suspicious or a compiled reject pattern matches it; the counter rises by one
      on "ignore" and stays on "keep"; nothing else changes. The verdict fails to be
      reached only for an unsuspicious relative candidate before the reject list was
      set. */
  lemma IgnoreVerdict(ex: Extractor, candidate: string, matches: CaseInsensitiveMatch)
    ensures ShouldIgnore(ex, candidate, matches).Failure?
        <==> !IsAbsolute(candidate) && !LooksSuspicious(ex, candidate) && ex.compiled.None?
    ensures ShouldIgnore(ex, candidate, matches).Success? ==>
      var v := ShouldIgnore(ex, candidate, matches).value;
      && (v.ignore <==> !IsAbsolute(candidate)
                        && (LooksSuspicious(ex, candidate)
                            || exists i :: 0 <= i < |ex.compiled.value| && matches(ex.compiled.value[i], candidate)))
      && v.after.falsePositives == ex.falsePositives + (if v.ignore then 1 else 0)
      && v.after.(falsePositives := ex.falsePositives) == ex
  {
  }

  /** Setting the reject list succeeds iff every pattern compiles, and then the compiled
      list holds exactly the given patterns, one for one and in order. */
  lemma SetRejectListOneToOne(ex: Extractor, patterns: seq<string>, compiles: Compiles)
    ensures SetRejectList(ex, patterns, compiles).error.None?
        <==> forall i :: 0 <= i < |patterns| ==> compiles(patterns[i])
    ensures SetRejectList(ex, patterns, compiles).ex.rejectTexts == patterns
    ensures SetRejectList(ex, patterns, compiles).error.None? ==>
      SetRejectList(ex, patterns, compiles).ex.compiled == Some(patterns)
  {
    var k := PrefixWhile(patterns, compiles);
    if k == |patterns| {
      assert patterns[..k] == patterns;
    }
  }

  /** After the reject list is set with patterns that all compile, an unsuspicious
      relative candidate is ignored iff one of those patterns matches it. */
  lemma IgnoreAfterSet(ex: Extractor, patterns: seq<string>, compiles: Compiles,
                       candidate: string, matches: CaseInsensitiveMatch)
    requires forall i :: 0 <= i < |patterns| ==> compiles(patterns[i])
    requires !IsAbsolute(candidate)
    ensures var configured := SetRejectList(ex, patterns, compiles).ex;
      && ShouldIgnore(configured, candidate, matches).Success?
      && (!LooksSuspicious(configured, candidate) ==>
            (ShouldIgnore(configured, candidate, matches).value.ignore
             <==> exists i :: 0 <= i < |patterns| && matches(patterns[i], candidate)))
  {
    SetRejectListOneToOne(ex, patterns, compiles);
  }

  /** Adding a reject pattern appends it to the compiled list and leaves the text list. */
  lemma AddRejectPatternAppends(ex: Extractor, pattern: string, compiles: Compiles)
    requires compiles(pattern) && ex.compiled.Some?
    ensures AddRejectPattern(ex, pattern, compiles).Success?
    ensures var after := AddRejectPattern(ex, pattern, compiles).value;
      && after.compiled == Some(ex.compiled.value + [pattern])
      && after.rejectTexts == ex.rejectTexts
  {
  }

  /** Adding an ignore literal twice is adding it once, and the literal is then ignored
      whenever it is a relative candidate. */
  lemma AddIgnoreIdempotent(ex: Extractor, literal: string, matches: CaseInsensitiveMatch)
    ensures AddIgnore(AddIgnore(ex, literal), literal) == AddIgnore(ex, literal)
    ensures !IsAbsolute(literal) ==>
      ShouldIgnore(AddIgnore(ex, literal), literal, matches).Success?
      && ShouldIgnore(AddIgnore(ex, literal), literal, matches).value.ignore
  {
    assert AddIgnore(ex, literal).ignoreSet + {literal} == AddIgnore(ex, literal).ignoreSet;
  }

  /** Setting the ignore set forgets the earlier one. */
  lemma SetIgnoreSetReplaces(ex: Extractor, a: set<string>, b: set<string>)
    ensures SetIgnoreSet(SetIgnoreSet(ex, a), b) == SetIgnoreSet(ex, b)
    ensures SetIgnoreSet(ex, b).ignoreSet == b
  {
  }
}
