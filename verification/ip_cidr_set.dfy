/** A decide rule that holds a set of CIDR ranges and is true for a URI whose host
    address lies in one of them, or whose address is unknown. The parsed ranges are
    built lazily on first use and cached until the set is replaced.

    The subnet library is not modelled: `Parses(cidr)` stands for its constructor not
    throwing on the text and `InRange(cidr, address)` for the parsed range containing
    the address. A range is known by its CIDR text. */
module IpCidrSet {
  import opened Wrappers
  import opened Sequences

  /** Whether the subnet library accepts a CIDR text. */
  type Parses = string -> bool

  /** Whether the range given by a CIDR text contains an address. */
  type InRange = (string, string) -> bool

  /** The configured ranges, in the order the configured set is iterated (`None` until
      first set), and the cache of parsed ranges (`None` while not built). */
  datatype CidrRule = CidrRule(cidrs: Option<seq<string>>, parsed: Option<seq<string>>)

  const Initial: CidrRule := CidrRule(None, None)

  /** Why an evaluation threw. */
  datatype RuleError =
    | NotConfigured        // the ranges were read before they were set
    | InvalidCidr(text: string)

  /** `setIpAddressCidrs`: the ranges are replaced and the cache dropped. */
  function SetCidrs(rule: CidrRule, cidrs: seq<string>): (r: CidrRule)
    ensures r.cidrs == Some(cidrs) && r.parsed.None?
  {
    CidrRule(Some(cidrs), None)
  }

  /** The rule after building the cache, and the ranges or the error. */
  datatype Built = Built(rule: CidrRule, ranges: Result<seq<string>, RuleError>)

  /** `getSubnetInfos`: a built cache is returned as it is. Otherwise an empty cache is
      installed first and then filled range by range; a text that does not parse throws
      and leaves the ranges before it in the cache, and reading ranges that were never
      set throws and leaves the cache empty. */
  function GetSubnetInfos(rule: CidrRule, parses: Parses): Built
  {
    match rule.parsed
    case Some(ranges) => Built(rule, Success(ranges))
    case None =>
      match rule.cidrs
      case None => Built(rule.(parsed := Some([])), Failure(NotConfigured))
      case Some(cidrs) =>
        var k := PrefixWhile(cidrs, parses);
        Built(rule.(parsed := Some(cidrs[..k])),
              if k < |cidrs| then Failure(InvalidCidr(cidrs[k])) else Success(cidrs))
  }

  /** Some range in the list contains the address. */
  function AnyInRange(ranges: seq<string>, address: string, inRange: InRange): bool
  {
    AnyOf(ranges, r => inRange(r, address))
  }

  /** The verdict, or the error, and the rule after the evaluation. */
  datatype Evaluated = Evaluated(rule: CidrRule, verdict: Result<bool, RuleError>)

  /** `evaluate`: an unknown address is accepted without touching the ranges; a known
      one is accepted iff some range contains it. */
  function Evaluate(rule: CidrRule, hostAddress: Option<string>, parses: Parses,
                    inRange: InRange): Evaluated
  {
    match hostAddress
    case None => Evaluated(rule, Success(true))
    case Some(address) =>
      var b := GetSubnetInfos(rule, parses);
      match b.ranges
      case Failure(e) => Evaluated(b.rule, Failure(e))
      case Success(ranges) => Evaluated(b.rule, Success(AnyInRange(ranges, address, inRange)))
  }

  // ---------------------------------------------------------------------------
  // Lemmas

  /** The cache, once built from ranges that all parse, holds one entry per configured
      range in iteration order, and a later evaluation leaves the rule as it is. */
  lemma BuiltOnce(cidrs: seq<string>, address: string, other: Option<string>,
                  parses: Parses, inRange: InRange)
    requires forall i :: 0 <= i < |cidrs| ==> parses(cidrs[i])
    ensures var first := Evaluate(CidrRule(Some(cidrs), None), Some(address), parses, inRange);
      && first.rule == CidrRule(Some(cidrs), Some(cidrs))
      && Evaluate(first.rule, other, parses, inRange).rule == first.rule
  {
    assert cidrs[..|cidrs|] == cidrs;
  }

  /** A known address, once the ranges are set and all parse, is accepted iff one of the
      configured ranges contains it; an unknown one is always accepted. */
  lemma EvaluateAfterSet(rule: CidrRule, cidrs: seq<string>, hostAddress: Option<string>,
                         parses: Parses, inRange: InRange)
    requires forall i :: 0 <= i < |cidrs| ==> parses(cidrs[i])
    ensures var e := Evaluate(SetCidrs(rule, cidrs), hostAddress, parses, inRange);
      && e.verdict.Success?
      && (e.verdict.value <==>
            (hostAddress.None? || exists i :: 0 <= i < |cidrs| && inRange(cidrs[i], hostAddress.value)))
  {
    assert cidrs[..|cidrs|] == cidrs;
  }

  /** An unknown address is accepted and nothing is built. */
  lemma UnknownAccepted(rule: CidrRule, parses: Parses, inRange: InRange)
    ensures Evaluate(rule, None, parses, inRange) == Evaluated(rule, Success(true))
  {
  }

  /** With no ranges configured, every known address is refused. */
  lemma EmptyRefusesKnown(rule: CidrRule, address: string, parses: Parses, inRange: InRange)
    ensures Evaluate(SetCidrs(rule, []), Some(address), parses, inRange).verdict == Success(false)
  {
  }

  /** The verdict depends only on which ranges there are, not on their order or
      repetition. */
  lemma RangeOrderIrrelevant(xs: seq<string>, ys: seq<string>, address: string, inRange: InRange)
    requires forall c :: c in xs <==> c in ys
    ensures AnyInRange(xs, address, inRange) == AnyInRange(ys, address, inRange)
  {
    if AnyInRange(xs, address, inRange) {
      var i :| 0 <= i < |xs| && inRange(xs[i], address);
      assert xs[i] in xs;
      var j :| 0 <= j < |ys| && ys[j] == xs[i];
    }
    if AnyInRange(ys, address, inRange) {
      var i :| 0 <= i < |ys| && inRange(ys[i], address);
      assert ys[i] in ys;
      var j :| 0 <= j < |xs| && xs[j] == ys[i];
    }
  }

  /** Adding a range never turns an accepted address into a refused one. */
  lemma MoreRangesAcceptMore(ranges: seq<string>, extra: string, address: string, inRange: InRange)
    ensures AnyInRange(ranges, address, inRange) ==> AnyInRange(ranges + [extra], address, inRange)
  {
    if AnyInRange(ranges, address, inRange) {
      var i :| 0 <= i < |ranges| && inRange(ranges[i], address);
      assert (ranges + [extra])[i] == ranges[i];
    }
  }

  /** A range that does not parse makes the first evaluation of a known address throw,
      and leaves in the cache only the ranges iterated before it: a later evaluation
      succeeds and judges by those ranges alone. */
  lemma BadRangeLeavesPartialCache(good: seq<string>, bad: string, rest: seq<string>,
                                   a: string, b: string, parses: Parses, inRange: InRange)
    requires forall i :: 0 <= i < |good| ==> parses(good[i])
    requires !parses(bad)
    ensures var first := Evaluate(CidrRule(Some(good + [bad] + rest), None), Some(a), parses, inRange);
      && first.verdict == Failure(InvalidCidr(bad))
      && first.rule.parsed == Some(good)
      && Evaluate(first.rule, Some(b), parses, inRange).verdict
         == Success(exists i :: 0 <= i < |good| && inRange(good[i], b))
  {
    var cidrs := good + [bad] + rest;
    var k := PrefixWhile(cidrs, parses);
    assert forall i :: 0 <= i < |good| ==> cidrs[i] == good[i];
    assert cidrs[|good|] == bad;
    assert k == |good|;
    assert cidrs[..k] == good;
  }

  /** Reading ranges that were never set throws once, and leaves an empty cache behind:
      every later known address is refused. */
  lemma UnsetLeavesEmptyCache(a: string, b: string, parses: Parses, inRange: InRange)
    ensures var first := Evaluate(Initial, Some(a), parses, inRange);
      && first.verdict == Failure(NotConfigured)
      && Evaluate(first.rule, Some(b), parses, inRange).verdict == Success(false)
  {
  }
}
