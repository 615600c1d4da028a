/** A decide rule that holds a set of IP addresses and is true for a URI whose host
    address is in it. Entries in CIDR notation are expanded into their addresses when
    added; anything else is stored as given.

    The subnet library is not modelled: `Expand(cidr)` stands for the list of all
    addresses of the range, or `None` when the library throws on it. */
module IpAddressSet {
  import opened Wrappers
  import opened JavaText
  import opened Decimal

  /** All addresses of a CIDR range, or `None` when expansion throws. */
  type Expand = string -> Option<set<string>>

  /** The rule's addresses; `None` until the set is first configured. */
  datatype SetRule = SetRule(addresses: Option<set<string>>)

  const Initial: SetRule := SetRule(None)

  /** Why an operation threw. */
  datatype RuleError = NotConfigured

  /** One to `max` decimal digits. */
  predicate DigitGroup(s: string, max: nat) {
    1 <= |s| <= max && IsDigits(s)
  }

  /** The full-match test `[0-9]{1,3}\.[0-9]{1,3}\.[0-9]{1,3}\.[0-9]{1,3}/[0-9]{1,2}`:
      four dot-separated groups of one to three digits, a slash, and one or two digits. */
  predicate IsCidrShaped(entry: string) {
    var halves := SplitAll(entry, '/');
    && |halves| == 2
    && DigitGroup(halves[1], 2)
    && var quad := SplitAll(halves[0], '.');
       && |quad| == 4
       && forall k :: 0 <= k < 4 ==> DigitGroup(quad[k], 3)
  }

  /** What an entry adds to the set: its expansion when it is CIDR-shaped (nothing when
      expansion throws), otherwise the entry itself. */
  function Contribution(entry: string, expand: Expand): set<string>
  {
    if IsCidrShaped(entry) then expand(entry).GetOr({}) else {entry}
  }

  /** `addIpAddress`: the entry's contribution joins the set. Before the set exists a
      CIDR-shaped entry is swallowed by the rule's own error handler, while a plain entry
      throws. */
  function AddIpAddress(rule: SetRule, entry: string, expand: Expand): Result<SetRule, RuleError>
  {
    match rule.addresses
    case Some(s) => Success(SetRule(Some(s + Contribution(entry, expand))))
    case None => if IsCidrShaped(entry) then Success(rule) else Failure(NotConfigured)
  }

  /** The entries added in turn to a configured set. */
  function AddAll(s: set<string>, entries: seq<string>, expand: Expand): set<string>
  {
    if |entries| == 0 then s
    else AddAll(s, entries[..|entries| - 1], expand) + Contribution(entries[|entries| - 1], expand)
  }

  /** `setIpAddresses`: a fresh set with every given entry added, `entries` being the
      order in which the given set is iterated. */
  function SetIpAddresses(entries: seq<string>, expand: Expand): SetRule
  {
    SetRule(Some(AddAll({}, entries, expand)))
  }

  /** `evaluate`: true iff the host address is known and in the set. A known address
      checked against a rule that was never configured throws. */
  function Evaluate(rule: SetRule, hostAddress: Option<string>): Result<bool, RuleError>
  {
    if hostAddress.None? then Success(false)
    else
      match rule.addresses
      case None => Failure(NotConfigured)
      case Some(s) => Success(hostAddress.value in s)
  }

  // ---------------------------------------------------------------------------
  // Lemmas

  /** The set after configuring is the union of the entries' contributions, whatever
      order the entries come in. */
  lemma {:induction false} SetIsUnion(entries: seq<string>, expand: Expand, a: string)
    ensures a in AddAll({}, entries, expand)
        <==> exists k :: 0 <= k < |entries| && a in Contribution(entries[k], expand)
    decreases |entries|
  {
    if |entries| > 0 {
      var init := entries[..|entries| - 1];
      SetIsUnion(init, expand, a);
      assert forall k :: 0 <= k < |init| ==> init[k] == entries[k];
    }
  }

  /** Two enumerations of the same entries configure the same set. */
  lemma OrderInsensitive(xs: seq<string>, ys: seq<string>, expand: Expand)
    requires forall e :: e in xs <==> e in ys
    ensures SetIpAddresses(xs, expand) == SetIpAddresses(ys, expand)
  {
    var a := AddAll({}, xs, expand);
    var b := AddAll({}, ys, expand);
    forall x ensures x in a <==> x in b {
      SetIsUnion(xs, expand, x);
      SetIsUnion(ys, expand, x);
      if x in a {
        var k :| 0 <= k < |xs| && x in Contribution(xs[k], expand);
        assert xs[k] in xs;
        var j :| 0 <= j < |ys| && ys[j] == xs[k];
      }
      if x in b {
        var k :| 0 <= k < |ys| && x in Contribution(ys[k], expand);
        assert ys[k] in ys;
        var j :| 0 <= j < |xs| && xs[j] == ys[k];
      }
    }
    assert a == b;
  }

  /** Adding to a configured set is idempotent and order-insensitive; a plain entry is
      then present verbatim, and a CIDR entry whose expansion throws changes nothing. */
  lemma AddProperties(s: set<string>, a: string, b: string, expand: Expand)
    ensures var r := SetRule(Some(s));
      && AddIpAddress(AddIpAddress(r, a, expand).value, a, expand) == AddIpAddress(r, a, expand)
      && AddIpAddress(AddIpAddress(r, a, expand).value, b, expand)
         == AddIpAddress(AddIpAddress(r, b, expand).value, a, expand)
      && (!IsCidrShaped(a) ==> a in AddIpAddress(r, a, expand).value.addresses.value)
      && (IsCidrShaped(a) && expand(a).None? ==> AddIpAddress(r, a, expand) == Success(r))
  {
    var ca := Contribution(a, expand);
    var cb := Contribution(b, expand);
    assert s + ca + ca == s + ca;
    assert s + ca + cb == s + cb + ca;
    assert s + {} == s;
  }

  // ---------------------------------------------------------------------------
  // The CIDR shape

  /** The parts of a CIDR entry: four groups of one to three digits and a prefix length
      of one or two digits. */
  predicate CidrParts(quad: seq<string>, prefix: string) {
    && |quad| == 4
    && (forall k :: 0 <= k < 4 ==> DigitGroup(quad[k], 3))
    && DigitGroup(prefix, 2)
  }

  /** The parts written out: the groups joined by dots, a slash, the prefix length. */
  function CidrText(quad: seq<string>, prefix: string): string {
    Join(quad, '.') + "/" + prefix
  }

  /** An entry is CIDR-shaped exactly when it is the text of some CIDR parts. */
  lemma CidrShapeIff(entry: string)
    ensures IsCidrShaped(entry)
        <==> exists quad, prefix :: CidrParts(quad, prefix) && entry == CidrText(quad, prefix)
  {
    if IsCidrShaped(entry) {
      var halves := SplitAll(entry, '/');
      var quad := SplitAll(halves[0], '.');
      CidrShapeParts(entry);
      assert CidrParts(quad, halves[1]) && entry == CidrText(quad, halves[1]);
    }
    if exists quad, prefix :: CidrParts(quad, prefix) && entry == CidrText(quad, prefix) {
      var quad, prefix :| CidrParts(quad, prefix) && entry == CidrText(quad, prefix);
      CidrShapeBuilt(quad, prefix);
    }
  }

  /** Four digit groups, dots, a slash and a prefix length make a CIDR-shaped entry. */
  lemma CidrShapeBuilt(quad: seq<string>, prefix: string)
    requires |quad| == 4 && forall k :: 0 <= k < 4 ==> DigitGroup(quad[k], 3)
    requires DigitGroup(prefix, 2)
    ensures IsCidrShaped(Join(quad, '.') + "/" + prefix)
  {
    forall k | 0 <= k < 4 ensures '.' !in quad[k] && '/' !in quad[k] {
      NoSeparatorInDigits(quad[k]);
    }
    NoSeparatorInDigits(prefix);
    var front := Join(quad, '.');
    SplitAllJoin(quad, '.');
    JoinAvoids(quad, '.', '/');
    SplitAllCons(front, '/', prefix);
    assert SplitAll(prefix, '/') == [prefix];
  }

  /** Digits are neither dots nor slashes. */
  lemma NoSeparatorInDigits(s: string)
    requires IsDigits(s)
    ensures '.' !in s && '/' !in s
  {
    assert forall i :: 0 <= i < |s| ==> IsDigit(s[i]);
  }

  /** A CIDR-shaped entry is its four groups joined by dots, a slash and its prefix. */
  lemma CidrShapeParts(entry: string)
    requires IsCidrShaped(entry)
    ensures var halves := SplitAll(entry, '/'); var quad := SplitAll(halves[0], '.');
      entry == Join(quad, '.') + "/" + halves[1]
  {
    var halves := SplitAll(entry, '/');
    JoinSplitAll(entry, '/');
    JoinSplitAll(halves[0], '.');
    assert halves[1..] == [halves[1]];
  }
}
