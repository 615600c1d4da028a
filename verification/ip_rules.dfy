/** The two IP-address decide rules as a URI meets them: the host address is looked up
    first, and then the rule's own test decides. */
module IpRules {
  import opened Wrappers
  import opened HostAddress
  import IpAddressSet
  import IpCidrSet

  /** Through the lookup, a freshly configured address set accepts a URI exactly when
      its host address is known and some entry contributes that address. */
  lemma SetRuleVerdict(entries: seq<string>, expand: IpAddressSet.Expand,
                       serverIp: Option<string>, lookup: CacheLookup)
    ensures var host := GetHostAddress(serverIp, lookup);
      IpAddressSet.Evaluate(IpAddressSet.SetIpAddresses(entries, expand), host)
      == Success(host.Some? && exists k :: 0 <= k < |entries|
                                && host.value in IpAddressSet.Contribution(entries[k], expand))
  {
    var host := GetHostAddress(serverIp, lookup);
    if host.Some? {
      IpAddressSet.SetIsUnion(entries, expand, host.value);
    }
  }

  /** Through the lookup, a range rule whose ranges all parse accepts a URI exactly when
      its host address is unknown or lies in one of the ranges. */
  lemma CidrRuleVerdict(rule: IpCidrSet.CidrRule, cidrs: seq<string>,
                        serverIp: Option<string>, lookup: CacheLookup,
                        parses: IpCidrSet.Parses, inRange: IpCidrSet.InRange)
    requires forall i :: 0 <= i < |cidrs| ==> parses(cidrs[i])
    ensures var host := GetHostAddress(serverIp, lookup);
      IpCidrSet.Evaluate(IpCidrSet.SetCidrs(rule, cidrs), host, parses, inRange).verdict
      == Success(host.None? || exists i :: 0 <= i < |cidrs| && inRange(cidrs[i], host.value))
  {
    IpCidrSet.EvaluateAfterSet(rule, cidrs, GetHostAddress(serverIp, lookup), parses, inRange);
  }

  /** With nothing stashed and no address in the cache the two rules disagree, whatever
      their configuration: the address set refuses the URI and the range rule accepts
      it without building its ranges. */
  lemma UnknownAddressOpposite(setRule: IpAddressSet.SetRule, cidrRule: IpCidrSet.CidrRule,
                               lookup: CacheLookup,
                               parses: IpCidrSet.Parses, inRange: IpCidrSet.InRange)
    requires !lookup.HostIp?
    ensures var host := GetHostAddress(None, lookup);
      && IpAddressSet.Evaluate(setRule, host) == Success(false)
      && IpCidrSet.Evaluate(cidrRule, host, parses, inRange)
         == IpCidrSet.Evaluated(cidrRule, Success(true))
  {
  }
}
