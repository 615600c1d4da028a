/** How the IP-address decide rules find the address of a URI's host: the address the
    fetcher stashed on the URI wins; otherwise the server cache is consulted, and every
    way that lookup can come up empty or throw gives "unknown". The cache itself is not
    modelled: what it answered is an input. */
module HostAddress {
  import opened Wrappers

  /** What consulting the server cache gave. */
  datatype CacheLookup =
    | NoHost                  // the cache has no host for the URI
    | HostWithoutIp           // the host is known but has no address yet
    | HostIp(address: string) // the host and its address
    | LookupFailed            // the lookup threw

  /** `getHostAddress`: the stashed server IP if there is one, else the cached host's
      address; `None` stands for Java's `null`. */
  function GetHostAddress(serverIp: Option<string>, lookup: CacheLookup): (r: Option<string>)
    ensures serverIp.Some? ==> r == serverIp
    ensures serverIp.None? ==> (r.Some? <==> lookup.HostIp?)
    ensures serverIp.None? && lookup.HostIp? ==> r == Some(lookup.address)
  {
    match serverIp
    case Some(ip) => Some(ip)
    case None =>
      match lookup
      case HostIp(a) => Some(a)
      case _ => None
  }

  /** The cache is irrelevant once the fetcher has stashed an address. */
  lemma StashedAddressWins(ip: string, a: CacheLookup, b: CacheLookup)
    ensures GetHostAddress(Some(ip), a) == GetHostAddress(Some(ip), b) == Some(ip)
  {
  }
}
