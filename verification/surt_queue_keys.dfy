/** Queue names from SURT authorities (`com,example,www,#443`), cut down to the first
    few `,`-separated components so that the sub-domains of one domain share a crawl
    queue. Everything from the first `#` is the port part and is kept verbatim. */
module SurtQueueKeys {
  import opened JavaText

  /** The configured limit when none is set: no truncation. */
  const DefaultLimit: int := -1

  /** The policy's one setting. */
  datatype Policy = Policy(limit: int)

  const DefaultPolicy: Policy := Policy(DefaultLimit)

  /** The SURT before its first `#`, or all of it when it has none. */
  function DomainPart(surt: string): (d: string)
    ensures StartsWith(surt, d) && '#' !in d
  {
    var h := IndexOf(surt, '#');
    if h > -1 then surt[..h] else surt
  }

  /** The SURT from its first `#` on, or empty when it has none. */
  function PortPart(surt: string): (p: string)
    ensures DomainPart(surt) + p == surt
    ensures p == "" || p[0] == '#'
  {
    var h := IndexOf(surt, '#');
    if h > -1 then surt[h..] else ""
  }

  /** The components of the domain part as Java's `split` on a comma yields them. */
  function Components(surt: string): seq<string>
  {
    Split(DomainPart(surt), ',')
  }

  /** The SURT kept to its first `limit` components, each followed by a comma, then the
      port part. A limit that is not positive, or that is not below the number of
      components, leaves the SURT as it is. */
  function LimitedSurtAuthority(surt: string, limit: int): string
  {
    if limit <= 0 then surt
    else
      var segments := Components(surt);
      if limit >= |segments| then surt
      else Terminated(segments[..limit], ',') + PortPart(surt)
  }

  /** The queue key: the parent policy's key passed through the configured limit. */
  function CoreKey(policy: Policy, parentKey: string): string
  {
    LimitedSurtAuthority(parentKey, policy.limit)
  }

  // ---------------------------------------------------------------------------
  // What the truncation keeps

  /** The domain and port parts of a `#`-free text followed by a port part. */
  lemma PartsOf(d: string, p: string)
    requires '#' !in d && (p == "" || p[0] == '#')
    ensures DomainPart(d + p) == d && PortPart(d + p) == p
  {
    if p != "" {
      assert (d + p)[..|d|] == d;
      IndexOfAt(d + p, '#', |d|);
    } else {
      assert d + p == d;
    }
  }

  /** No truncation leaves the SURT as it is. When truncation applies, the result is a
      prefix of the domain part that ends with a comma and holds exactly the first
      `limit` components, followed by the port part. */
  lemma LimitedSurtShape(surt: string, limit: int)
    ensures limit <= 0 || limit >= |Components(surt)| ==> LimitedSurtAuthority(surt, limit) == surt
    ensures 0 < limit < |Components(surt)| ==>
      var d := DomainPart(surt); var kept := Terminated(Components(surt)[..limit], ',');
      && LimitedSurtAuthority(surt, limit) == kept + PortPart(surt)
      && StartsWith(d, kept)
      && kept != "" && kept[|kept| - 1] == ','
      && SplitAll(kept, ',') == Components(surt)[..limit] + [""]
  {
    if 0 < limit < |Components(surt)| {
      var d := DomainPart(surt);
      assert d != "";
      FrontOfSplit(d, limit, ',');
      PrefixOfPieces(d, limit, ',');
      TerminatedIsJoin(Components(surt)[..limit], ',');
      SplitAllTerminated(Components(surt)[..limit], ',');
    }
  }

  /** Below the number of pieces `split` keeps, its first `k` are those of the full split. */
  lemma FrontOfSplit(d: string, k: nat, c: char)
    requires d != "" && k < |Split(d, c)|
    ensures k < |SplitAll(d, c)| && Split(d, c)[..k] == SplitAll(d, c)[..k]
  {
  }

  /** The first `k` pieces of a text, each followed by the separator, begin the text. */
  lemma PrefixOfPieces(d: string, k: nat, c: char)
    requires 0 < k < |SplitAll(d, c)|
    ensures StartsWith(d, Terminated(SplitAll(d, c)[..k], c))
  {
    var all := SplitAll(d, c);
    JoinSplitAll(d, c);
    JoinSplitsAt(all, k, c);
    TerminatedIsJoin(all[..k], c);
  }

  /** The port part of the result is always the port part of the input. */
  lemma LimitedSurtKeepsPort(surt: string, limit: int)
    ensures PortPart(LimitedSurtAuthority(surt, limit)) == PortPart(surt)
    ensures EndsWith(LimitedSurtAuthority(surt, limit), PortPart(surt))
  {
    if 0 < limit < |Components(surt)| {
      LimitedSurtShape(surt, limit);
      var kept := Terminated(Components(surt)[..limit], ',');
      KeptHasNoHash(DomainPart(surt), kept);
      PartsOf(kept, PortPart(surt));
    } else {
      assert surt == DomainPart(surt) + PortPart(surt);
    }
  }

  /** A prefix of `#`-free text is `#`-free. */
  lemma KeptHasNoHash(d: string, kept: string)
    requires StartsWith(d, kept) && '#' !in d
    ensures '#' !in kept
  {
    assert forall i :: 0 <= i < |kept| ==> kept[i] == d[i];
  }

  /** A comma-terminated text splits into at most as many components as it has commas
      that end a piece. */
  lemma TerminatedComponents(kept: string, front: seq<string>)
    requires kept != "" && SplitAll(kept, ',') == front + [""]
    ensures |Split(kept, ',')| <= |front|
  {
  }

  /** Limiting an already limited SURT with the same limit changes nothing. */
  lemma LimitedSurtIdempotent(surt: string, limit: int)
    ensures LimitedSurtAuthority(LimitedSurtAuthority(surt, limit), limit)
         == LimitedSurtAuthority(surt, limit)
  {
    if 0 < limit < |Components(surt)| {
      var r := LimitedSurtAuthority(surt, limit);
      var front := Components(surt)[..limit];
      var kept := Terminated(front, ',');
      LimitedSurtShape(surt, limit);
      KeptHasNoHash(DomainPart(surt), kept);
      PartsOf(kept, PortPart(surt));
      TerminatedComponents(kept, front);
      assert |Components(r)| <= limit;
    }
  }

  /** The default policy keys every host by its full parent key. */
  lemma DefaultKeepsParentKey(parentKey: string)
    ensures CoreKey(DefaultPolicy, parentKey) == parentKey
  {
  }

  // ---------------------------------------------------------------------------
  // SURTs built from a few components

  /** `a,b,c,d,` followed by a port part, limited to two, is `a,b,` followed by the same
      port part: the trailing comma of the input gives no component of its own, and the
      result keeps a comma after each kept component. */
  lemma FirstTwoOfFour(surt: string, domain: string, port: string,
                       a: string, b: string, c: string, d: string)
    requires domain == a + "," + b + "," + c + "," + d + "," && surt == domain + port
    requires ',' !in a && ',' !in b && ',' !in c && ',' !in d && d != ""
    requires '#' !in a && '#' !in b && '#' !in c && '#' !in d
    requires port == "" || port[0] == '#'
    ensures LimitedSurtAuthority(surt, 2) == a + "," + b + "," + port
  {
    var parts := [a, b, c, d];
    FourComponents(domain, a, b, c, d);
    PartsOf(domain, port);
    assert Components(surt) == parts;
    assert parts[..2] == [a, b];
    TwoTerminated(a, b, ',');
    Truncated(surt, 2);
  }

  /** A limit below the number of components keeps that many, then the port part. */
  lemma Truncated(surt: string, limit: int)
    requires 0 < limit < |Components(surt)|
    ensures LimitedSurtAuthority(surt, limit) == Terminated(Components(surt)[..limit], ',') + PortPart(surt)
  {
  }

  /** Two pieces, each followed by the separator. */
  lemma TwoTerminated(a: string, b: string, sep: char)
    ensures Terminated([a, b], sep) == a + [sep] + b + [sep]
  {
    TerminatedSnoc([a], b, sep);
    TerminatedSnoc([], a, sep);
    assert [a] + [b] == [a, b] && [] + [a] == [a];
  }

  /** The components of `a,b,c,d,`. */
  lemma FourComponents(surt: string, a: string, b: string, c: string, d: string)
    requires surt == a + "," + b + "," + c + "," + d + ","
    requires ',' !in a && ',' !in b && ',' !in c && ',' !in d && d != ""
    ensures Split(surt, ',') == [a, b, c, d]
  {
    var parts := [a, b, c, d];
    FourTerminated(a, b, c, d, ',');
    assert surt == Terminated(parts, ',');
    SplitTerminated(parts, ',');
  }

  /** Four pieces, each followed by the separator. */
  lemma FourTerminated(a: string, b: string, c: string, d: string, sep: char)
    ensures Terminated([a, b, c, d], sep) == a + [sep] + b + [sep] + c + [sep] + d + [sep]
  {
    TerminatedSnoc([a, b, c], d, sep);
    TerminatedSnoc([a, b], c, sep);
    TerminatedSnoc([a], b, sep);
    TerminatedSnoc([], a, sep);
    assert [a, b, c] + [d] == [a, b, c, d] && [a, b] + [c] == [a, b, c];
    assert [a] + [b] == [a, b] && [] + [a] == [a];
  }

  /** One more piece, followed by the separator. */
  lemma TerminatedSnoc(parts: seq<string>, x: string, sep: char)
    ensures Terminated(parts + [x], sep) == Terminated(parts, sep) + x + [sep]
  {
    assert (parts + [x])[..|parts|] == parts;
  }

  /** Separator-free pieces whose last is not empty, each followed by the separator,
      split back into themselves: the trailing empty piece is dropped. */
  lemma SplitTerminated(parts: seq<string>, c: char)
    requires |parts| >= 1 && parts[|parts| - 1] != ""
    requires forall k :: 0 <= k < |parts| ==> c !in parts[k]
    ensures Split(Terminated(parts, c), c) == parts
  {
    TerminatedIsJoin(parts, c);
    SplitAllTerminated(parts, c);
    assert (parts + [""])[..|parts|] == parts;
  }

  /** `com,example,subdomain,www,` limited to two is `com,example,`. */
  lemma LimitTwoOfFour(surt: string)
    requires surt == "com" + "," + "example" + "," + "subdomain" + "," + "www" + ","
    ensures LimitedSurtAuthority(surt, 2) == "com" + "," + "example" + ","
  {
    FirstTwoOfFour(surt, surt, "", "com", "example", "subdomain", "www");
  }

  /** `com,example,subdomain,www,#443` limited to two is `com,example,#443`. */
  lemma LimitTwoOfFourWithPort(surt: string, domain: string)
    requires domain == "com" + "," + "example" + "," + "subdomain" + "," + "www" + ","
    requires surt == domain + "#443"
    ensures LimitedSurtAuthority(surt, 2) == "com" + "," + "example" + "," + "#443"
  {
    FirstTwoOfFour(surt, domain, "#443", "com", "example", "subdomain", "www");
  }
}
