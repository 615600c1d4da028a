/** Queue names from hostnames, cut down to the last few `.`-separated labels so that
    the sub-domains of one domain share a crawl queue. A `#port` tail, when the parent
    policy adds one, is part of the last label and travels with it. */
module HostnameQueueKeys {
  import opened JavaText

  /** The configured limit when none is set: no truncation. */
  const DefaultLimit: int := -1

  /** The policy's one setting. */
  datatype Policy = Policy(limit: int)

  const DefaultPolicy: Policy := Policy(DefaultLimit)

  /** The labels of a hostname as Java's `split` on a dot yields them. */
  function Labels(hostname: string): seq<string>
  {
    Split(hostname, '.')
  }

  /** The hostname kept to its last `limit` labels: each kept label but the last is
      appended followed by a dot, then the last label. A limit that is not positive,
      or that is not below the number of labels, leaves the hostname as it is. */
  function LimitedHostname(hostname: string, limit: int): string
  {
    if limit <= 0 then hostname
    else
      var domains := Labels(hostname);
      var n := |domains|;
      if limit >= n then hostname else KeepLast(domains, limit)
  }

  /** The last `limit` labels, each kept label but the last appended followed by a dot,
      then the last label. */
  function KeepLast(domains: seq<string>, limit: int): string
    requires 0 < limit < |domains|
  {
    var n := |domains|;
    Terminated(domains[n - limit..n - 1], '.') + domains[n - 1]
  }

  /** The queue key: the parent policy's key passed through the configured limit. */
  function CoreKey(policy: Policy, parentKey: string): string
  {
    LimitedHostname(parentKey, policy.limit)
  }

  // ---------------------------------------------------------------------------
  // What the truncation keeps

  /** The result is the input when no truncation applies, and otherwise the join of the
      last `limit` labels, which splits back into exactly those labels. */
  lemma LimitedHostnameLabels(hostname: string, limit: int)
    ensures var labels := Labels(hostname); var r := LimitedHostname(hostname, limit);
      && (limit <= 0 || limit >= |labels| ==> r == hostname)
      && (0 < limit < |labels| ==>
            r == Join(labels[|labels| - limit..], '.')
            && Labels(r) == labels[|labels| - limit..]
            && |Labels(r)| == limit)
  {
    var labels := Labels(hostname);
    var n := |labels|;
    if 0 < limit < n {
      LimitedIsJoin(hostname, limit);
      KeptSplitsBack(labels, limit);
    }
  }

  /** The limited name is the join of the last `limit` labels. */
  lemma LimitedIsJoin(hostname: string, limit: int)
    requires 0 < limit < |Labels(hostname)|
    ensures LimitedHostname(hostname, limit)
         == Join(Labels(hostname)[|Labels(hostname)| - limit..], '.')
  {
    KeepLastIsJoin(Labels(hostname), limit);
  }

  /** The kept labels, terminated and followed by the last, are their join. */
  lemma KeepLastIsJoin(labels: seq<string>, limit: int)
    requires 0 < limit < |labels|
    ensures KeepLast(labels, limit) == Join(labels[|labels| - limit..], '.')
  {
    var n := |labels|;
    var front, last := labels[n - limit..n - 1], labels[n - 1];
    TerminatedThenLast(front, last, '.');
    SliceSnoc(labels, n - limit);
  }

  /** The last `limit` labels of a hostname join into a name whose labels they are. */
  lemma KeptSplitsBack(labels: seq<string>, limit: int)
    requires 0 < limit <= |labels|
    requires labels[|labels| - 1] != ""
    requires forall k :: 0 <= k < |labels| ==> '.' !in labels[k]
    ensures Split(Join(labels[|labels| - limit..], '.'), '.') == labels[|labels| - limit..]
  {
    var kept := labels[|labels| - limit..];
    assert kept[|kept| - 1] == labels[|labels| - 1];
    assert forall k :: 0 <= k < |kept| ==> kept[k] == labels[|labels| - limit + k];
    SplitJoin(kept, '.');
  }

  /** The last element put back after the slice that stops short of it. */
  lemma SliceSnoc(xs: seq<string>, i: nat)
    requires i < |xs|
    ensures xs[i..|xs| - 1] + [xs[|xs| - 1]] == xs[i..]
  {
  }

  /** Limiting an already limited hostname with the same limit changes nothing. */
  lemma LimitedHostnameIdempotent(hostname: string, limit: int)
    ensures LimitedHostname(LimitedHostname(hostname, limit), limit)
         == LimitedHostname(hostname, limit)
  {
    LimitedHostnameLabels(hostname, limit);
  }

  /** When the hostname does not end in a dot, so that no trailing empty label is lost to
      the split, the limited name is a suffix of it. */
  lemma LimitedHostnameIsSuffix(hostname: string, limit: int)
    requires hostname == "" || hostname[|hostname| - 1] != '.'
    ensures EndsWith(hostname, LimitedHostname(hostname, limit))
  {
    var labels := Labels(hostname);
    var n := |labels|;
    LimitedHostnameLabels(hostname, limit);
    if 0 < limit < n {
      SplitJoinsBack(hostname, '.');
      JoinSplitsAt(labels, n - limit, '.');
    }
  }

  /** A dot-free tail on the last label, such as `#443`, stays on the limited name. */
  lemma PortTailSurvives(hostname: string, tail: string, limit: int)
    requires hostname != "" && hostname[|hostname| - 1] != '.'
    requires '.' !in tail
    ensures LimitedHostname(hostname + tail, limit) == LimitedHostname(hostname, limit) + tail
  {
    var labels := Labels(hostname);
    var n := |labels|;
    var moved := Labels(hostname + tail);
    assert n >= 1 && moved == labels[..n - 1] + [labels[n - 1] + tail] by {
      SplitLastAppend(hostname, tail, '.');
    }
    if 0 < limit < n {
      KeepLastAppend(labels, tail, limit);
    }
  }

  /** Extending the last label extends the kept name by the same text. */
  lemma KeepLastAppend(labels: seq<string>, tail: string, limit: int)
    requires 0 < limit < |labels|
    ensures var n := |labels|;
      KeepLast(labels[..n - 1] + [labels[n - 1] + tail], limit) == KeepLast(labels, limit) + tail
  {
    var n := |labels|;
    var moved := labels[..n - 1] + [labels[n - 1] + tail];
    assert moved[n - limit..n - 1] == labels[n - limit..n - 1];
  }

  /** The default policy keys every host by its full parent key. */
  lemma DefaultKeepsParentKey(parentKey: string)
    ensures CoreKey(DefaultPolicy, parentKey) == parentKey
  {
  }

  // ---------------------------------------------------------------------------
  // Hostnames built from a few labels

  /** Two dot-free labels with a non-empty last one. */
  lemma TwoLabels(hostname: string, a: string, b: string)
    requires hostname == a + "." + b
    requires '.' !in a && '.' !in b && b != ""
    ensures Labels(hostname) == [a, b]
  {
    assert Join([a, b], '.') == hostname;
    SplitJoin([a, b], '.');
  }

  /** A dot-free label put in front of a name that does not end in a dot adds one label. */
  lemma LabelsInFront(hostname: string, a: string, rest: string)
    requires hostname == a + "." + rest
    requires '.' !in a && rest != "" && rest[|rest| - 1] != '.'
    ensures Labels(hostname) == [a] + Labels(rest)
    ensures hostname[|hostname| - 1] != '.'
  {
    SplitCons(a, rest, '.');
  }

  /** A label put in front of a name whose labels already reach the limit does not
      change the limited name. */
  lemma LabelInFront(hostname: string, a: string, rest: string, limit: int)
    requires hostname == a + "." + rest
    requires '.' !in a && rest != "" && rest[|rest| - 1] != '.'
    requires 0 < limit <= |Labels(rest)|
    ensures LimitedHostname(hostname, limit) == LimitedHostname(rest, limit)
  {
    var labels := Labels(rest);
    assert Labels(hostname) == [a] + labels by { LabelsInFront(hostname, a, rest); }
    DropFront(a, labels, limit);
    SameLastLabels(hostname, rest, limit);
  }

  /** Under a positive limit, a hostname with more than `limit` labels and a non-empty one
      with at least `limit` labels and no trailing dot, both ending in the same `limit`
      labels, limit to the same name. */
  lemma SameLastLabels(longer: string, shorter: string, limit: int)
    requires shorter != "" && shorter[|shorter| - 1] != '.'
    requires 0 < limit == |Labels(shorter)| || 0 < limit < |Labels(shorter)|
    requires limit < |Labels(longer)|
    requires Labels(longer)[|Labels(longer)| - limit..] == Labels(shorter)[|Labels(shorter)| - limit..]
    ensures LimitedHostname(longer, limit) == LimitedHostname(shorter, limit)
  {
    var labels := Labels(shorter);
    LimitedIsJoin(longer, limit);
    if limit == |labels| {
      assert labels[0..] == labels;
      SplitJoinsBack(shorter, '.');
    } else {
      LimitedIsJoin(shorter, limit);
    }
  }

  /** The last `k` elements are unchanged by one put in front. */
  lemma DropFront(x: string, xs: seq<string>, k: nat)
    requires k <= |xs|
    ensures ([x] + xs)[|xs| + 1 - k..] == xs[|xs| - k..]
  {
  }

  /** Three dot-free labels with a non-empty last one. */
  lemma ThreeLabels(hostname: string, a: string, b: string, c: string)
    requires hostname == a + "." + b + "." + c
    requires '.' !in a && '.' !in b && '.' !in c && c != ""
    ensures Labels(hostname) == [a, b, c]
    ensures hostname[|hostname| - 1] != '.'
  {
    var two := b + "." + c;
    TwoLabels(two, b, c);
    LabelsInFront(hostname, a, two);
    assert [a] + [b, c] == [a, b, c];
  }

  /** Three labels limited to two keep the last two. */
  lemma LastTwoOfThree(hostname: string, a: string, b: string, c: string)
    requires hostname == a + "." + b + "." + c
    requires '.' !in a && '.' !in b && '.' !in c && c != ""
    ensures LimitedHostname(hostname, 2) == b + "." + c
  {
    ThreeLabels(hostname, a, b, c);
    LimitedIsJoin(hostname, 2);
    assert [a, b, c][1..] == [b, c];
  }

  /** Four labels limited to two keep the last two. */
  lemma LastTwoOfFour(hostname: string, a: string, b: string, c: string, d: string)
    requires hostname == a + "." + b + "." + c + "." + d
    requires '.' !in a && '.' !in b && '.' !in c && '.' !in d && d != ""
    ensures LimitedHostname(hostname, 2) == c + "." + d
  {
    var three := b + "." + c + "." + d;
    assert |Labels(three)| == 3 && three[|three| - 1] != '.' by { ThreeLabels(three, b, c, d); }
    assert LimitedHostname(hostname, 2) == LimitedHostname(three, 2) by {
      LabelInFront(hostname, a, three, 2);
    }
    LastTwoOfThree(three, b, c, d);
  }

  /** Five labels limited to three keep the last three. */
  lemma LastThreeOfFive(hostname: string, a: string, b: string, c: string, d: string, e: string)
    requires hostname == a + "." + b + "." + c + "." + d + "." + e
    requires '.' !in a && '.' !in b && '.' !in c && '.' !in d && '.' !in e && e != ""
    ensures LimitedHostname(hostname, 3) == c + "." + d + "." + e
  {
    var three := c + "." + d + "." + e;
    var four := b + "." + three;
    assert |Labels(three)| == 3 && three[|three| - 1] != '.' by { ThreeLabels(three, c, d, e); }
    assert |Labels(four)| == 4 && four[|four| - 1] != '.' by { LabelsInFront(four, b, three); }
    assert LimitedHostname(four, 3) == three by { LabelInFront(four, b, three, 3); }
    assert hostname == a + "." + four by { Regroup(a, b, c, d, e, "."); }
    assert LimitedHostname(hostname, 3) == LimitedHostname(four, 3) by {
      LabelInFront(hostname, a, four, 3);
    }
  }

  /** Five pieces with a separator between each, grouped from the right. */
  lemma Regroup(a: string, b: string, c: string, d: string, e: string, sep: string)
    ensures a + sep + b + sep + c + sep + d + sep + e == a + sep + (b + sep + (c + sep + d + sep + e))
  {
  }

  /** `www.example.com#443` limited to two labels is `example.com#443`; the default
      limit leaves it whole. */
  lemma LimitTwoWithPort(hostname: string)
    requires hostname == "www" + "." + "example" + "." + "com#443"
    ensures LimitedHostname(hostname, 2) == "example" + "." + "com#443"
    ensures LimitedHostname(hostname, DefaultLimit) == hostname
  {
    LastTwoOfThree(hostname, "www", "example", "com#443");
  }

  /** With limit 2, `www.subdomain.example.com` queues under `example.com`. */
  lemma LimitTwoOfFour(hostname: string)
    requires hostname == "www" + "." + "subdomain" + "." + "example" + "." + "com"
    ensures LimitedHostname(hostname, 2) == "example" + "." + "com"
  {
    LastTwoOfFour(hostname, "www", "subdomain", "example", "com");
  }

  /** With limit 3, `another.www.subdomain.example.com` queues under
      `subdomain.example.com`. */
  lemma LimitThreeOfFive(hostname: string)
    requires hostname == "another" + "." + "www" + "." + "subdomain" + "." + "example" + "." + "com"
    ensures LimitedHostname(hostname, 3) == "subdomain" + "." + "example" + "." + "com"
  {
    LastThreeOfFive(hostname, "another", "www", "subdomain", "example", "com");
  }

  /** With limit 3, `subdomain.example.com` already has few enough labels and is kept. */
  lemma LimitThreeOfThree(hostname: string)
    requires hostname == "subdomain" + "." + "example" + "." + "com"
    ensures LimitedHostname(hostname, 3) == hostname
  {
    ThreeLabels(hostname, "subdomain", "example", "com");
  }
}
