# Heritrix add-ons: decide rules, queue keys and crawl monitors in Dafny

This project models the decision logic of a set of Heritrix crawler add-ons and proves
what that logic promises. The components are these:

- **Path-segment trap guard** (`PathSegmentsDecideRule`). The URL's path is cut into
  segments. The URL is rejected when one segment value repeats too often, or when
  equal segments follow each other too many times in a row.
- **Queue-key truncation.**
  - `HostnameQueueAssignmentPolicyWithLimits` keeps the last *n* `.`-labels of a host
    name.
  - `SurtAuthorityQueueAssignmentPolicyWithLimits` keeps the first *n* `,`-components
    of a SURT authority and keeps its `#port` tail.
- **Regex-list decide rule** (`MatchesListRegexDecideRule`).
  - It holds an ordered list of patterns with no repeated text, combined by OR or AND.
  - It keeps a hit counter per pattern.
  - It has idempotent `add` and by-text `remove`, an importer that runs when the crawl
    enters the preparing state, a listing and a report.
- **Speculative-link filters of the JavaScript extractor** (`ExtractorJS`): the strict
  test and the false-positive filter for relative candidates, with their setters.
- **SURT-prefix loading** (`ExtSourceSurtPrefixesSheetAssociation`): line filtering,
  followed by the configured prefixes.
- **IP-address decide rules.**
  - `IpAddressSetDecideRule` matches against a set of addresses. CIDR entries are
    expanded when they are added.
  - `IpAddressCidrSetDecideRule` matches against ranges. The parsed ranges are cached
    lazily.
  - Both look up the host address the same way.
- **Statistics tracker** (`LbsStatisticsTracker`): the elapsed-time formatter, the
  state gate on the progress line, and how many snapshots are retained.
- **Monitors.**
  - `LowDiskPauseProcessor` keeps a content tally and checks disk space.
  - `LostConnectionMonitor` watches the time since the last successful fetch.

The code is modelled as immutable records with pure transition functions. Where the
Java code loops over a collection with counters, the model is a method whose loop is
proved against a declarative definition: `PathSegments.Evaluate`,
`RegexListRule.Evaluate` and `LowDiskPause.CheckAvailableSpace`. The Java library behaviour
that matters is written out in `JavaText`:

- `String.split` drops trailing empty strings, and the empty string splits to `[""]`.
- `indexOf` finds the first occurrence.
- `isBlank` and `isEmpty` are different tests.
- `int +=` narrows to 32 bits.
- Division truncates toward zero.

The following are abstract inputs:

- the regex engine: `FullMatch`, `Compiles` and `CaseInsensitiveMatch`;
- the subnet library: `Expand`, `Parses` and `InRange`;
- disk readings: `Usable`;
- the clock: `now`;
- reader contents: `Reading`;
- the server cache.

Outputs such as "request a crawl pause" are flags in the result.

Some behaviour follows from the code as written and is stated as such in the model:

- **`formatElapsedMilliseconds` and negative durations.** Every negative duration is
  below 1000, so it formats as `00s`. The `-` branch is never reached.
- **`innerDecide`'s exception handler.** `getSegments` always returns at least one
  segment and cannot throw, so this handler's path is dead.
- **A CIDR range that does not parse** (`IpAddressCidrSetDecideRule`). The cache is
  left holding the ranges before the bad one. Later evaluations then succeed and judge
  by those ranges alone.
- **Ranges read before they are set** (`IpAddressCidrSetDecideRule`). The read throws
  once and leaves an empty cache, so every later known address is refused.
- **`addIpAddress` before the set exists** (`IpAddressSetDecideRule`). A CIDR-shaped
  entry has its failure swallowed by the rule's own catch. A plain entry throws.
- **Queue-key limit values.** The limit is a plain `int` with default -1. Any value of
  0 or less disables truncation. It is not restricted to non-negative values.

## Model

| member | source | states |
|---|---|---|
| `PathSegments.GetSegments` | heritrix-addons/src/main/java/is/landsbokasafn/crawler/deciderules/PathSegmentsDecideRule.java:110-134 | A URL always yields at least one segment |
| `PathSegments.QueryTail` | heritrix-addons/src/main/java/is/landsbokasafn/crawler/deciderules/PathSegmentsDecideRule.java:124-129 | The query tail is empty or starts with a `?`, and it ends the path text |
| `PathSegments.Evaluate` | heritrix-addons/src/main/java/is/landsbokasafn/crawler/deciderules/PathSegmentsDecideRule.java:67-99 | The one-pass loop never accepts. It rejects iff a run of equal adjacent segments is longer than a positive `maxConSeg`, or a value occurs more than a positive `maxSeg` times. Otherwise it abstains |
| `PathSegments.InnerDecide` | heritrix-addons/src/main/java/is/landsbokasafn/crawler/deciderules/PathSegmentsDecideRule.java:47-65 | A disabled rule (both limits non-positive) abstains. Otherwise the rule rejects exactly the trap URLs and never accepts |
| `PathSegments.NoExcessMeansNoTooMany` | heritrix-addons/src/main/java/is/landsbokasafn/crawler/deciderules/PathSegmentsDecideRule.java:83-93 | Checking each running count as it rises catches every value whose total count is too high |
| `PathSegmentsLemmas.AuthorityCutSlashes` | heritrix-addons/src/main/java/is/landsbokasafn/crawler/deciderules/PathSegmentsDecideRule.java:113-119 | The cut goes through the third slash, or through the last slash when there are fewer |
| `PathSegmentsLemmas.SkipLengthCount` | heritrix-addons/src/main/java/is/landsbokasafn/crawler/deciderules/PathSegmentsDecideRule.java:113-119 | Cutting through the n-th slash removes exactly n slashes, or all of them |
| `PathSegmentsLemmas.SkipLengthEndsAtSlash` | heritrix-addons/src/main/java/is/landsbokasafn/crawler/deciderules/PathSegmentsDecideRule.java:113-119 | What the cut removes ends with a slash, unless it removes nothing |
| `PathSegmentsLemmas.LeadingSlashesUnique` | heritrix-addons/src/main/java/is/landsbokasafn/crawler/deciderules/PathSegmentsDecideRule.java:121-123 | Any run of leading slashes followed by a non-slash, or by the end, is the run that is stripped |
| `PathSegmentsLemmas.CollapseNoDoubleSlash` | heritrix-addons/src/main/java/is/landsbokasafn/crawler/deciderules/PathSegmentsDecideRule.java:130 | After collapsing, no two slashes are adjacent |
| `PathSegmentsLemmas.CollapseIdentity` | heritrix-addons/src/main/java/is/landsbokasafn/crawler/deciderules/PathSegmentsDecideRule.java:130 | Collapsing is the identity on text without doubled slashes |
| `PathSegmentsLemmas.SegmentsWithoutQuery` | heritrix-addons/src/main/java/is/landsbokasafn/crawler/deciderules/PathSegmentsDecideRule.java:130-131 | Without a `?`, the segments are Java's split of the collapsed path |
| `PathSegmentsLemmas.SegmentsWithQuery` | heritrix-addons/src/main/java/is/landsbokasafn/crawler/deciderules/PathSegmentsDecideRule.java:124-132 | With a `?`, the path is split through the `?`, and the parameters are glued onto the last segment |
| `PathSegmentsLemmas.SegmentsRejoin` | heritrix-addons/src/main/java/is/landsbokasafn/crawler/deciderules/PathSegmentsDecideRule.java:124-132 | Joining the segments with `/` gives the collapsed path followed by the query tail verbatim. Without a query, a trailing slash is dropped |
| `PathSegmentsLemmas.SegmentsNonEmpty` | heritrix-addons/src/main/java/is/landsbokasafn/crawler/deciderules/PathSegmentsDecideRule.java:121-133 | The segments are `[""]` exactly when the path text is empty. Otherwise no segment is empty |
| `PathSegmentsLemmas.SeparatorsWithoutQuery` | heritrix-addons/src/main/java/is/landsbokasafn/crawler/deciderules/PathSegmentsDecideRule.java:130-131 | Without a `?`, no segment holds a slash or a `?` |
| `PathSegmentsLemmas.SeparatorsWithQuery` | heritrix-addons/src/main/java/is/landsbokasafn/crawler/deciderules/PathSegmentsDecideRule.java:124-132 | No segment but the last holds a slash or a `?`. The last is a clean piece followed by the whole query tail |
| `PathSegmentsLemmas.RunWithinCount` | heritrix-addons/src/main/java/is/landsbokasafn/crawler/deciderules/PathSegmentsDecideRule.java:73-82 | A run of equal segments is part of that value's count so far |
| `PathSegmentsLemmas.ConsecutiveLimitRedundant` | heritrix-addons/src/main/java/is/landsbokasafn/crawler/deciderules/PathSegmentsDecideRule.java:78-92 | With `maxConSeg >= maxSeg > 0`, the consecutive limit never changes the verdict |
| `PathSegmentsSpec.SegmentsMeetDescription` | heritrix-addons/src/main/java/is/landsbokasafn/crawler/deciderules/PathSegmentsDecideRule.java:121-133 | The computed segments meet the declarative description: slash-free pieces that rejoin to the collapsed path, with the query tail on the last |
| `PathSegmentsSpec.DescriptionIsUnique` | heritrix-addons/src/main/java/is/landsbokasafn/crawler/deciderules/PathSegmentsDecideRule.java:121-133 | Exactly one segment list meets that description: the computed one |
| `PathSegmentsSpec.SameShapeSameSegments` | heritrix-addons/src/main/java/is/landsbokasafn/crawler/deciderules/PathSegmentsDecideRule.java:130 | Two path texts that do not start with a slash, have the same query tail, and collapse to the same path before it (without a `?`: the same collapsed path less a trailing slash) have the same segments. So slash runs before the `?` do not matter; inside the query they do |
| `PathSegmentsSpec.AuthorityCut` | heritrix-addons/src/main/java/is/landsbokasafn/crawler/deciderules/PathSegmentsDecideRule.java:113-123 | For `scheme://host/rest`, the text cut into segments is `rest` without its leading slashes |
| `PathSegmentsSpec.JoinShape` | heritrix-addons/src/main/java/is/landsbokasafn/crawler/deciderules/PathSegmentsDecideRule.java:130-131 | Joining clean pieces gives a collapsed, unrooted path |
| `PathSegmentsSpec.SegmentsRoundTrip` | heritrix-addons/src/main/java/is/landsbokasafn/crawler/deciderules/PathSegmentsDecideRule.java:124-132 | Joining clean pieces, appending a query tail and cutting into segments gives back the pieces, with the tail on the last |
| `PathSegmentsExamples.SimplePath` | heritrix-addons/src/test/java/is/landsbokasafn/crawler/deciderules/PathSegmentsDecideRuleTest.java:9-18 | `http://example.com/path1/path2/index.html` gives `path1`, `path2`, `index.html` |
| `PathSegmentsExamples.RepeatedSlashes` | heritrix-addons/src/test/java/is/landsbokasafn/crawler/deciderules/PathSegmentsDecideRuleTest.java:20-29 | A run of slashes separates like a single slash |
| `PathSegmentsExamples.QueryInLastSegment` | heritrix-addons/src/test/java/is/landsbokasafn/crawler/deciderules/PathSegmentsDecideRuleTest.java:31-40 | `index.php?stuff=cool/stuff` stays one segment |
| `PathSegmentsExamples.QueryBeginsSegment` | heritrix-addons/src/test/java/is/landsbokasafn/crawler/deciderules/PathSegmentsDecideRuleTest.java:42-51 | After a trailing slash, the query forms the last segment |
| `PathSegmentsExamples.DoubleSlashOnly` | heritrix-addons/src/test/java/is/landsbokasafn/crawler/deciderules/PathSegmentsDecideRuleTest.java:53-62 | `http://example.com//` gives exactly `[""]` |
| `PathSegmentsExamples.RunPath` | heritrix-addons/src/test/java/is/landsbokasafn/crawler/deciderules/PathSegmentsDecideRuleTest.java:20-29 | A path with a slash run has the segments of the same path with single slashes |
| `PathSegmentsExamples.EvaluateExamples` | heritrix-addons/src/test/java/is/landsbokasafn/crawler/deciderules/PathSegmentsDecideRuleTest.java:66-82 | With limits 3 and 2, the rule's three verdicts: abstain, reject for a run, reject for a count |
| `PathSegmentsExamples.RunTooLongExample` | heritrix-addons/src/test/java/is/landsbokasafn/crawler/deciderules/PathSegmentsDecideRuleTest.java:72-76 | Three equal segments in a row exceed the consecutive limit 2 |
| `PathSegmentsExamples.TooManyExample` | heritrix-addons/src/test/java/is/landsbokasafn/crawler/deciderules/PathSegmentsDecideRuleTest.java:78-82 | Four occurrences exceed the total limit 3, with no run longer than 2 |
| `PathSegmentsExamples.NoTrapExample` | heritrix-addons/src/test/java/is/landsbokasafn/crawler/deciderules/PathSegmentsDecideRuleTest.java:66-70 | Three different segments are no trap |
| `HostnameQueueKeys.LimitedHostname` | heritrix-addons/src/main/java/is/landsbokasafn/crawler/frontier/HostnameQueueAssignmentPolicyWithLimits.java:49-66 | Definition of `getLimitedHostname`: a non-positive limit, or one at least the number of `split` labels, keeps the name; otherwise the last `limit` labels are joined by dots. Properties in the `HostnameQueueKeys` lemmas below |
| `HostnameQueueKeys.CoreKey` | heritrix-addons/src/main/java/is/landsbokasafn/crawler/frontier/HostnameQueueAssignmentPolicyWithLimits.java:43-47 | Definition of `getCoreKey`: the parent policy's key passed through the configured limit. Partner: `HostnameQueueKeys.DefaultKeepsParentKey` |
| `HostnameQueueKeys.LimitedHostnameLabels` | heritrix-addons/src/main/java/is/landsbokasafn/crawler/frontier/HostnameQueueAssignmentPolicyWithLimits.java:49-66 | With a non-positive limit, or one at least the label count, the name is unchanged. Otherwise the result is the join of the last `limit` labels and splits back into exactly them |
| `HostnameQueueKeys.LimitedHostnameIdempotent` | heritrix-addons/src/main/java/is/landsbokasafn/crawler/frontier/HostnameQueueAssignmentPolicyWithLimits.java:54-65 | Limiting an already limited name with the same limit changes nothing |
| `HostnameQueueKeys.LimitedHostnameIsSuffix` | heritrix-addons/src/main/java/is/landsbokasafn/crawler/frontier/HostnameQueueAssignmentPolicyWithLimits.java:59-65 | For a name that does not end in a dot, the result is a suffix of it |
| `HostnameQueueKeys.PortTailSurvives` | heritrix-addons/src/main/java/is/landsbokasafn/crawler/frontier/HostnameQueueAssignmentPolicyWithLimits.java:54-64 | A dot-free tail such as `#443` on the last label stays on the result |
| `HostnameQueueKeys.SameLastLabels` | heritrix-addons/src/main/java/is/landsbokasafn/crawler/frontier/HostnameQueueAssignmentPolicyWithLimits.java:59-65 | For a positive limit: a name with more than `limit` labels and a non-empty name with at least `limit` labels and no trailing dot, both ending in the same `limit` labels, share a queue key |
| `HostnameQueueKeys.LabelInFront` | heritrix-addons/src/main/java/is/landsbokasafn/crawler/frontier/HostnameQueueAssignmentPolicyWithLimits.java:59-65 | Once a name has at least `limit` labels, another sub-domain label in front does not change its key |
| `HostnameQueueKeys.DefaultKeepsParentKey` | heritrix-addons/src/main/java/is/landsbokasafn/crawler/frontier/HostnameQueueAssignmentPolicyWithLimits.java:21-23 | The default limit -1 keys every host by its full parent key |
| `HostnameQueueKeys.LimitTwoWithPort` | heritrix-addons/src/test/java/is/landsbokasafn/crawler/frontier/HostnameQueueAssignmentPolicyWithLimitsTest.java:11-25 | `www.example.com#443` with limit 2 is `example.com#443`; with no limit it is unchanged |
| `HostnameQueueKeys.LimitTwoOfFour` | heritrix-addons/src/test/java/is/landsbokasafn/crawler/frontier/HostnameQueueAssignmentPolicyWithLimitsTest.java:16-19 | `www.subdomain.example.com` with limit 2 is `example.com` |
| `HostnameQueueKeys.LimitThreeOfFive` | heritrix-addons/src/test/java/is/landsbokasafn/crawler/frontier/HostnameQueueAssignmentPolicyWithLimitsTest.java:28-30 | `another.www.subdomain.example.com` with limit 3 is `subdomain.example.com` |
| `HostnameQueueKeys.LimitThreeOfThree` | heritrix-addons/src/test/java/is/landsbokasafn/crawler/frontier/HostnameQueueAssignmentPolicyWithLimitsTest.java:16 | A name with no more labels than the limit is kept |
| `SurtQueueKeys.LimitedSurtAuthority` | heritrix-addons/src/main/java/is/landsbokasafn/crawler/frontier/SurtAuthorityQueueAssignmentPolicyWithLimits.java:52-75 | Definition of `getLimitedSurtAuthority`: a non-positive limit, or one at least the number of comma components of the part before `#`, keeps the SURT; otherwise the first `limit` components, each followed by a comma, then the port part. Properties in the `SurtQueueKeys` lemmas below |
| `SurtQueueKeys.CoreKey` | heritrix-addons/src/main/java/is/landsbokasafn/crawler/frontier/SurtAuthorityQueueAssignmentPolicyWithLimits.java:46-50 | Definition of `getCoreKey`: the parent policy's key passed through the configured limit. Partner: `SurtQueueKeys.DefaultKeepsParentKey` |
| `SurtQueueKeys.DomainPart` | heritrix-addons/src/main/java/is/landsbokasafn/crawler/frontier/SurtAuthorityQueueAssignmentPolicyWithLimits.java:56-62 | The domain part is a `#`-free prefix of the SURT |
| `SurtQueueKeys.PortPart` | heritrix-addons/src/main/java/is/landsbokasafn/crawler/frontier/SurtAuthorityQueueAssignmentPolicyWithLimits.java:56-62 | The port part is empty or starts with `#`, and the domain part followed by it rebuilds the SURT |
| `SurtQueueKeys.LimitedSurtShape` | heritrix-addons/src/main/java/is/landsbokasafn/crawler/frontier/SurtAuthorityQueueAssignmentPolicyWithLimits.java:52-75 | Without truncation the SURT is unchanged. With truncation, the result is a comma-ending prefix of the domain part holding exactly the first `limit` components, then the port part |
| `SurtQueueKeys.LimitedSurtKeepsPort` | heritrix-addons/src/main/java/is/landsbokasafn/crawler/frontier/SurtAuthorityQueueAssignmentPolicyWithLimits.java:56-74 | The result's port part is always the input's port part |
| `SurtQueueKeys.LimitedSurtIdempotent` | heritrix-addons/src/main/java/is/landsbokasafn/crawler/frontier/SurtAuthorityQueueAssignmentPolicyWithLimits.java:63-74 | Re-limiting the result with the same limit changes nothing |
| `SurtQueueKeys.DefaultKeepsParentKey` | heritrix-addons/src/main/java/is/landsbokasafn/crawler/frontier/SurtAuthorityQueueAssignmentPolicyWithLimits.java:22-24 | The default limit -1 keys every host by its full parent key |
| `SurtQueueKeys.FirstTwoOfFour` | heritrix-addons/src/main/java/is/landsbokasafn/crawler/frontier/SurtAuthorityQueueAssignmentPolicyWithLimits.java:28-35 | `a,b,c,d,` plus a port part, limited to 2, is `a,b,` plus the same port part |
| `SurtQueueKeys.LimitTwoOfFour` | heritrix-addons/src/main/java/is/landsbokasafn/crawler/frontier/SurtAuthorityQueueAssignmentPolicyWithLimits.java:28-33 | `com,example,subdomain,www,` limited to 2 is `com,example,` |
| `SurtQueueKeys.LimitTwoOfFourWithPort` | heritrix-addons/src/main/java/is/landsbokasafn/crawler/frontier/SurtAuthorityQueueAssignmentPolicyWithLimits.java:35 | `com,example,subdomain,www,#443` limited to 2 is `com,example,#443` |
| `RegexListRule.Add` | heritrix-addons/src/main/java/is/landsbokasafn/crawler/deciderules/MatchesListRegexDecideRule.java:93-102 | Definition of `add`: nothing happens when the text is present; otherwise the compiled pattern is appended with a zero count, or compilation fails. Properties in `RegexListLemmas.AddOutcome`, `AddKeepsNoDuplicates` and `AddIdempotent` |
| `RegexListRule.Remove` | heritrix-addons/src/main/java/is/landsbokasafn/crawler/deciderules/MatchesListRegexDecideRule.java:104-110 | Definition of `remove`: every entry with that text is dropped. Properties in `RegexListLemmas.RemoveLeavesNone`, `RemoveUndoesAdd` and `RemoveIdempotent` |
| `RegexListRule.Count` | heritrix-addons/src/main/java/is/landsbokasafn/crawler/deciderules/MatchesListRegexDecideRule.java:187-193 | Counting a hit raises that entry's counter by one and changes no text, order or other counter |
| `RegexListRule.GetList` | heritrix-addons/src/main/java/is/landsbokasafn/crawler/deciderules/MatchesListRegexDecideRule.java:112-119 | Definition of `getList`: each pattern text followed by a newline. Partner: `RegexListLemmas.ListReadsBack` |
| `RegexListRule.GetReport` | heritrix-addons/src/main/java/is/landsbokasafn/crawler/deciderules/MatchesListRegexDecideRule.java:195-207 | Definition of `getReport`: per pattern, its text, a tab, its hit count and a newline. Partners: `RegexListLemmas.ReportReadsBack` and `NewPatternReportsZero` |
| `RegexListRule.AddLines` | heritrix-addons/src/main/java/is/landsbokasafn/crawler/deciderules/MatchesListRegexDecideRule.java:128-137 | Definition of the import loop: source lines in order, each skipped when it is a comment or blank or does not compile, otherwise added. Partners: `RegexListLemmas.AddLinesAppends`, `AddLinesPresent` and `AddLinesNoDuplicates` |
| `RegexListRule.Import` | heritrix-addons/src/main/java/is/landsbokasafn/crawler/deciderules/MatchesListRegexDecideRule.java:121-141 | Definition of `importRegexes`: no source fails before reading; otherwise every delivered line is handled and a read failure is reported afterwards. Partner: `RegexListLemmas.EventImports` |
| `RegexListRule.OnEvent` | heritrix-addons/src/main/java/is/landsbokasafn/crawler/deciderules/MatchesListRegexDecideRule.java:83-91 | Definition of `onApplicationEvent`: only a change to the preparing state imports. Partner: `RegexListLemmas.EventImports` |
| `RegexListRule.Without` | heritrix-addons/src/main/java/is/landsbokasafn/crawler/deciderules/MatchesListRegexDecideRule.java:104-110 | Removal keeps exactly the entries with another text |
| `RegexListRule.Evaluate` | heritrix-addons/src/main/java/is/landsbokasafn/crawler/deciderules/MatchesListRegexDecideRule.java:148-193 | The verdict is false on an empty list. Under OR it is true iff some pattern fully matches; under AND, true iff every one does. The deciding pattern gains one hit and no other counter moves |
| `RegexListRule.DeciderUnique` | heritrix-addons/src/main/java/is/landsbokasafn/crawler/deciderules/MatchesListRegexDecideRule.java:165-177 | At most one pattern decides an evaluation: the first match under OR, the first non-match under AND |
| `RegexListLemmas.AddOutcome` | heritrix-addons/src/main/java/is/landsbokasafn/crawler/deciderules/MatchesListRegexDecideRule.java:93-102 | `add` fails only for a new text that does not compile. Otherwise the text is present afterwards, earlier entries keep their place and counts, and at most one fresh entry is appended |
| `RegexListLemmas.AddKeepsNoDuplicates` | heritrix-addons/src/main/java/is/landsbokasafn/crawler/deciderules/MatchesListRegexDecideRule.java:93-102 | `add` never creates a second entry with the same text |
| `RegexListLemmas.AddIdempotent` | heritrix-addons/src/main/java/is/landsbokasafn/crawler/deciderules/MatchesListRegexDecideRule.java:93-102 | Adding a text twice is adding it once |
| `RegexListLemmas.RemoveLeavesNone` | heritrix-addons/src/main/java/is/landsbokasafn/crawler/deciderules/MatchesListRegexDecideRule.java:104-110 | After `remove(r)`, no entry has text `r` and every other entry remains |
| `RegexListLemmas.WithoutAppend` | heritrix-addons/src/main/java/is/landsbokasafn/crawler/deciderules/MatchesListRegexDecideRule.java:104-110 | Removal keeps the relative order of the remaining entries |
| `RegexListLemmas.RemoveUndoesAdd` | heritrix-addons/src/main/java/is/landsbokasafn/crawler/deciderules/MatchesListRegexDecideRule.java:93-110 | Removing a text that was just added restores the rule |
| `RegexListLemmas.RemoveIdempotent` | heritrix-addons/src/main/java/is/landsbokasafn/crawler/deciderules/MatchesListRegexDecideRule.java:104-110 | Removing twice is removing once |
| `RegexListLemmas.EvaluateCountsOnce` | heritrix-addons/src/main/java/is/landsbokasafn/crawler/deciderules/MatchesListRegexDecideRule.java:187-193 | Counters never go down, and each rises by at most one per evaluation |
| `RegexListLemmas.NoDeciderWhenModeFails` | heritrix-addons/src/main/java/is/landsbokasafn/crawler/deciderules/MatchesListRegexDecideRule.java:165-184 | An OR miss and an AND full match leave every counter unchanged |
| `RegexListLemmas.AddLinesAppends` | heritrix-addons/src/main/java/is/landsbokasafn/crawler/deciderules/MatchesListRegexDecideRule.java:128-137 | An import keeps earlier entries and counts. It appends only fresh entries from importable source lines that compile and are new |
| `RegexListLemmas.AddLinesPresent` | heritrix-addons/src/main/java/is/landsbokasafn/crawler/deciderules/MatchesListRegexDecideRule.java:128-137 | After an import, every importable source line that compiles is in the list |
| `RegexListLemmas.AddLinesNoDuplicates` | heritrix-addons/src/main/java/is/landsbokasafn/crawler/deciderules/MatchesListRegexDecideRule.java:121-141 | Imports never introduce duplicate texts |
| `RegexListLemmas.EventImports` | heritrix-addons/src/main/java/is/landsbokasafn/crawler/deciderules/MatchesListRegexDecideRule.java:83-91 | Only entering the preparing state imports. Every other event changes nothing |
| `RegexListLemmas.ListReadsBack` | heritrix-addons/src/main/java/is/landsbokasafn/crawler/deciderules/MatchesListRegexDecideRule.java:112-119 | The listing splits back into the pattern texts, in list order |
| `RegexListLemmas.ReportReadsBack` | heritrix-addons/src/main/java/is/landsbokasafn/crawler/deciderules/MatchesListRegexDecideRule.java:195-207 | The report reads back as the entries, with texts and hit counts in list order |
| `RegexListLemmas.NewPatternReportsZero` | heritrix-addons/src/main/java/is/landsbokasafn/crawler/deciderules/MatchesListRegexDecideRule.java:93-102 | A newly added pattern starts at 0 hits and reports `text<TAB>0` |
| `RegexListLemmas.EvaluateSeries` | heritrix-addons/src/main/java/is/landsbokasafn/crawler/deciderules/MatchesListRegexDecideRule.java:148-207 | Over any sequence of evaluations the list, its texts and its mode are unchanged, and each counter rises by exactly the number of evaluations its pattern decided. A pattern that decides none keeps its count, so one that started at 0 still reports 0 hits |
| `RegexListLemmas.NoDecisions` | heritrix-addons/src/main/java/is/landsbokasafn/crawler/deciderules/MatchesListRegexDecideRule.java:165-193 | A pattern decided none of a sequence of evaluations iff it is the decider of none of them |
| `ExtractorJs.IsStrictMatch` | heritrix-addons/src/main/java/is/landsbokasafn/crawler/extractors/ExtractorJS.java:135-140 | Definition of `isStrictMatch`: everything passes unless strict, and then exactly the `http://` and `https://` links. Partner: `ExtractorJs.StrictPassesAbsolute` |
| `ExtractorJs.ShouldIgnore` | heritrix-addons/src/main/java/is/landsbokasafn/crawler/extractors/ExtractorJS.java:142-169 | Definition of `shouldIgnorePossibleRelativeLink`: absolute links are kept; a suspicious relative one is ignored; otherwise it is ignored iff a compiled reject pattern matches; the list unset throws. Partners: `ExtractorJs.AbsoluteKept`, `IgnoreVerdict` and `IgnoreAfterSet` |
| `ExtractorJs.SetRejectList` | heritrix-addons/src/main/java/is/landsbokasafn/crawler/extractors/ExtractorJS.java:70-76 | Definition of `setRejectRelativeMatchingRegexList`: the texts are replaced and compiled in order into a fresh list, stopping at the first that fails. Partner: `ExtractorJs.SetRejectListOneToOne` |
| `ExtractorJs.AddRejectPattern` | heritrix-addons/src/main/java/is/landsbokasafn/crawler/extractors/ExtractorJS.java:77-79 | Definition of `addRejectRelativeMatchingRegex`: the compiled pattern is appended to the compiled list only. Partner: `ExtractorJs.AddRejectPatternAppends` |
| `ExtractorJs.SetIgnoreSet` | heritrix-addons/src/main/java/is/landsbokasafn/crawler/extractors/ExtractorJS.java:91-94 | Definition of `setRejectRelativeIgnoreList`: the ignore set is replaced. Partner: `ExtractorJs.SetIgnoreSetReplaces` |
| `ExtractorJs.AddIgnore` | heritrix-addons/src/main/java/is/landsbokasafn/crawler/extractors/ExtractorJS.java:95-97 | Definition of `addRejectRelativeIgnoreList`: one more literal is ignored. Partner: `ExtractorJs.AddIgnoreIdempotent` |
| `ExtractorJs.StrictPassesAbsolute` | heritrix-addons/src/main/java/is/landsbokasafn/crawler/extractors/ExtractorJS.java:135-140 | A new extractor passes everything. A strict one passes exactly the absolute links, and the relative-link filter keeps those |
| `ExtractorJs.AbsoluteKept` | heritrix-addons/src/main/java/is/landsbokasafn/crawler/extractors/ExtractorJS.java:143-146 | An absolute candidate is never ignored and the counter is unchanged |
| `ExtractorJs.IgnoreVerdict` | heritrix-addons/src/main/java/is/landsbokasafn/crawler/extractors/ExtractorJS.java:142-169 | A relative candidate is ignored iff it looks suspicious or a compiled reject pattern matches. Each ignore counts one false positive, and nothing else changes. The only failure is reaching the loop before the list is set |
| `ExtractorJs.SetRejectListOneToOne` | heritrix-addons/src/main/java/is/landsbokasafn/crawler/extractors/ExtractorJS.java:70-76 | Setting the reject list succeeds iff all patterns compile. The compiled list then holds exactly those patterns, in order |
| `ExtractorJs.IgnoreAfterSet` | heritrix-addons/src/main/java/is/landsbokasafn/crawler/extractors/ExtractorJS.java:160-166 | After the list is set, an unsuspicious relative candidate is ignored iff one of its patterns matches |
| `ExtractorJs.AddRejectPatternAppends` | heritrix-addons/src/main/java/is/landsbokasafn/crawler/extractors/ExtractorJS.java:77-79 | Adding a pattern appends it to the compiled list only |
| `ExtractorJs.AddIgnoreIdempotent` | heritrix-addons/src/main/java/is/landsbokasafn/crawler/extractors/ExtractorJS.java:95-97 | Adding an ignore literal twice is adding it once, and the literal is then ignored |
| `ExtractorJs.SetIgnoreSetReplaces` | heritrix-addons/src/main/java/is/landsbokasafn/crawler/extractors/ExtractorJS.java:91-94 | Setting the ignore set forgets the earlier one |
| `SurtPrefixes.KeptLines` | heritrix-addons/src/main/java/is/landsbokasafn/crawler/spring/ExtSourceSurtPrefixesSheetAssociation.java:58-64 | Only non-comment, non-empty source lines come through, and every such line does |
| `SurtPrefixes.GetSurtPrefixes` | heritrix-addons/src/main/java/is/landsbokasafn/crawler/spring/ExtSourceSurtPrefixesSheetAssociation.java:53-78 | Definition of `getSurtPrefixes`: a missing source or a failed read is an error; otherwise the kept source lines followed by the configured prefixes. Partners: `SurtPrefixes.KeptLines` and `KeptLinesAppend` |
| `SurtPrefixes.KeptLinesAppend` | heritrix-addons/src/main/java/is/landsbokasafn/crawler/spring/ExtSourceSurtPrefixesSheetAssociation.java:58-64 | Filtering keeps source order and merges nothing |
| `SurtPrefixes.RepeatsRetained` | heritrix-addons/src/main/java/is/landsbokasafn/crawler/spring/ExtSourceSurtPrefixesSheetAssociation.java:62 | Repeated lines are all kept |
| `SurtPrefixes.SingleLine` | heritrix-addons/src/main/java/is/landsbokasafn/crawler/spring/ExtSourceSurtPrefixesSheetAssociation.java:60 | A whitespace-only line is kept and the empty line is dropped |
| `SurtPrefixes.BlankLineDiffers` | heritrix-addons/src/main/java/is/landsbokasafn/crawler/spring/ExtSourceSurtPrefixesSheetAssociation.java:60 | A whitespace-only line is a SURT prefix but is skipped by the regex importer |
| `HostAddress.GetHostAddress` | heritrix-addons/src/main/java/is/landsbokasafn/crawler/deciderules/IpAddressSetDecideRule.java:111-133 | Definition of `getHostAddress`: the stashed server IP if there is one, else the address of the cached host; unknown (`null`) for no host, a host without an address, or a failed lookup. Its partners are the `IpRules` lemmas below |
| `HostAddress.StashedAddressWins` | heritrix-addons/src/main/java/is/landsbokasafn/crawler/deciderules/IpAddressCidrSetDecideRule.java:120-142 | Once an address is stashed, the cache is irrelevant |
| `IpAddressSet.SetIsUnion` | heritrix-addons/src/main/java/is/landsbokasafn/crawler/deciderules/IpAddressSetDecideRule.java:66-71 | Configuring discards the old set. The new set is the union of the entries' contributions |
| `IpAddressSet.OrderInsensitive` | heritrix-addons/src/main/java/is/landsbokasafn/crawler/deciderules/IpAddressSetDecideRule.java:66-71 | The order of the entries does not matter |
| `IpAddressSet.AddProperties` | heritrix-addons/src/main/java/is/landsbokasafn/crawler/deciderules/IpAddressSetDecideRule.java:73-86 | Adding is idempotent and order-insensitive. A plain entry is then present verbatim. A CIDR entry whose expansion throws changes nothing |
| `IpAddressSet.IsCidrShaped` | heritrix-addons/src/main/java/is/landsbokasafn/crawler/deciderules/IpAddressSetDecideRule.java:74 | Definition of the CIDR full-match test. `IpAddressSet.CidrShapeIff` proves it means the regex |
| `IpAddressSet.AddIpAddress` | heritrix-addons/src/main/java/is/landsbokasafn/crawler/deciderules/IpAddressSetDecideRule.java:73-86 | Definition of `addIpAddress`: a CIDR-shaped entry adds its expansion, or nothing when expansion throws; any other entry adds itself; before the set exists a plain entry throws. Properties in `IpAddressSet.AddProperties` |
| `IpAddressSet.SetIpAddresses` | heritrix-addons/src/main/java/is/landsbokasafn/crawler/deciderules/IpAddressSetDecideRule.java:66-71 | Definition of `setIpAddresses`: a fresh set, with every entry added in iteration order. Properties in `IpAddressSet.SetIsUnion` and `IpAddressSet.OrderInsensitive` |
| `IpAddressSet.Evaluate` | heritrix-addons/src/main/java/is/landsbokasafn/crawler/deciderules/IpAddressSetDecideRule.java:88-92 | Definition of `evaluate`: an unknown address is refused, a known one is accepted iff it is in the set. Partner: `IpRules.SetRuleVerdict` |
| `IpAddressSet.CidrShapeIff` | heritrix-addons/src/main/java/is/landsbokasafn/crawler/deciderules/IpAddressSetDecideRule.java:74 | An entry passes the CIDR test iff it is four 1-3 digit groups joined by dots, a slash, and 1-2 digits |
| `IpAddressSet.CidrShapeBuilt` | heritrix-addons/src/main/java/is/landsbokasafn/crawler/deciderules/IpAddressSetDecideRule.java:74 | Four 1-3 digit groups joined by dots, a slash and 1-2 digits always pass the CIDR test |
| `IpAddressSet.CidrShapeParts` | heritrix-addons/src/main/java/is/landsbokasafn/crawler/deciderules/IpAddressSetDecideRule.java:74 | An entry that passes the CIDR test is its four dot groups joined back, a slash, and its prefix length |
| `Sequences.PrefixWhile` | heritrix-addons/src/main/java/is/landsbokasafn/crawler/deciderules/IpAddressCidrSetDecideRule.java:76-84 | Where a loop that stops at the first failure stops: every earlier member passes and the one there fails. Parsing the ranges and compiling the reject patterns both stop this way |
| `Sequences.AnyOf` | heritrix-addons/src/main/java/is/landsbokasafn/crawler/deciderules/IpAddressCidrSetDecideRule.java:94-98 | A loop that returns on its first hit reports a hit iff some member passes. The range loop and the reject-pattern loop are both this search |
| `IpCidrSet.GetSubnetInfos` | heritrix-addons/src/main/java/is/landsbokasafn/crawler/deciderules/IpAddressCidrSetDecideRule.java:76-84 | Definition of `getSubnetInfos`: a built cache is returned as it is; otherwise the ranges are parsed in order into a new cache, and the first that fails to parse throws with the earlier ones cached. Properties in `IpCidrSet.BuiltOnce`, `IpCidrSet.BadRangeLeavesPartialCache` and `IpCidrSet.UnsetLeavesEmptyCache` |
| `IpCidrSet.Evaluate` | heritrix-addons/src/main/java/is/landsbokasafn/crawler/deciderules/IpAddressCidrSetDecideRule.java:86-101 | Definition of `evaluate`: an unknown address is accepted, a known one is accepted iff one of the cached ranges contains it. Partners: `IpCidrSet.EvaluateAfterSet` and `IpRules.CidrRuleVerdict` |
| `IpCidrSet.BuiltOnce` | heritrix-addons/src/main/java/is/landsbokasafn/crawler/deciderules/IpAddressCidrSetDecideRule.java:76-84 | The cache is built once, one entry per configured range in order, and later evaluations leave it alone |
| `IpCidrSet.EvaluateAfterSet` | heritrix-addons/src/main/java/is/landsbokasafn/crawler/deciderules/IpAddressCidrSetDecideRule.java:71-101 | Setting the ranges drops the parsed cache, so the next evaluation judges by the new ranges: when they all parse, a known address is accepted iff one of them contains it, and an unknown one is accepted |
| `IpCidrSet.UnknownAccepted` | heritrix-addons/src/main/java/is/landsbokasafn/crawler/deciderules/IpAddressCidrSetDecideRule.java:90-92 | An unknown address is accepted and nothing is built |
| `IpCidrSet.EmptyRefusesKnown` | heritrix-addons/src/main/java/is/landsbokasafn/crawler/deciderules/IpAddressCidrSetDecideRule.java:94-100 | With no ranges, every known address is refused |
| `IpCidrSet.RangeOrderIrrelevant` | heritrix-addons/src/main/java/is/landsbokasafn/crawler/deciderules/IpAddressCidrSetDecideRule.java:94-98 | The verdict does not depend on the order of the ranges or on repeats |
| `IpCidrSet.MoreRangesAcceptMore` | heritrix-addons/src/main/java/is/landsbokasafn/crawler/deciderules/IpAddressCidrSetDecideRule.java:94-98 | Adding a range never turns acceptance into refusal |
| `IpCidrSet.BadRangeLeavesPartialCache` | heritrix-addons/src/main/java/is/landsbokasafn/crawler/deciderules/IpAddressCidrSetDecideRule.java:76-84 | An unparsable range makes the first evaluation throw. The cache keeps only the ranges before it, and those alone decide later evaluations |
| `IpCidrSet.UnsetLeavesEmptyCache` | heritrix-addons/src/main/java/is/landsbokasafn/crawler/deciderules/IpAddressCidrSetDecideRule.java:76-84 | Reading unset ranges throws once and leaves an empty cache, which refuses later known addresses |
| `IpRules.SetRuleVerdict` | heritrix-addons/src/main/java/is/landsbokasafn/crawler/deciderules/IpAddressSetDecideRule.java:88-133 | Through the host lookup, a freshly configured address set accepts a URI iff its address is known and some entry contributes that address |
| `IpRules.CidrRuleVerdict` | heritrix-addons/src/main/java/is/landsbokasafn/crawler/deciderules/IpAddressCidrSetDecideRule.java:86-142 | Through the host lookup, a range rule whose ranges all parse accepts a URI iff its address is unknown or lies in one of the ranges |
| `IpRules.UnknownAddressOpposite` | heritrix-addons/src/main/java/is/landsbokasafn/crawler/deciderules/IpAddressCidrSetDecideRule.java:88-92 | With nothing stashed and no address in the cache, the address-set rule refuses and the range rule accepts without building its cache, whatever their configuration |
| `ElapsedTime.FormatElapsed` | heritrix-addons/src/main/java/is/landsbokasafn/crawler/reporting/LbsStatisticsTracker.java:98-104 | Every duration below 1000 ms, negative ones included, formats as `00s` |
| `ElapsedTime.LoopMatchesReference` | heritrix-addons/src/main/java/is/landsbokasafn/crawler/reporting/LbsStatisticsTracker.java:106-116 | The loop's fields equal those that the duration's remainders call for directly |
| `ElapsedTime.FieldsFrom` | heritrix-addons/src/main/java/is/landsbokasafn/crawler/reporting/LbsStatisticsTracker.java:106-116 | Definition of the loop over the units: a field for each unit the time left reaches, holding the whole units, the remainder going on. Properties in the `ElapsedTime.Fields*` lemmas below |
| `ElapsedTime.FieldsArePicked` | heritrix-addons/src/main/java/is/landsbokasafn/crawler/reporting/LbsStatisticsTracker.java:106-116 | The loop writes exactly the fields picked by the units the duration reaches, with the whole units left at each |
| `ElapsedTime.FieldsOrdered` | heritrix-addons/src/main/java/is/landsbokasafn/crawler/reporting/LbsStatisticsTracker.java:106-116 | The fields come in the order d, h, m, s, and no unit is written twice |
| `ElapsedTime.FieldsPresent` | heritrix-addons/src/main/java/is/landsbokasafn/crawler/reporting/LbsStatisticsTracker.java:108-114 | A unit is written iff the time left at its step reaches one of it |
| `ElapsedTime.FieldsValues` | heritrix-addons/src/main/java/is/landsbokasafn/crawler/reporting/LbsStatisticsTracker.java:109-111 | Each field holds the whole units left at its step |
| `ElapsedTime.FieldsTotal` | heritrix-addons/src/main/java/is/landsbokasafn/crawler/reporting/LbsStatisticsTracker.java:106-116 | The fields add up to the duration rounded down to whole seconds |
| `ElapsedTime.FieldsNonEmpty` | heritrix-addons/src/main/java/is/landsbokasafn/crawler/reporting/LbsStatisticsTracker.java:106-116 | A duration of at least a second writes at least one field |
| `ElapsedTime.FieldWidths` | heritrix-addons/src/main/java/is/landsbokasafn/crawler/reporting/LbsStatisticsTracker.java:107-112 | Days are written as unpadded decimal. Hours, minutes and seconds are below 60 and written as exactly two digits |
| `ElapsedTime.FormatReadsBack` | heritrix-addons/src/main/java/is/landsbokasafn/crawler/reporting/LbsStatisticsTracker.java:97-118 | Parsing the text back gives the duration rounded down to whole seconds, or 0 for a negative one |
| `ElapsedTime.EndsInUnitLetter` | heritrix-addons/src/main/java/is/landsbokasafn/crawler/reporting/LbsStatisticsTracker.java:110-117 | For 1000 ms and more, the text is non-empty and ends in a unit letter |
| `ElapsedTime.HourAndSecond` | heritrix-addons/src/main/java/is/landsbokasafn/crawler/reporting/LbsStatisticsTracker.java:106-116 | 3 601 000 ms formats as `01h01s` |
| `Decimal.ZeroPaddedRoundTrip` | heritrix-addons/src/main/java/is/landsbokasafn/crawler/reporting/LbsStatisticsTracker.java:107-112 | A zero-padded number reads back as itself and is at least as wide as asked |
| `StatisticsTracker.LogsProgress` | heritrix-addons/src/main/java/is/landsbokasafn/crawler/reporting/LbsStatisticsTracker.java:50-54 | Definition of the gate: a controller exists and is not nascent, finished, paused or preparing. Partner: `StatisticsTracker.GateOutcome` |
| `StatisticsTracker.TrimToKeep` | heritrix-addons/src/main/java/is/landsbokasafn/crawler/reporting/LbsStatisticsTracker.java:58-60 | Definition of the trimming loop: drop from the back while more than `keep` remain; removing from an empty list throws. Partner: `StatisticsTracker.TrimKeepsNewest` |
| `StatisticsTracker.ProgressEvent` | heritrix-addons/src/main/java/is/landsbokasafn/crawler/reporting/LbsStatisticsTracker.java:47-60 | Definition of `progressStatisticsEvent`: the gate, then the snapshot put first and the history trimmed. Partner: `StatisticsTracker.HistoryAfterEvent` |
| `StatisticsTracker.GateOutcome` | heritrix-addons/src/main/java/is/landsbokasafn/crawler/reporting/LbsStatisticsTracker.java:50-56 | A line is written iff a controller exists and is not nascent, finished, paused or preparing |
| `StatisticsTracker.TrimKeepsNewest` | heritrix-addons/src/main/java/is/landsbokasafn/crawler/reporting/LbsStatisticsTracker.java:58-60 | Trimming keeps the newest `keep` entries. It throws only for a negative keep count |
| `StatisticsTracker.HistoryAfterEvent` | heritrix-addons/src/main/java/is/landsbokasafn/crawler/reporting/LbsStatisticsTracker.java:57-60 | After the event, the history holds at most `keep` snapshots: the new one first, then the newest earlier ones in order |
| `LowDiskPause.IsLow` | heritrix-addons/src/main/java/is/landsbokasafn/crawler/processors/LowDiskPauseProcessor.java:125-128 | Definition of the low test: the usable bytes divided by 1024, truncating, are below the pause threshold in KiB. Partners: `LowDiskPause.FirstLow` and `LowDiskPause.CheckAvailableSpace` |
| `LowDiskPause.FirstLow` | heritrix-addons/src/main/java/is/landsbokasafn/crawler/processors/LowDiskPauseProcessor.java:121-135 | This is the position of the first mount in list order below the pause threshold, if any |
| `LowDiskPause.Record` | heritrix-addons/src/main/java/is/landsbokasafn/crawler/processors/LowDiskPauseProcessor.java:126 | Every read mount gets its reading recorded, and the records of other mounts are unchanged |
| `LowDiskPause.CheckAvailableSpace` | heritrix-addons/src/main/java/is/landsbokasafn/crawler/processors/LowDiskPauseProcessor.java:120-138 | The check proceeds, and requests a pause iff some mount is low. Readings are recorded up to and including the first low mount |
| `LowDiskPause.ProcessUri` | heritrix-addons/src/main/java/is/landsbokasafn/crawler/processors/LowDiskPauseProcessor.java:101-112 | Every URI proceeds. The tally adds the content size with 32-bit wrap. Past the recheck threshold a check runs and the tally resets to 0; otherwise the tally is kept and no pause is requested |
| `LowDiskPause.Initialize` | heritrix-addons/src/main/java/is/landsbokasafn/crawler/processors/LowDiskPauseProcessor.java:76-80 | One check runs at start-up |
| `LowDiskPause.CheckRecords` | heritrix-addons/src/main/java/is/landsbokasafn/crawler/processors/LowDiskPauseProcessor.java:122-134 | A check records mounts up to the first low one and leaves later mounts' records untouched |
| `LowDiskPause.TallyWraps` | heritrix-addons/src/main/java/is/landsbokasafn/crawler/processors/LowDiskPauseProcessor.java:101-106 | A tally sum from 2^31 up to 2^32 bytes wraps to a negative `int`, so no check runs under a non-negative threshold. At exactly 2^31 bytes the wrapped KiB value is -2097152, and a check runs iff the threshold is below that |
| `LowDiskPause.DefaultRecheck` | heritrix-addons/src/main/java/is/landsbokasafn/crawler/processors/LowDiskPauseProcessor.java:66 | With the default 200 MiB, a check runs once the tally reaches 200 MiB plus 1 KiB |
| `LostConnection.OnEvent` | heritrix-addons/src/main/java/is/landsbokasafn/crawler/processors/LostConnectionMonitor.java:36-52 | Definition of `onApplicationEvent`: non-HTTP events are ignored; an HTTP one records a success when it is the first or has a positive status, then pauses iff the last success plus the timeout lies before now. Partners: `LostConnection.SuccessNeverPauses`, `StrictBoundary` and `NoLatch` |
| `LostConnection.IgnoredEvents` | heritrix-addons/src/main/java/is/landsbokasafn/crawler/processors/LostConnectionMonitor.java:39-42 | Non-HTTP events change nothing and request no pause |
| `LostConnection.SuccessNeverPauses` | heritrix-addons/src/main/java/is/landsbokasafn/crawler/processors/LostConnectionMonitor.java:43-46 | With a non-negative timeout, a success never pauses in the same step |
| `LostConnection.StrictBoundary` | heritrix-addons/src/main/java/is/landsbokasafn/crawler/processors/LostConnectionMonitor.java:46 | There is no pause exactly at the timeout boundary; there is one a millisecond later |
| `LostConnection.NoLatch` | heritrix-addons/src/main/java/is/landsbokasafn/crawler/processors/LostConnectionMonitor.java:46-50 | Past the timeout, every later failing HTTP event pauses again |

## Left out

- Regex engine: `java.util.regex` compilation and matching are unseen library code. They
  are function parameters (`Compiles`, `FullMatch`, `CaseInsensitiveMatch`), and a
  compiled pattern is known by its text.
- Subnet library: Apache commons-net `SubnetUtils` (range parsing, containment,
  `getAllAddresses`) is unseen library code. It is the parameters `Parses`, `InRange`
  and `Expand`, so whether network and broadcast addresses count is not stated.
- Environment inputs are parameters:
  - the server cache lookup behind `getHostAddress`;
  - `File.getUsableSpace` readings;
  - the clock, with the monitor's two clock reads taken as one `now`;
  - the lines a `ReadSource` reader delivers;
  - the crawl controller's pause request, which is an output flag.
- Logging: not modelled, since it has no effect on the state.
- Concurrency: `synchronized` blocks, the `CopyOnWriteArrayList` and the check-then-put
  race on the hit-counter map are not modelled. Everything is sequential.
- Hit counters: the counter lives in the list entry instead of in a map keyed by the
  `Pattern` object. This is equivalent, because a removed pattern object never returns
  to the list and the report reads only patterns in the list.
- RegexListRule.Count: the hit counter is a 32-bit `AtomicInteger`, which wraps to
  -2^31 after 2^31 - 1 hits, so `getReport` would then print a negative count. The
  model's counter is a `nat` that never wraps, and its report shows the true count.
- Crawl-controller states: only the states the components name are distinguished. The
  rest are `Other`, since the controller's state enum is not part of this model.
- `ExtractorJS.considerString` and `ExtractorJS.report`: they depend on helpers outside
  this model (`unescapeJavaScript`, `UriUtils.speculativeFixup`, `isVeryLikelyUri`, the
  link-adding calls).
- `LbsStatisticsTracker`: `getProgressStatisticsLine`, `logNote`, taking the snapshot,
  event publishing and the DNS cache clear are not modelled. They are runtime state,
  floating-point formatting or side effects; a snapshot is any value.
- `LowDiskPauseProcessor.report`: reporting text only.
- Getters and setters that only store or return a field: the limits, the mode, the
  sources, `getIpAddresses`, `getMonitorMounts` and the like. They are record fields.
- String lengths are counted in characters, not UTF-16 code units. This matters only
  for the 150-character limit in `ExtractorJS`, on text outside the Basic Multilingual
  Plane.
- ExtractorJs.CountFalsePositive: the false-positive counter is a Java `long`, which
  wraps after 2^63 - 1 increments. The model's counter is a `nat` and does not wrap.
- ElapsedTime.FormatElapsed: `String.format` is called without a `Locale`, so `%d` and
  `%02d` write digits in the JVM default locale's zero digit (Arabic-Indic digits under
  `ar-EG`, for example). The model writes ASCII `0`-`9`, that is, it assumes a locale
  whose zero digit is `0`; the read-back lemmas rely on this.
- LostConnection.OnEvent: the Java `long` arithmetic of `lastSuccess + max * 60000` is
  unbounded here. The 64-bit overflow for very large timeouts is not modelled.
- The rest of the repository is framework wiring, a network prober and a history loader
  with floating-point percentages, and is not part of this model: `SheetOverlaysManager`,
  `LbsFrontierPreparer`, `LbsQueueNameLoggerProcessor`, `ListRegexFilterOutReport`,
  `HasRevisitProfileDecideRule`, `LbsContentDigestHistoryLoader` and `SiteDetector`.
