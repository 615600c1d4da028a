/** A processor that keeps a running tally of fetched content and, each time more than
    the recheck threshold has passed through, reads the usable space of the monitored
    mounts and requests a crawl pause for the first mount found below the pause
    threshold. The file system, the crawl controller and logging are not modelled: the
    usable space of each mount is an input and the pause request an output. */
module LowDiskPause {
  import opened Wrappers
  import opened JavaText

  /** 500 MiB, in KiB. */
  const DefaultPauseThresholdKb: int := 500 * 1024

  /** 200 MiB, in KiB. */
  const DefaultRecheckThresholdKb: int := 200 * 1024

  /** The outcomes a processor can give; this one always lets the URI go on. */
  datatype ProcessResult = Proceed | Finish | Jump(chain: string)

  /** The processor's settings and state. `contentSinceCheck` is a Java `int`;
      `lastValues` maps a mount to the usable bytes last read for it. */
  datatype Processor = Processor(
    mounts: seq<string>,
    pauseThresholdKb: int,
    recheckThresholdKb: int,
    contentSinceCheck: int,
    lastValues: map<string, int>)

  /** What `File.getUsableSpace` gives for each mount at the time of a check. */
  type Usable = string -> int

  /** The mount is below the pause threshold: its usable bytes, divided by 1024 with
      Java's truncating division, are fewer than the threshold in KiB. */
  predicate IsLow(p: Processor, usable: Usable, mount: string) {
    JavaDiv(usable(mount), 1024) < p.pauseThresholdKb
  }

  /** The position of the first low mount, if any. */
  function FirstLow(p: Processor, usable: Usable): (r: Option<nat>)
    ensures r.Some? ==>
      && r.value < |p.mounts| && IsLow(p, usable, p.mounts[r.value])
      && forall j :: 0 <= j < r.value ==> !IsLow(p, usable, p.mounts[j])
    ensures r.None? ==> forall j :: 0 <= j < |p.mounts| ==> !IsLow(p, usable, p.mounts[j])
  {
    FirstLowFrom(p, usable, 0)
  }

  /** The position of the first low mount at or after `i`. */
  function FirstLowFrom(p: Processor, usable: Usable, i: nat): (r: Option<nat>)
    requires i <= |p.mounts|
    ensures r.Some? ==>
      && i <= r.value < |p.mounts| && IsLow(p, usable, p.mounts[r.value])
      && forall j :: i <= j < r.value ==> !IsLow(p, usable, p.mounts[j])
    ensures r.None? ==> forall j :: i <= j < |p.mounts| ==> !IsLow(p, usable, p.mounts[j])
    decreases |p.mounts| - i
  {
    if i == |p.mounts| then None
    else if IsLow(p, usable, p.mounts[i]) then Some(i)
    else FirstLowFrom(p, usable, i + 1)
  }

  /** The readings of the given mounts recorded over `values`, in order. */
  function Record(values: map<string, int>, mounts: seq<string>, usable: Usable): (r: map<string, int>)
    ensures forall m :: m in mounts ==> m in r && r[m] == usable(m)
    ensures forall m :: m !in mounts ==> (m in r <==> m in values) && (m in values ==> r[m] == values[m])
  {
    if |mounts| == 0 then values
    else
      var last := mounts[|mounts| - 1];
      Record(values, mounts[..|mounts| - 1], usable)[last := usable(last)]
  }

  /** How many mounts a check reads: up to and including the first low one, or all. */
  function ReadCount(p: Processor, usable: Usable): (n: nat)
    ensures n <= |p.mounts|
  {
    match FirstLow(p, usable)
    case Some(i) => i + 1
    case None => |p.mounts|
  }

  /** `checkAvailableSpace`: the mounts are read in list order, each reading recorded;
      the first low mount requests a pause and ends the check. */
  method CheckAvailableSpace(p: Processor, usable: Usable)
    returns (after: Processor, pause: bool, result: ProcessResult)
    ensures result == Proceed
    ensures pause <==> exists j :: 0 <= j < |p.mounts| && IsLow(p, usable, p.mounts[j])
    ensures after == p.(lastValues := Record(p.lastValues, p.mounts[..ReadCount(p, usable)], usable))
  {
    var values := p.lastValues;
    var i := 0;
    while i < |p.mounts|
      invariant 0 <= i <= |p.mounts|
      invariant values == Record(p.lastValues, p.mounts[..i], usable)
      invariant forall j :: 0 <= j < i ==> !IsLow(p, usable, p.mounts[j])
    {
      var mount := p.mounts[i];
      values := values[mount := usable(mount)];
      RecordStep(p.lastValues, p.mounts, i, usable);
      if JavaDiv(usable(mount), 1024) < p.pauseThresholdKb {
        NoEarlierLow(p, usable, i);
        return p.(lastValues := values), true, Proceed;
      }
      i := i + 1;
    }
    NoneLow(p, usable);
    return p.(lastValues := values), false, Proceed;
  }

  /** Recording one more mount. */
  lemma RecordStep(values: map<string, int>, mounts: seq<string>, i: nat, usable: Usable)
    requires i < |mounts|
    ensures Record(values, mounts[..i + 1], usable)
         == Record(values, mounts[..i], usable)[mounts[i] := usable(mounts[i])]
  {
    assert mounts[..i + 1][..i] == mounts[..i];
  }

  /** Which mount is the first low one does not depend on the tally. */
  lemma {:induction false} ReadsIgnoreTally(p: Processor, q: Processor, usable: Usable, i: nat)
    requires p.mounts == q.mounts && p.pauseThresholdKb == q.pauseThresholdKb
    requires i <= |p.mounts|
    ensures FirstLowFrom(p, usable, i) == FirstLowFrom(q, usable, i)
    ensures i == 0 ==> ReadCount(p, usable) == ReadCount(q, usable)
    decreases |p.mounts| - i
  {
    if i < |p.mounts| {
      ReadsIgnoreTally(p, q, usable, i + 1);
    }
  }

  /** A low mount with none before it is the first low mount: the check reads up to it. */
  lemma NoEarlierLow(p: Processor, usable: Usable, i: nat)
    requires i < |p.mounts| && IsLow(p, usable, p.mounts[i])
    requires forall j :: 0 <= j < i ==> !IsLow(p, usable, p.mounts[j])
    ensures FirstLow(p, usable) == Some(i) && ReadCount(p, usable) == i + 1
    ensures exists j :: 0 <= j < |p.mounts| && IsLow(p, usable, p.mounts[j])
  {
  }

  /** With no low mount the check reads every mount. */
  lemma NoneLow(p: Processor, usable: Usable)
    requires forall j :: 0 <= j < |p.mounts| ==> !IsLow(p, usable, p.mounts[j])
    ensures ReadCount(p, usable) == |p.mounts| && p.mounts[..ReadCount(p, usable)] == p.mounts
    ensures !exists j :: 0 <= j < |p.mounts| && IsLow(p, usable, p.mounts[j])
  {
    assert p.mounts[..|p.mounts|] == p.mounts;
  }

  /** `innerProcessResult`: the content size is added to the `int` tally, narrowing as
      Java does; once the tally in KiB exceeds the recheck threshold the space is
      checked and the tally restarts from zero. */
  method ProcessUri(p: Processor, contentSize: int, usable: Usable)
    returns (after: Processor, pause: bool, result: ProcessResult)
    ensures result == Proceed
    ensures var tally := ToInt32(p.contentSinceCheck + contentSize);
      if JavaDiv(tally, 1024) > p.recheckThresholdKb then
        && (pause <==> exists j :: 0 <= j < |p.mounts| && IsLow(p, usable, p.mounts[j]))
        && after == p.(contentSinceCheck := 0,
                       lastValues := Record(p.lastValues, p.mounts[..ReadCount(p, usable)], usable))
      else
        after == p.(contentSinceCheck := tally) && !pause
  {
    var tally := ToInt32(p.contentSinceCheck + contentSize);
    var q := p.(contentSinceCheck := tally);
    if JavaDiv(tally, 1024) > p.recheckThresholdKb {
      var checked;
      checked, pause, result := CheckAvailableSpace(q, usable);
      ReadsIgnoreTally(p, q, usable, 0);
      after := checked.(contentSinceCheck := 0);
      return;
    }
    return q, false, Proceed;
  }

  /** `afterPropertiesSet`: one reading right away. */
  method Initialize(p: Processor, usable: Usable) returns (after: Processor, pause: bool)
    ensures pause <==> exists j :: 0 <= j < |p.mounts| && IsLow(p, usable, p.mounts[j])
    ensures after == p.(lastValues := Record(p.lastValues, p.mounts[..ReadCount(p, usable)], usable))
  {
    var result;
    after, pause, result := CheckAvailableSpace(p, usable);
  }

  // ---------------------------------------------------------------------------
  // Lemmas

  /** A check records the reading of every mount up to and including the first low one
      and leaves the recorded values of every other mount as they were. */
  lemma CheckRecords(p: Processor, usable: Usable, m: string)
    ensures var read := ReadCount(p, usable);
      var values := Record(p.lastValues, p.mounts[..read], usable);
      && (m in p.mounts[..read] ==> m in values && values[m] == usable(m))
      && (m !in p.mounts[..read] ==> (m in values <==> m in p.lastValues)
                                     && (m in p.lastValues ==> values[m] == p.lastValues[m]))
  {
  }

  /** The tally wraps as a Java `int`: a sum from 2^31 up to 2^32 bytes becomes negative,
      so its KiB value is at most zero and no check runs under a non-negative threshold.
      The first wrapped value, -2^31 bytes, is -2097152 KiB, and a check then runs only
      for a threshold below that. */
  lemma TallyWraps(p: Processor, contentSize: int)
    requires TwoTo31 <= p.contentSinceCheck + contentSize < TwoTo32
    ensures var tally := ToInt32(p.contentSinceCheck + contentSize);
      && tally == p.contentSinceCheck + contentSize - TwoTo32
      && (p.recheckThresholdKb >= 0 ==> !(JavaDiv(tally, 1024) > p.recheckThresholdKb))
      && (p.contentSinceCheck + contentSize == TwoTo31 ==>
            (JavaDiv(tally, 1024) > p.recheckThresholdKb <==> p.recheckThresholdKb < -2097152))
  {
    var sum := p.contentSinceCheck + contentSize;
    assert ToInt32(sum) == sum - TwoTo32 by {
      assert (sum + TwoTo31) % TwoTo32 == sum + TwoTo31 - TwoTo32;
    }
    assert -TwoTo31 <= sum - TwoTo32 < 0;
  }

  /** With the defaults, the check runs once more than 200 MiB has passed. */
  lemma DefaultRecheck(p: Processor, contentSize: int)
    requires p.recheckThresholdKb == DefaultRecheckThresholdKb
    requires 0 <= p.contentSinceCheck && 0 <= contentSize
    requires p.contentSinceCheck + contentSize < TwoTo31
    ensures JavaDiv(ToInt32(p.contentSinceCheck + contentSize), 1024) > p.recheckThresholdKb
        <==> p.contentSinceCheck + contentSize >= (200 * 1024 + 1) * 1024
  {
  }
}
