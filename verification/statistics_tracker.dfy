/** The progress-statistics event: a progress line is written only while the crawl is
    under way, and the new snapshot goes to the front of the retained history, whose
    oldest entries are dropped down to the keep count.

    Taking the snapshot, the line's contents, event publishing and the DNS cache clear
    are not modelled; a snapshot is any value of type `S`. */
module StatisticsTracker {
  import opened Wrappers
  import opened CrawlStates

  /** Whether the event writes a progress line: a controller exists and is in none of
      the four excluded states. */
  predicate LogsProgress(controller: Option<CrawlState>) {
    controller.Some? && !(controller.value in {Nascent, Preparing, Paused, Finished})
  }

  /** Dropping entries from the back while there are more than `keep`; removing from an
      empty history, which a negative `keep` comes to, throws (`None`). */
  function TrimToKeep<S>(history: seq<S>, keep: int): Option<seq<S>>
    decreases |history|
  {
    if |history| <= keep then Some(history)
    else if |history| == 0 then None
    else TrimToKeep(history[..|history| - 1], keep)
  }

  /** The outcome of one event: whether a line was written, and the history after, or
      `None` when trimming threw. */
  datatype Progress<S> = Progress(logged: bool, history: Option<seq<S>>)

  /** `progressStatisticsEvent`: the gate (`None` for a missing controller), then the new
      snapshot put first and the history trimmed. */
  function ProgressEvent<S>(history: seq<S>, snapshot: S, controller: Option<CrawlState>,
                            keep: int): Progress<S>
  {
    Progress(LogsProgress(controller), TrimToKeep([snapshot] + history, keep))
  }

  // ---------------------------------------------------------------------------
  // Lemmas

  /** Trimming keeps the newest `keep` entries, and throws only for a negative `keep`. */
  lemma {:induction false} TrimKeepsNewest<S>(history: seq<S>, keep: int)
    ensures keep < 0 ==> TrimToKeep(history, keep).None?
    ensures keep >= 0 ==>
      TrimToKeep(history, keep) == Some(history[..if keep < |history| then keep else |history|])
    decreases |history|
  {
    if |history| > keep && |history| > 0 {
      var init := history[..|history| - 1];
      TrimKeepsNewest(init, keep);
      if keep >= 0 {
        var n := if keep < |init| then keep else |init|;
        assert init[..n] == history[..n];
      }
    } else {
      assert history[..|history|] == history;
    }
  }

  /** A line is written iff a controller exists and is in none of the excluded states. */
  lemma GateOutcome<S>(history: seq<S>, snapshot: S, controller: Option<CrawlState>, keep: int)
    ensures ProgressEvent(history, snapshot, controller, keep).logged
        <==> controller.Some? && controller.value.Other?
  {
  }

  /** After the event the history holds at most `keep` entries: the new snapshot first
      when anything is kept, followed by the newest of the earlier ones in their order.
      A negative `keep` makes the event throw. */
  lemma HistoryAfterEvent<S>(history: seq<S>, snapshot: S, controller: Option<CrawlState>,
                             keep: int)
    ensures ProgressEvent(history, snapshot, controller, keep).history.None? <==> keep < 0
    ensures keep >= 0 ==>
      var h := ProgressEvent(history, snapshot, controller, keep).history.value;
      && |h| == (if keep <= |history| then keep else |history| + 1)
      && (keep >= 1 ==> h[0] == snapshot)
      && (forall k :: 1 <= k < |h| ==> h[k] == history[k - 1])
  {
    TrimKeepsNewest([snapshot] + history, keep);
  }
}
