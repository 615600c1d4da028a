/** A listener that requests a crawl pause when no HTTP fetch has succeeded for longer
    than a configured number of minutes. The clock is an input: both clock reads of one
    event are taken to give the same `now`. The pause request is an output. */
module LostConnection {

  /** The default timeout in minutes. */
  const DefaultMaxMinutes: int := 20

  /** Milliseconds per minute. */
  const MinuteMillis: int := 60 * 1000

  /** `lastSuccess` before any HTTP event has been seen. */
  const NoSuccessYet: int := -1

  /** The monitor's state: the time of the last success (or `NoSuccessYet`) and the
      timeout in minutes. */
  datatype Monitor = Monitor(lastSuccess: int, maxMinutes: int)

  const Initial: Monitor := Monitor(NoSuccessYet, DefaultMaxMinutes)

  /** The events the listener receives: a URI disposition, carrying whether the URI was
      an HTTP transaction and its fetch status, or any other application event. */
  datatype Event = Disposition(isHttp: bool, fetchStatus: int) | OtherEvent

  /** The monitor after an event and whether a pause was requested. */
  datatype Step = Step(monitor: Monitor, pause: bool)

  /** The timeout has passed: the last success plus the timeout lies strictly before
      `now`. */
  predicate TimedOut(m: Monitor, now: int) {
    m.lastSuccess + m.maxMinutes * MinuteMillis < now
  }

  /** `onApplicationEvent`: other events and non-HTTP dispositions are ignored; an HTTP
      disposition records `now` as the last success when it is the first one or has a
      positive fetch status, and then requests a pause if the timeout has passed. */
  function OnEvent(m: Monitor, event: Event, now: int): Step
  {
    match event
    case OtherEvent => Step(m, false)
    case Disposition(isHttp, status) =>
      if !isHttp then Step(m, false)
      else
        var m' := if m.lastSuccess == NoSuccessYet || status > 0 then m.(lastSuccess := now) else m;
        Step(m', TimedOut(m', now))
  }

  // ---------------------------------------------------------------------------
  // Lemmas

  /** Events other than HTTP dispositions change nothing and request no pause. */
  lemma IgnoredEvents(m: Monitor, event: Event, now: int)
    requires event.OtherEvent? || !event.isHttp
    ensures OnEvent(m, event, now) == Step(m, false)
  {
  }

  /** With a non-negative timeout, an event that records a success never requests a pause
      in the same step. */
  lemma SuccessNeverPauses(m: Monitor, status: int, now: int)
    requires m.maxMinutes >= 0
    requires m.lastSuccess == NoSuccessYet || status > 0
    ensures !OnEvent(m, Disposition(true, status), now).pause
  {
  }

  /** Exactly at the boundary no pause is requested; one millisecond later it is. */
  lemma StrictBoundary(m: Monitor, status: int)
    requires m.lastSuccess != NoSuccessYet && status <= 0
    ensures var boundary := m.lastSuccess + m.maxMinutes * MinuteMillis;
      && !OnEvent(m, Disposition(true, status), boundary).pause
      && OnEvent(m, Disposition(true, status), boundary + 1).pause
  {
  }

  /** There is no latch: once the timeout has passed, every later failing HTTP event
      requests a pause again, and leaves the monitor as it was. */
  lemma NoLatch(m: Monitor, s1: int, s2: int, now1: int, now2: int)
    requires m.lastSuccess != NoSuccessYet && s1 <= 0 && s2 <= 0
    requires now1 <= now2
    requires OnEvent(m, Disposition(true, s1), now1).pause
    ensures OnEvent(m, Disposition(true, s1), now1).monitor == m
    ensures OnEvent(m, Disposition(true, s2), now2) == Step(m, true)
  {
  }
}
