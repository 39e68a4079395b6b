/** The refresh window: how many refreshes any stretch of time can hold. */
module AuthenticationWindow {
  import opened Options
  import opened AuthenticationProtocol

  /** The uptime readings of an event, if it takes the lock and may refresh. */
  function MomentOf(e: Event): Option<Moment>
  {
    match e
    case Adapt(_, moment) => Some(moment)
    case RetryLock(_, moment) => Some(moment)
    case Run(moment) => Some(moment)
    case _ => None
  }

  /** The system uptime never goes back: not between events, nor between an event's two readings. */
  predicate Ticking(events: seq<Event>, from: real)
  {
    if events == [] then true
    else match MomentOf(events[0])
         case None => Ticking(events[1..], from)
         case Some(moment) => from <= moment.check <= moment.record && Ticking(events[1..], moment.record)
  }

  predicate Sorted(times: seq<real>)
  {
    forall i, j :: 0 <= i <= j < |times| ==> times[i] <= times[j]
  }

  /** The number of times in the closed interval. */
  function InWindow(times: seq<real>, from: real, to: real): (n: nat)
    ensures n <= |times|
  {
    if times == [] then 0
    else InWindow(times[..|times| - 1], from, to) + if from <= times[|times| - 1] <= to then 1 else 0
  }

  function Allowed(window: RefreshWindow): nat
  {
    if window.maximumAttempts < 0 then 0 else window.maximumAttempts
  }

  /** Each refresh comes more than an interval after the one `m` refreshes earlier. */
  predicate Spaced(times: seq<real>, m: nat, interval: real)
  {
    && (m == 0 ==> times == [])
    && forall i :: m <= i < |times| ==> times[i - m] < times[i] - interval
  }

  predicate WindowKept(s: State, now: real)
  {
    && Sorted(s.refreshTimestamps)
    && (forall i :: 0 <= i < |s.refreshTimestamps| ==> s.refreshTimestamps[i] <= now)
    && (s.refreshWindow.Some? ==>
          Spaced(s.refreshTimestamps, Allowed(s.refreshWindow.value), s.refreshWindow.value.interval))
  }

  lemma {:induction false} AttemptsAtLeast(times: seq<real>, since: real, m: nat)
    requires Sorted(times) && m <= |times| && (m > 0 ==> since <= times[|times| - m])
    ensures Attempts(times, since) >= m
  {
    if m == 0 {
    } else {
      AttemptsAtLeast(times[..|times| - 1], since, m - 1);
    }
  }

  lemma RefreshingKept(s: State, credential: Credential, moment: Moment, now: real)
    requires WindowKept(s, now) && now <= moment.check <= moment.record
    ensures WindowKept(Refreshing(s, credential, moment), moment.record)
  {
    hide Attempts;
    if s.refreshWindow.Some? && !Excessive(s, moment.check) {
      var window := s.refreshWindow.value;
      var m := window.maximumAttempts;
      assert m > 0;
      if |s.refreshTimestamps| >= m
        && moment.check - window.interval <= s.refreshTimestamps[|s.refreshTimestamps| - m] {
        AttemptsAtLeast(s.refreshTimestamps, moment.check - window.interval, m);
      }
    }
  }

  lemma LaterKept(s: State, now: real, later: real)
    requires WindowKept(s, now) && now <= later
    ensures WindowKept(s, later)
  {
  }

  /** The window depends on the recorded times only. */
  lemma SameTimes(s: State, t: State, now: real)
    requires WindowKept(s, now) && t.refreshTimestamps == s.refreshTimestamps && t.refreshWindow == s.refreshWindow
    ensures WindowKept(t, now)
  {
  }

  /** The event reads the clock and refreshes, or leaves the recorded times alone. */
  lemma AdaptingKept(s: State, op: AdaptOperation, moment: Moment, now: real)
    requires WindowKept(s, now) && now <= moment.check <= moment.record
    ensures WindowKept(Adapting(s, op, moment), moment.record)
  {
    hide WindowKept, Refreshing;
    var queued := s.(adaptOperations := s.adaptOperations + [op]);
    SameTimes(s, queued, now);
    if !s.isRefreshing && s.credential.Some? && moment.requiresRefresh {
      RefreshingKept(queued, s.credential.value, moment, now);
    } else {
      LaterKept(s, now, moment.record);
      SameTimes(s, Adapting(s, op, moment), moment.record);
    }
  }

  lemma LockedKept(s: State, k: nat, moment: Moment, now: real)
    requires k < |s.reading| && WindowKept(s, now) && now <= moment.check <= moment.record
    ensures WindowKept(RetryLocked(s, k, moment), moment.record)
  {
    hide WindowKept, Refreshing;
    var r := s.reading[k];
    var queued := s.(reading := s.reading[..k] + s.reading[k + 1..],
      requestsToRetry := s.requestsToRetry + [r.completion]);
    SameTimes(s, queued, now);
    LaterKept(queued, now, moment.record);
    if !s.isRefreshing { RefreshingKept(queued, r.credential, moment, now); }
  }

  lemma ItemKept(s: State, moment: Moment, now: real)
    requires s.queue != [] && WindowKept(s, now) && now <= moment.check <= moment.record
    ensures WindowKept(RunningItem(s, moment), moment.record)
  {
    hide WindowKept, Adapting;
    var job := s.queue[0];
    if job.SuccessJob? && job.adapts != [] {
      var popped := s.(queue := [SuccessJob(job.adapts[1..], job.retries)] + s.queue[1..]);
      SameTimes(s, popped, now);
      AdaptingKept(popped, job.adapts[0], moment, now);
    } else {
      LaterKept(s, now, moment.record);
      SameTimes(s, RunningItem(s, moment), moment.record);
    }
  }

  /** The last reading of the clock in a run. */
  function LastReading(events: seq<Event>, from: real): real
  {
    if events == [] then from
    else LastReading(events[1..], if MomentOf(events[0]).Some? then MomentOf(events[0]).value.record else from)
  }

  lemma {:induction false} RunKept(s: State, events: seq<Event>, t: State, now: real)
    requires Runs(s, events, t) && Ticking(events, now) && WindowKept(s, now)
    ensures WindowKept(t, LastReading(events, now))
    ensures t.refreshWindow == s.refreshWindow
    decreases |events|
  {
    hide WindowKept, Adapting, RetryLocked, RunningItem;
    if events == [] { return; }
    var e := events[0];
    WindowConstant(s, e);
    match e {
      case Adapt(op, moment) => AdaptingKept(s, op, moment, now);
      case RetryLock(k, moment) => LockedKept(s, k, moment, now);
      case Run(moment) => ItemKept(s, moment, now);
      case _ => SameTimes(s, Step(s, e), now);
    }
    hide Step;
    RunKept(Step(s, e), events[1..], t, if MomentOf(e).Some? then MomentOf(e).value.record else now);
  }

  lemma WindowConstant(s: State, e: Event)
    requires Enabled(s, e)
    ensures Step(s, e).refreshWindow == s.refreshWindow
  {
    hide Excessive;
  }

  /** Times outside the interval do not count. */
  lemma {:induction false} OnlyLast(times: seq<real>, from: real, to: real, j: nat)
    requires j <= |times| && forall i :: 0 <= i < j ==> times[i] < from
    ensures InWindow(times, from, to) <= |times| - j
  {
    if j < |times| {
      OnlyLast(times[..|times| - 1], from, to, j);
    } else if j > 0 {
      OnlyLast(times[..|times| - 1], from, to, j - 1);
    }
  }

  lemma {:induction false} SpacedBound(times: seq<real>, m: nat, interval: real, from: real)
    requires Sorted(times) && Spaced(times, m, interval)
    ensures InWindow(times, from, from + interval) <= m
  {
    if times == [] {
    } else {
      var last := |times| - 1;
      if from <= times[last] <= from + interval && last >= m {
        assert times[last - m] < times[last] - interval <= from;
        assert forall i :: 0 <= i < last - m + 1 ==> times[i] <= times[last - m];
        OnlyLast(times, from, from + interval, last - m + 1);
      } else if from <= times[last] <= from + interval {
        assert InWindow(times, from, from + interval) <= |times|;
      } else {
        SpacedBound(times[..last], m, interval, from);
      }
    }
  }

  /** The window holds over every run: any closed interval of the window's length contains at most
      `maximumAttempts` recorded refreshes. */
  lemma RefreshesBounded(credential: Option<Credential>, window: RefreshWindow, events: seq<Event>, t: State,
                         start: real, from: real)
    requires Runs(Initial(credential, Some(window)), events, t) && Ticking(events, start)
    ensures InWindow(t.refreshTimestamps, from, from + window.interval) <= Allowed(window)
  {
    hide Runs, Ticking, InWindow;
    RunKept(Initial(credential, Some(window)), events, t, start);
    SpacedBound(t.refreshTimestamps, Allowed(window), window.interval, from);
  }

  /** The attempts that the check counts are the refreshes of the interval that ends now. */
  lemma {:induction false} AttemptsInWindow(times: seq<real>, interval: real, now: real)
    requires forall i :: 0 <= i < |times| ==> times[i] <= now
    ensures Attempts(times, now - interval) == InWindow(times, now - interval, now)
  {
    if times == [] {
    } else {
      AttemptsInWindow(times[..|times| - 1], interval, now);
    }
  }

  /** Nor is a refresh refused early: in every reachable state the check fails if and only if the
      interval that ends now holds exactly the allowed number of refreshes. */
  lemma RefusedOnlyWhenFull(credential: Option<Credential>, window: RefreshWindow, events: seq<Event>, t: State,
                            start: real, now: real)
    requires Runs(Initial(credential, Some(window)), events, t) && Ticking(events, start)
    requires LastReading(events, start) <= now
    ensures Excessive(t, now) <==>
            InWindow(t.refreshTimestamps, now - window.interval, now) == Allowed(window)
  {
    RunKept(Initial(credential, Some(window)), events, t, start);
    RefreshesBounded(credential, window, events, t, start, now - window.interval);
    assert now - window.interval + window.interval == now;
    hide Runs, Ticking, InWindow, Attempts;
    AttemptsInWindow(t.refreshTimestamps, window.interval, now);
  }

  /** A run after which the window holds as many refreshes as the maximum, not more, and the next
      one is refused all the same. */
  lemma RefusedAtMaximum(op: AdaptOperation) returns (events: seq<Event>, t: State)
    ensures Runs(Initial(Some(Credential(0)), Some(RefreshWindow(30.0, 1))), events, t) && Ticking(events, 0.0)
    ensures InWindow(t.refreshTimestamps, 5.0 - 30.0, 5.0) == 1 && Excessive(t, 5.0)
  {
    var s := Initial(Some(Credential(0)), Some(RefreshWindow(30.0, 1)));
    var e := Adapt(op, Moment(true, 1.0, 2.0));
    assert Attempts([], 1.0 - 30.0) == 0;
    t := Step(s, e);
    events := [e];
    assert events[1..] == [] && Runs(t, [], t);
    assert t.refreshTimestamps == [2.0] && [2.0][..0] == [];
  }
}
