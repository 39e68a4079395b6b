/** What the interceptor stores, hands on and releases, told from the events of a run alone. */
module AuthenticationHistory {
  import opened Options
  import opened AuthenticationProtocol
  import opened AuthenticationLaws
  import opened AuthenticationOutcomes

  // --------------------------------------------------------------------------
  // The stored credential
  // --------------------------------------------------------------------------

  function Given(credential: Option<Credential>, e: Event): Option<Credential>
  {
    match e
    case SetCredential(c) => c
    case Answer(Success(c)) => Some(c)
    case AnswerAgain(Success(c)) => Some(c)
    case _ => credential
  }

  /** The credential given last: set from outside, or brought by a refresh that succeeded. */
  function LastGiven(credential: Option<Credential>, events: seq<Event>): Option<Credential>
    decreases |events|
  {
    if events == [] then credential else LastGiven(Given(credential, events[0]), events[1..])
  }

  lemma StepStores(s: State, e: Event)
    requires Enabled(s, e)
    ensures Step(s, e).credential == Given(s.credential, e)
  {
    hide Excessive;
  }

  /** Over every run the credential stored is the one given last. */
  lemma {:induction false} StoredIsLastGiven(s: State, events: seq<Event>, t: State)
    requires Runs(s, events, t)
    ensures t.credential == LastGiven(s.credential, events)
    decreases |events|
  {
    hide Step, Given;
    if events == [] {
    } else {
      StepStores(s, events[0]);
      StoredIsLastGiven(Step(s, events[0]), events[1..], t);
    }
  }

  /** A request that goes out, at once or released by a refresh, carries the credential given last
      before the event that lets it go, which does not require a refresh by then. */
  lemma RequestCarriesLastGiven(s: State, events: seq<Event>, t: State, n: nat) returns (k: nat)
    requires Runs(s, events, t) && |s.calls| <= n < |t.calls|
    requires t.calls[n].AdaptCall? && t.calls[n].adapt.Adapted?
    ensures k < |events| && LastGiven(s.credential, events[..k]) == Some(t.calls[n].adapt.credential)
    ensures (events[k].Adapt? || events[k].Run?) && !events[k].moment.requiresRefresh
  {
    var u: State;
    k, u := CallTraced(s, events, t, n);
    hide Runs, LastGiven;
    StoredIsLastGiven(s, events[..k], u);
  }

  // --------------------------------------------------------------------------
  // The credential that a refresh replaces
  // --------------------------------------------------------------------------

  function RefreshCredentials(queue: seq<Job>): seq<Credential>
  {
    if queue == [] then []
    else (if queue[0].RefreshJob? then [queue[0].credential] else []) + RefreshCredentials(queue[1..])
  }

  /** The credentials of all refreshes so far, in order: handed to the authenticator, then those
      whose block is still queued. */
  function Refreshes(s: State): seq<Credential>
  {
    s.handed + RefreshCredentials(s.queue)
  }

  /** The event starts a refresh of this credential: the stored one, or the one that the retry read. */
  predicate StartsWith(s: State, e: Event, c: Credential)
  {
    match e
    case Adapt(_, moment) => s.credential == Some(c) && moment.requiresRefresh
    case Run(moment) => s.credential == Some(c) && moment.requiresRefresh
    case RetryLock(k, _) => k < |s.reading| && s.reading[k].credential == c
    case _ => false
  }

  lemma {:induction false} RefreshCredentialsPush(queue: seq<Job>, job: Job)
    ensures RefreshCredentials(queue + [job]) ==
            RefreshCredentials(queue) + if job.RefreshJob? then [job.credential] else []
  {
    if queue == [] {
      assert [job][1..] == [] && [] + [job] == [job];
    } else {
      hide RefreshCredentials;
      assert (queue + [job])[1..] == queue[1..] + [job] && (queue + [job])[0] == queue[0];
      RefreshCredentialsHead(queue, job);
      RefreshCredentialsHead(queue + [job], job);
      RefreshCredentialsPush(queue[1..], job);
      var head := if queue[0].RefreshJob? then [queue[0].credential] else [];
      var last := if job.RefreshJob? then [job.credential] else [];
      assert head + (RefreshCredentials(queue[1..]) + last) == head + RefreshCredentials(queue[1..]) + last;
    }
  }

  lemma RefreshCredentialsHead(queue: seq<Job>, job: Job)
    requires queue != []
    ensures RefreshCredentials(queue) ==
            (if queue[0].RefreshJob? then [queue[0].credential] else []) + RefreshCredentials(queue[1..])
    ensures !job.RefreshJob? ==> RefreshCredentials([job] + queue[1..]) == RefreshCredentials(queue[1..])
  {
    assert ([job] + queue[1..])[1..] == queue[1..];
  }

  /** The refreshes after a step: those before it, and possibly one that the event starts. */
  predicate Adds(s: State, t: State, c: Credential)
  {
    Refreshes(t) == Refreshes(s) || (Refreshes(t) == Refreshes(s) + [c] && !s.isRefreshing)
  }

  lemma RefreshingAdds(s: State, c: Credential, moment: Moment)
    requires !s.isRefreshing
    ensures Adds(s, Refreshing(s, c, moment), c)
  {
    hide Excessive, RefreshCredentials;
    RefreshCredentialsPush(s.queue, RefreshJob(c));
    RefreshCredentialsPush(s.queue, FailureJob(ExcessiveRefresh, s.adaptOperations, s.requestsToRetry));
    assert s.handed + (RefreshCredentials(s.queue) + [c]) == s.handed + RefreshCredentials(s.queue) + [c];
    assert RefreshCredentials(s.queue) + [] == RefreshCredentials(s.queue);
  }

  lemma AdaptingAdds(s: State, op: AdaptOperation, moment: Moment)
    ensures Refreshes(Adapting(s, op, moment)) == Refreshes(s)
         || (s.credential.Some? && moment.requiresRefresh && !s.isRefreshing
               && Refreshes(Adapting(s, op, moment)) == Refreshes(s) + [s.credential.value])
  {
    hide Refreshing, RefreshCredentials;
    if !s.isRefreshing && s.credential.Some? {
      RefreshingAdds(s.(adaptOperations := s.adaptOperations + [op]), s.credential.value, moment);
    }
  }

  lemma RunAdds(s: State, moment: Moment)
    requires s.queue != []
    ensures Refreshes(RunningItem(s, moment)) == Refreshes(s)
         || (s.credential.Some? && moment.requiresRefresh && !s.isRefreshing
               && Refreshes(RunningItem(s, moment)) == Refreshes(s) + [s.credential.value])
  {
    hide Adapting, RefreshCredentials;
    var job := s.queue[0];
    RefreshCredentialsHead(s.queue, job);
    if job.RefreshJob? {
      assert s.handed + ([job.credential] + RefreshCredentials(s.queue[1..])) ==
             s.handed + [job.credential] + RefreshCredentials(s.queue[1..]);
    } else {
      assert [] + RefreshCredentials(s.queue[1..]) == RefreshCredentials(s.queue[1..]);
      if job.adapts != [] || job.retries != [] {
        var next := if job.adapts != [] then job.(adapts := job.adapts[1..]) else job.(retries := job.retries[1..]);
        RefreshCredentialsHead(s.queue, next);
        if job.adapts != [] && job.SuccessJob? {
          AdaptingAdds(s.(queue := [next] + s.queue[1..]), job.adapts[0], moment);
        }
      }
    }
  }

  lemma AnswerAddsNone(s: State, result: RefreshResult)
    ensures Refreshes(Answered(s, result)) == Refreshes(s)
  {
    hide RefreshCredentials;
    RefreshCredentialsPush(s.queue, SuccessJob(s.adaptOperations, s.requestsToRetry));
    if result.Failure? {
      RefreshCredentialsPush(s.queue, FailureJob(result.error, s.adaptOperations, s.requestsToRetry));
    }
    assert RefreshCredentials(s.queue) + [] == RefreshCredentials(s.queue);
  }

  lemma StepRefreshesWith(s: State, e: Event)
    requires Enabled(s, e)
    ensures var t := Step(s, e);
            || Refreshes(t) == Refreshes(s)
            || (|Refreshes(t)| == |Refreshes(s)| + 1 && Refreshes(t)[..|Refreshes(s)|] == Refreshes(s)
                && !s.isRefreshing && StartsWith(s, e, Refreshes(t)[|Refreshes(s)|]))
  {
    hide Adapting, Refreshing, RefreshCredentials, RunningItem, Answered;
    match e
    case Adapt(op, moment) => AdaptingAdds(s, op, moment);
    case Run(moment) => RunAdds(s, moment);
    case Answer(result) => AnswerAddsNone(s.(inFlight := s.inFlight - 1, answered := s.answered + 1), result);
    case AnswerAgain(result) => AnswerAddsNone(s, result);
    case RetryLock(k, moment) =>
      var r := s.reading[k];
      var queued := s.(reading := s.reading[..k] + s.reading[k + 1..],
        requestsToRetry := s.requestsToRetry + [r.completion]);
      if !s.isRefreshing { RefreshingAdds(queued, r.credential, moment); }
    case _ =>
  }

  /** Each refresh has its time. */
  predicate Stamped(s: State)
  {
    |s.refreshTimestamps| == |Refreshes(s)|
  }

  lemma RefreshingStamps(s: State, c: Credential, moment: Moment)
    requires !s.isRefreshing
    ensures var t := Refreshing(s, c, moment);
            if Excessive(s, moment.check) then
              Refreshes(t) == Refreshes(s) && t.refreshTimestamps == s.refreshTimestamps
            else
              Refreshes(t) == Refreshes(s) + [c] && t.refreshTimestamps == s.refreshTimestamps + [moment.record]
  {
    hide Excessive, RefreshCredentials;
    RefreshCredentialsPush(s.queue, RefreshJob(c));
    RefreshCredentialsPush(s.queue, FailureJob(ExcessiveRefresh, s.adaptOperations, s.requestsToRetry));
    assert s.handed + (RefreshCredentials(s.queue) + [c]) == s.handed + RefreshCredentials(s.queue) + [c];
    assert RefreshCredentials(s.queue) + [] == RefreshCredentials(s.queue);
  }

  lemma AdaptingStamps(s: State, op: AdaptOperation, moment: Moment)
    requires Stamped(s)
    ensures var t := Adapting(s, op, moment);
            Stamped(t) && (Refreshes(t) == Refreshes(s) ==> t.refreshTimestamps == s.refreshTimestamps)
            && (Refreshes(t) != Refreshes(s) ==> t.refreshTimestamps == s.refreshTimestamps + [moment.record])
  {
    hide Refreshing, RefreshCredentials;
    var queued := s.(adaptOperations := s.adaptOperations + [op]);
    if !s.isRefreshing && s.credential.Some? { RefreshingStamps(queued, s.credential.value, moment); }
  }

  lemma RunStamps(s: State, moment: Moment)
    requires s.queue != [] && Stamped(s)
    ensures var t := RunningItem(s, moment);
            Stamped(t) && (Refreshes(t) == Refreshes(s) ==> t.refreshTimestamps == s.refreshTimestamps)
            && (Refreshes(t) != Refreshes(s) ==> t.refreshTimestamps == s.refreshTimestamps + [moment.record])
  {
    RunAdds(s, moment);
    hide Adapting, RefreshCredentials;
    var job := s.queue[0];
    RefreshCredentialsHead(s.queue, job);
    if !job.RefreshJob? && job.adapts != [] && job.SuccessJob? {
      var next := SuccessJob(job.adapts[1..], job.retries);
      RefreshCredentialsHead(s.queue, next);
      assert [] + RefreshCredentials(s.queue[1..]) == RefreshCredentials(s.queue[1..]);
      AdaptingStamps(s.(queue := [next] + s.queue[1..]), job.adapts[0], moment);
    }
  }

  /** A refresh is recorded with the time that the event reads when it starts it. */
  lemma StepStamps(s: State, e: Event)
    requires Enabled(s, e) && Stamped(s)
    ensures var t := Step(s, e);
            && Stamped(t)
            && (Refreshes(t) == Refreshes(s) ==> t.refreshTimestamps == s.refreshTimestamps)
            && (Refreshes(t) != Refreshes(s) ==>
                  && (e.Adapt? || e.RetryLock? || e.Run?)
                  && t.refreshTimestamps == s.refreshTimestamps + [e.moment.record])
  {
    hide Adapting, Refreshing, RefreshCredentials, RunningItem, Answered;
    match e
    case Adapt(op, moment) => AdaptingStamps(s, op, moment);
    case Run(moment) => RunStamps(s, moment);
    case Answer(result) =>
      var counted := s.(inFlight := s.inFlight - 1, answered := s.answered + 1);
      AnswerAddsNone(counted, result);
      AnswerKeepsStamps(counted, result);
    case AnswerAgain(result) => AnswerAddsNone(s, result); AnswerKeepsStamps(s, result);
    case RetryLock(k, moment) =>
      var r := s.reading[k];
      var queued := s.(reading := s.reading[..k] + s.reading[k + 1..],
        requestsToRetry := s.requestsToRetry + [r.completion]);
      if !s.isRefreshing { RefreshingStamps(queued, r.credential, moment); }
    case RetryRead(completion, verdict) => ReadKeepsStamps(s, completion, verdict);
    case SetCredential(_) =>
  }

  lemma AnswerKeepsStamps(s: State, result: RefreshResult)
    ensures Answered(s, result).refreshTimestamps == s.refreshTimestamps
  {
  }

  lemma ReadKeepsStamps(s: State, completion: nat, verdict: Verdict)
    ensures var t := RetryReading(s, completion, verdict);
            t.refreshTimestamps == s.refreshTimestamps && t.handed == s.handed && t.queue == s.queue
  {
  }

  lemma {:induction false} StampsStay(s: State, events: seq<Event>, t: State)
    requires Runs(s, events, t) && Stamped(s)
    ensures Stamped(t) && s.refreshTimestamps <= t.refreshTimestamps
    decreases |events|
  {
    hide Step, Refreshes;
    if events == [] {
    } else {
      StepStamps(s, events[0]);
      StampsStay(Step(s, events[0]), events[1..], t);
    }
  }

  /** Over every run each refresh is traced to the event that started it, at a moment when none was
      under way: the authenticator is asked for the credential given last, or for the one that the
      retry had read, and the time recorded is that of the event. */
  lemma {:induction false} RefreshTraced(s: State, events: seq<Event>, t: State, n: nat) returns (k: nat, u: State)
    requires Runs(s, events, t) && Stamped(s) && |Refreshes(s)| <= n < |Refreshes(t)|
    ensures k < |events| && Runs(s, events[..k], u) && !u.isRefreshing
    ensures StartsWith(u, events[k], Refreshes(t)[n]) && u.credential == LastGiven(s.credential, events[..k])
    ensures Stamped(t) && (events[k].Adapt? || events[k].RetryLock? || events[k].Run?)
    ensures t.refreshTimestamps[n] == events[k].moment.record
    decreases |events|
  {
    StampsStay(s, events, t);
    hide Step, StartsWith, Enabled, Refreshes, LastGiven, Given;
    if events == [] {
      assert false;
    } else {
      var e := events[0];
      var next := Step(s, e);
      StepRefreshesWith(s, e);
      StepStamps(s, e);
      StampsStay(next, events[1..], t);
      RefreshesStay(next, events[1..], t);
      if |Refreshes(next)| > n {
        k, u := 0, s;
        assert events[..0] == [];
        StoredIsLastGiven(s, events[..0], s);
      } else {
        k, u := RefreshTraced(next, events[1..], t, n);
        assert events[..k + 1] == [e] + events[1..][..k];
        RunsCons(s, e, next, events[1..][..k], u);
        k := k + 1;
        StoredIsLastGiven(s, events[..k], u);
      }
    }
  }

  lemma {:induction false} RefreshesStay(s: State, events: seq<Event>, t: State)
    requires Runs(s, events, t)
    ensures Refreshes(s) <= Refreshes(t)
    decreases |events|
  {
    hide Step, StartsWith, Refreshes;
    if events == [] {
    } else {
      StepRefreshesWith(s, events[0]);
      RefreshesStay(Step(s, events[0]), events[1..], t);
    }
  }

  /** A retry on its way to the lock carries the credential given last before it read. */
  lemma {:induction false} ReadingTraced(s: State, events: seq<Event>, t: State, r: Reading) returns (k: nat)
    requires Runs(s, events, t) && r in t.reading && r !in s.reading
    ensures k < |events| && events[k] == RetryRead(r.completion, AuthenticationError(true))
    ensures LastGiven(s.credential, events[..k]) == Some(r.credential)
    decreases |events|
  {
    hide Step, LastGiven, Given, Enabled;
    if events == [] {
      assert false;
    } else {
      var e := events[0];
      var next := Step(s, e);
      StepReads(s, e);
      if r in next.reading {
        k := 0;
        assert events[..0] == [];
        NoneGiven(s.credential);
      } else {
        k := ReadingTraced(next, events[1..], t, r);
        assert events[..k + 1][1..] == events[1..][..k];
        StepStores(s, e);
        LastGivenStep(s.credential, events[..k + 1]);
        k := k + 1;
      }
    }
  }

  lemma NoneGiven(c: Option<Credential>)
    ensures LastGiven(c, []) == c
  {
  }

  lemma LastGivenStep(c: Option<Credential>, events: seq<Event>)
    requires events != []
    ensures LastGiven(c, events) == LastGiven(Given(c, events[0]), events[1..])
  {
  }

  lemma StepReads(s: State, e: Event)
    requires Enabled(s, e)
    ensures forall r | r in Step(s, e).reading && r !in s.reading ::
              e == RetryRead(r.completion, AuthenticationError(true)) && s.credential == Some(r.credential)
  {
    hide Excessive;
  }

  // --------------------------------------------------------------------------
  // Errors
  // --------------------------------------------------------------------------

  /** A refresh that the event asks for is refused, because the window is full. */
  predicate RefusedBy(s: State, moment: Moment, error: Error)
  {
    !s.isRefreshing && Excessive(s, moment.check) && error == ExcessiveRefresh
  }

  /** The event fails everything that waits, with this error: one that a refresh reports, or that of
      an excessive refresh. */
  predicate FailsWith(s: State, e: Event, error: Error)
  {
    match e
    case Answer(result) => result == Failure(error)
    case AnswerAgain(result) => result == Failure(error)
    case Adapt(_, moment) => s.credential.Some? && moment.requiresRefresh && RefusedBy(s, moment, error)
    case Run(moment) => s.credential.Some? && moment.requiresRefresh && RefusedBy(s, moment, error)
    case RetryLock(_, moment) => RefusedBy(s, moment, error)
    case _ => false
  }

  predicate FailsIn(queue: seq<Job>, error: Error)
  {
    exists job | job in queue :: job.FailureJob? && job.error == error
  }

  lemma FailsPush(queue: seq<Job>, job: Job, error: Error)
    ensures FailsIn(queue + [job], error) <==> FailsIn(queue, error) || (job.FailureJob? && job.error == error)
  {
    if FailsIn(queue, error) {
      var j :| j in queue && j.FailureJob? && j.error == error;
      assert j in queue + [job];
    }
    if job.FailureJob? && job.error == error { assert job in queue + [job]; }
  }

  lemma FailsHead(queue: seq<Job>, job: Job, error: Error)
    requires queue != []
    ensures FailsIn(queue[1..], error) ==> FailsIn(queue, error)
    ensures (job.FailureJob? ==> queue[0].FailureJob? && job.error == queue[0].error) ==>
              (FailsIn([job] + queue[1..], error) ==> FailsIn(queue, error))
  {
    if FailsIn(queue[1..], error) {
      var j :| j in queue[1..] && j.FailureJob? && j.error == error;
      assert j in queue;
    } else if FailsIn([job] + queue[1..], error) {
      var j :| j in [job] + queue[1..] && j.FailureJob? && j.error == error;
      assert j == job && queue[0] in queue;
    }
  }

  lemma SameWindow(s: State, t: State, now: real)
    requires s.refreshTimestamps == t.refreshTimestamps && s.refreshWindow == t.refreshWindow
    ensures Excessive(s, now) == Excessive(t, now)
  {
  }

  lemma RefreshingFails(s: State, c: Credential, moment: Moment, error: Error)
    requires !s.isRefreshing && FailsIn(Refreshing(s, c, moment).queue, error)
    ensures FailsIn(s.queue, error) || RefusedBy(s, moment, error)
  {
    hide Excessive, FailsIn;
    FailsPush(s.queue, RefreshJob(c), error);
    FailsPush(s.queue, FailureJob(ExcessiveRefresh, s.adaptOperations, s.requestsToRetry), error);
  }

  lemma AdaptingFails(s: State, op: AdaptOperation, moment: Moment, error: Error)
    requires FailsIn(Adapting(s, op, moment).queue, error)
    ensures FailsIn(s.queue, error) || FailsWith(s, Adapt(op, moment), error)
  {
    hide Excessive, FailsIn, Refreshing;
    var queued := s.(adaptOperations := s.adaptOperations + [op]);
    SameWindow(s, queued, moment.check);
    if !s.isRefreshing && s.credential.Some? && moment.requiresRefresh {
      RefreshingFails(queued, s.credential.value, moment, error);
    }
  }

  lemma RunFails(s: State, moment: Moment, error: Error)
    requires s.queue != [] && FailsIn(RunningItem(s, moment).queue, error)
    ensures FailsIn(s.queue, error) || FailsWith(s, Run(moment), error)
  {
    hide Excessive, FailsIn, Adapting;
    var job := s.queue[0];
    FailsHead(s.queue, job, error);
    if !job.RefreshJob? && (job.adapts != [] || job.retries != []) {
      var next := if job.adapts != [] then job.(adapts := job.adapts[1..]) else job.(retries := job.retries[1..]);
      FailsHead(s.queue, next, error);
      if job.adapts != [] && job.SuccessJob? {
        var popped := s.(queue := [next] + s.queue[1..]);
        SameWindow(s, popped, moment.check);
        AdaptingFails(popped, job.adapts[0], moment, error);
      }
    }
  }

  lemma StepFails(s: State, e: Event, error: Error)
    requires Enabled(s, e) && FailsIn(Step(s, e).queue, error)
    ensures FailsIn(s.queue, error) || FailsWith(s, e, error)
  {
    hide Excessive, FailsIn, Adapting, Refreshing, RunningItem;
    match e
    case Adapt(op, moment) => AdaptingFails(s, op, moment, error);
    case Run(moment) => RunFails(s, moment, error);
    case RetryLock(k, moment) =>
      var r := s.reading[k];
      var queued := s.(reading := s.reading[..k] + s.reading[k + 1..],
        requestsToRetry := s.requestsToRetry + [r.completion]);
      SameWindow(s, queued, moment.check);
      if !s.isRefreshing { RefreshingFails(queued, r.credential, moment, error); }
    case Answer(result) => AnswerFails(s.(inFlight := s.inFlight - 1, answered := s.answered + 1), result, error);
    case AnswerAgain(result) => AnswerFails(s, result, error);
    case _ =>
  }

  lemma AnswerFails(s: State, result: RefreshResult, error: Error)
    requires FailsIn(Answered(s, result).queue, error)
    ensures FailsIn(s.queue, error) || result == Failure(error)
  {
    hide FailsIn;
    FailsPush(s.queue, SuccessJob(s.adaptOperations, s.requestsToRetry), error);
    if result.Failure? {
      FailsPush(s.queue, FailureJob(result.error, s.adaptOperations, s.requestsToRetry), error);
    }
  }

  lemma {:induction false} FailureTraced(s: State, events: seq<Event>, t: State, error: Error)
    returns (k: nat, u: State)
    requires Runs(s, events, t) && !FailsIn(s.queue, error) && FailsIn(t.queue, error)
    ensures k < |events| && Runs(s, events[..k], u) && FailsWith(u, events[k], error)
    decreases |events|
  {
    hide Step, FailsWith, FailsIn, Enabled;
    if events == [] {
      assert false;
    } else {
      var e := events[0];
      var next := Step(s, e);
      if FailsIn(next.queue, error) {
        StepFails(s, e, error);
        k, u := 0, s;
        assert events[..0] == [];
      } else {
        k, u := FailureTraced(next, events[1..], t, error);
        assert events[..k + 1] == [e] + events[1..][..k];
        RunsCons(s, e, next, events[1..][..k], u);
        k := k + 1;
      }
    }
  }

  function ErrorOf(call: Call): Option<Error>
  {
    match call
    case AdaptCall(_, AdaptFailed(error)) => Some(error)
    case RetryCall(_, DoNotRetryWithError(error)) => Some(error)
    case _ => None
  }

  /** Every error handed out has its cause in the run: no credential was stored at the step that
      handed out the missing-credential error; or a refresh had reported it; or a refresh was refused
      before, at a moment when the window was full. */
  lemma ErrorTraced(s: State, events: seq<Event>, t: State, n: nat) returns (k: nat, u: State)
    requires Runs(s, events, t) && s.queue == [] && |s.calls| <= n < |t.calls| && ErrorOf(t.calls[n]).Some?
    ensures k < |events| && Runs(s, events[..k], u)
    ensures var error := ErrorOf(t.calls[n]).value;
            (error == MissingCredential && u.credential == None && LastGiven(s.credential, events[..k]) == None)
            || FailsWith(u, events[k], error)
  {
    hide Runs, LastGiven;
    k, u := CallTraced(s, events, t, n);
    var error := ErrorOf(t.calls[n]).value;
    StoredIsLastGiven(s, events[..k], u);
    if u.credential.Some? || error != MissingCredential {
      assert u.queue[0] in u.queue && u.queue[0].FailureJob? && u.queue[0].error == error;
      assert FailsIn(u.queue, error) && !FailsIn(s.queue, error);
      var j, v := FailureTraced(s, events[..k], u, error);
      assert events[..k][..j] == events[..j];
      k, u := j, v;
    }
  }
}
