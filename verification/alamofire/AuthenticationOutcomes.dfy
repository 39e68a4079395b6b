/** Why each completion was called with what it was called with. */
module AuthenticationOutcomes {
  import opened Options
  import opened AuthenticationProtocol
  import opened AuthenticationLaws

  // --------------------------------------------------------------------------
  // What a submission has been through
  // --------------------------------------------------------------------------

  /** What the outside has told the interceptor over some stretch of a run: credentials stored,
      refresh errors, whether a refresh has succeeded, and the retries whose request failed for
      another reason or used an outdated credential. */
  datatype Facts = Facts(credentials: set<Credential>, errors: set<Error>, refreshed: bool,
                         unrelated: set<nat>, outdated: set<nat>)

  function Learn(f: Facts, e: Event): Facts
  {
    match e
    case SetCredential(Some(c)) => f.(credentials := f.credentials + {c})
    case Answer(result) => LearnAnswer(f, result)
    case AnswerAgain(result) => LearnAnswer(f, result)
    case RetryRead(completion, NoResponse) => f.(unrelated := f.unrelated + {completion})
    case RetryRead(completion, OtherError) => f.(unrelated := f.unrelated + {completion})
    case RetryRead(completion, AuthenticationError(false)) => f.(outdated := f.outdated + {completion})
    case _ => f
  }

  function LearnAnswer(f: Facts, result: RefreshResult): Facts
  {
    match result
    case Success(c) => f.(credentials := f.credentials + {c}, refreshed := true)
    case Failure(error) => f.(errors := f.errors + {error})
  }

  function LearnAll(f: Facts, events: seq<Event>): Facts
    decreases |events|
  {
    if events == [] then f else LearnAll(Learn(f, events[0]), events[1..])
  }

  /** Nothing but the credential stored when the stretch begins. */
  function Known(s: State): Facts
  {
    Facts(if s.credential.Some? then {s.credential.value} else {}, {}, false, {}, {})
  }

  predicate ErrorExplained(f: Facts, error: Error)
  {
    error == MissingCredential || error == ExcessiveRefresh || error in f.errors
  }

  /** A retry is granted only after a successful refresh or for an outdated credential, and declined
      without error only for an unrelated failure; every error is one of the interceptor's own or
      one that a refresh reported; a request goes out only with a credential that was stored. */
  predicate CallExplained(f: Facts, call: Call)
  {
    match call
    case AdaptCall(_, Adapted(c)) => c in f.credentials
    case AdaptCall(_, AdaptFailed(error)) => ErrorExplained(f, error)
    case RetryCall(completion, Retry) => f.refreshed || completion in f.outdated
    case RetryCall(completion, DoNotRetry) => completion in f.unrelated
    case RetryCall(_, DoNotRetryWithError(error)) => ErrorExplained(f, error)
  }

  predicate JobExplained(f: Facts, job: Job)
  {
    match job
    case RefreshJob(_) => true
    case SuccessJob(_, _) => f.refreshed
    case FailureJob(error, _, _) => ErrorExplained(f, error)
  }

  /** The facts explain the blocks that hold the handle, and the calls of its completion. */
  predicate Explained(f: Facts, s: State, h: Handle)
  {
    && (s.credential.Some? ==> s.credential.value in f.credentials)
    && (forall job | job in s.queue :: InBlock(job, h) > 0 ==> JobExplained(f, job))
    && (forall call | call in s.calls :: HandleOf(call) == h ==> CallExplained(f, call))
  }

  predicate Extends(f: Facts, g: Facts)
  {
    && f.credentials <= g.credentials && f.errors <= g.errors && (f.refreshed ==> g.refreshed)
    && f.unrelated <= g.unrelated && f.outdated <= g.outdated
  }

  lemma LearnExtends(f: Facts, e: Event)
    ensures Extends(f, Learn(f, e))
  {
  }

  lemma ExplainedStays(f: Facts, g: Facts, s: State, h: Handle)
    requires Explained(f, s, h) && Extends(f, g)
    ensures Explained(g, s, h)
  {
    hide InBlock, HandleOf;
    forall job | job in s.queue && InBlock(job, h) > 0 ensures JobExplained(g, job) { assert JobExplained(f, job); }
    forall call | call in s.calls && HandleOf(call) == h
      ensures CallExplained(g, call) { assert CallExplained(f, call); }
  }

  lemma CallAdded(f: Facts, s: State, call: Call, h: Handle)
    requires Explained(f, s, h) && (HandleOf(call) == h ==> CallExplained(f, call))
    ensures Explained(f, Called(s, call), h)
  {
    hide JobExplained, CallExplained, InBlock, HandleOf;
  }

  lemma JobAdded(f: Facts, s: State, job: Job, h: Handle)
    requires Explained(f, s, h) && (InBlock(job, h) > 0 ==> JobExplained(f, job))
    ensures Explained(f, s.(queue := s.queue + [job]), h)
  {
    hide JobExplained, CallExplained, InBlock, HandleOf;
  }

  /** Another running block in place of the present one, or none. */
  lemma JobReplaced(f: Facts, s: State, job: Job, h: Handle)
    requires Explained(f, s, h) && s.queue != []
    ensures Explained(f, s.(queue := s.queue[1..]), h)
    ensures (InBlock(job, h) > 0 ==> JobExplained(f, job)) ==> Explained(f, s.(queue := [job] + s.queue[1..]), h)
  {
    hide JobExplained, CallExplained, InBlock, HandleOf;
  }

  /** Explained depends on the credential, the queue and the calls only. */
  lemma RestIrrelevant(f: Facts, s: State, t: State, h: Handle)
    requires Explained(f, s, h) && t.credential == s.credential && t.queue == s.queue && t.calls == s.calls
    ensures Explained(f, t, h)
  {
  }

  lemma FailureExplained(f: Facts, s: State, error: Error, h: Handle)
    requires Explained(f, s, h) && ErrorExplained(f, error)
    ensures Explained(f, RefreshFailing(s, error), h)
  {
    hide ErrorExplained, Explained, InBlock;
    var job := FailureJob(error, s.adaptOperations, s.requestsToRetry);
    assert JobExplained(f, job);
    JobAdded(f, s, job, h);
    RestIrrelevant(f, s.(queue := s.queue + [job]), RefreshFailing(s, error), h);
  }

  lemma RefreshExplained(f: Facts, s: State, credential: Credential, moment: Moment, h: Handle)
    requires Explained(f, s, h)
    ensures Explained(f, Refreshing(s, credential, moment), h)
  {
    hide Excessive, Explained;
    FailureExplained(f, s, ExcessiveRefresh, h);
    var job := RefreshJob(credential);
    JobAdded(f, s, job, h);
    var recorded :=
      s.(refreshTimestamps := s.refreshTimestamps + [moment.record], isRefreshing := true, queue := s.queue + [job]);
    RestIrrelevant(f, s.(queue := s.queue + [job]), recorded, h);
  }

  lemma AnswerExplained(f: Facts, s: State, result: RefreshResult, h: Handle)
    requires Explained(f, s, h)
    ensures Explained(LearnAnswer(f, result), Answered(s, result), h)
  {
    var g := LearnAnswer(f, result);
    ExplainedStays(f, g, s, h);
    hide InBlock, HandleOf;
    match result
    case Failure(error) => FailureExplained(g, s, error, h);
    case Success(c) =>
      var job := SuccessJob(s.adaptOperations, s.requestsToRetry);
      assert Explained(g, s.(credential := Some(c)), h);
      hide Explained;
      JobAdded(g, s.(credential := Some(c)), job, h);
      RestIrrelevant(g, s.(credential := Some(c), queue := s.queue + [job]), Succeeded(s, c), h);
  }

  lemma AdaptExplained(f: Facts, s: State, op: AdaptOperation, moment: Moment, h: Handle)
    requires Explained(f, s, h)
    ensures Explained(f, Adapting(s, op, moment), h)
  {
    assert s.credential.Some? ==> s.credential.value in f.credentials;
    hide Explained, InBlock, HandleOf, Refreshing, Called;
    var queued := s.(adaptOperations := s.adaptOperations + [op]);
    RestIrrelevant(f, s, queued, h);
    if s.credential.None? {
      CallAdded(f, s, AdaptCall(op, AdaptFailed(MissingCredential)), h);
    } else {
      RefreshExplained(f, queued, s.credential.value, moment, h);
      CallAdded(f, s, AdaptCall(op, Adapted(s.credential.value)), h);
    }
  }

  lemma ReadExplained(f: Facts, s: State, completion: nat, verdict: Verdict, h: Handle)
    requires Explained(f, s, h)
    ensures Explained(Learn(f, RetryRead(completion, verdict)), RetryReading(s, completion, verdict), h)
  {
    var g := Learn(f, RetryRead(completion, verdict));
    LearnExtends(f, RetryRead(completion, verdict));
    ExplainedStays(f, g, s, h);
    hide InBlock, HandleOf, Explained;
    if !verdict.AuthenticationError? {
      CallAdded(g, s, RetryCall(completion, DoNotRetry), h);
    } else if s.credential.None? {
      CallAdded(g, s, RetryCall(completion, DoNotRetryWithError(MissingCredential)), h);
    } else if !verdict.usedCredential {
      CallAdded(g, s, RetryCall(completion, Retry), h);
    } else {
      RestIrrelevant(g, s, RetryReading(s, completion, verdict), h);
    }
  }

  lemma LockExplained(f: Facts, s: State, k: nat, moment: Moment, h: Handle)
    requires k < |s.reading| && Explained(f, s, h)
    ensures Explained(f, RetryLocked(s, k, moment), h)
  {
    hide Explained, Refreshing;
    var r := s.reading[k];
    var queued :=
      s.(reading := s.reading[..k] + s.reading[k + 1..], requestsToRetry := s.requestsToRetry + [r.completion]);
    RestIrrelevant(f, s, queued, h);
    if !s.isRefreshing { RefreshExplained(f, queued, r.credential, moment, h); }
  }

  lemma ItemExplained(f: Facts, s: State, moment: Moment, h: Handle)
    requires s.queue != [] && Explained(f, s, h)
    ensures Explained(f, RunningItem(s, moment), h)
  {
    var job := s.queue[0];
    assert InBlock(job, h) > 0 ==> JobExplained(f, job);
    JobReplaced(f, s, job, h);
    if job.RefreshJob? {
      hide Explained, Adapting, Called;
      RestIrrelevant(f, s.(queue := s.queue[1..]), RunningItem(s, moment), h);
    } else if job.adapts != [] || job.retries != [] {
      NextItem(job, h);
      var next := if job.adapts != [] then job.(adapts := job.adapts[1..]) else job.(retries := job.retries[1..]);
      var popped := s.(queue := [next] + s.queue[1..]);
      assert InBlock(next, h) > 0 ==> JobExplained(f, next);
      hide InBlock;
      JobReplaced(f, s, next, h);
      hide Explained, Adapting, Called;
      if job.adapts == [] {
        CallAdded(f, popped, RetryCall(job.retries[0],
          if job.SuccessJob? then Retry else DoNotRetryWithError(job.error)), h);
      } else if job.SuccessJob? {
        AdaptExplained(f, popped, job.adapts[0], moment, h);
      } else {
        CallAdded(f, popped, AdaptCall(job.adapts[0], AdaptFailed(job.error)), h);
      }
    }
  }

  lemma StepExplained(f: Facts, s: State, e: Event, h: Handle)
    requires Enabled(s, e) && Explained(f, s, h)
    ensures Explained(Learn(f, e), Step(s, e), h)
  {
    match e
    case Adapt(op, moment) => AdaptExplained(f, s, op, moment, h);
    case RetryRead(completion, verdict) => ReadExplained(f, s, completion, verdict, h);
    case RetryLock(k, moment) => LockExplained(f, s, k, moment, h);
    case Run(moment) => ItemExplained(f, s, moment, h);
    case Answer(result) =>
      var counted := s.(inFlight := s.inFlight - 1, answered := s.answered + 1);
      RestIrrelevant(f, s, counted, h);
      AnswerExplained(f, counted, result, h);
    case AnswerAgain(result) => AnswerExplained(f, s, result, h);
    case SetCredential(credential) =>
      LearnExtends(f, e);
      ExplainedStays(f, Learn(f, e), s, h);
  }

  lemma {:induction false} RunExplained(f: Facts, s: State, events: seq<Event>, t: State, h: Handle)
    requires Runs(s, events, t) && Explained(f, s, h)
    ensures Explained(LearnAll(f, events), t, h)
    decreases |events|
  {
    hide Step, Explained, Learn;
    if events == [] {
    } else {
      StepExplained(f, s, events[0], h);
      RunExplained(Learn(f, events[0]), Step(s, events[0]), events[1..], t, h);
    }
  }

  /** The handle is in no dispatched block and its completion has not been called: it is pending,
      about to take the lock, or not submitted yet. */
  predicate Undecided(s: State, h: Handle)
  {
    InQueue(s.queue, h) == 0 && TimesCalled(s.calls, h) == 0
  }

  lemma {:induction false} UndecidedBlocks(queue: seq<Job>, h: Handle)
    requires InQueue(queue, h) == 0
    ensures forall job | job in queue :: InBlock(job, h) == 0
  {
    hide InBlock;
    if queue == [] {
    } else {
      UndecidedBlocks(queue[1..], h);
      assert queue == [queue[0]] + queue[1..];
    }
  }

  lemma {:induction false} UndecidedCalls(calls: seq<Call>, h: Handle)
    requires TimesCalled(calls, h) == 0
    ensures forall call | call in calls :: HandleOf(call) != h
  {
    hide HandleOf;
    if calls == [] {
    } else {
      UndecidedCalls(calls[1..], h);
      assert calls == [calls[0]] + calls[1..];
    }
  }

  /** From any moment at which a submission is undecided, its outcome is explained by what happens
      from that moment on: a queued retry is granted only by a refresh that succeeds after it was
      queued, and fails only with an error reported after that. */
  lemma OutcomeEarnedLater(s: State, events: seq<Event>, t: State, h: Handle, call: Call)
    requires Runs(s, events, t) && Undecided(s, h)
    requires call in t.calls && HandleOf(call) == h
    ensures CallExplained(LearnAll(Known(s), events), call)
  {
    UndecidedBlocks(s.queue, h);
    UndecidedCalls(s.calls, h);
    hide Runs, LearnAll;
    assert Explained(Known(s), s, h);
    RunExplained(Known(s), s, events, t, h);
  }

  // --------------------------------------------------------------------------
  // The step that makes a call
  // --------------------------------------------------------------------------

  /** The completion that adapt calls when it does not queue: with the credential stored, unless
      that requires a refresh at this moment. */
  predicate AdaptMakes(s: State, op: AdaptOperation, moment: Moment, call: Call)
  {
    && !s.isRefreshing
    && call == AdaptCall(op, if s.credential.None? then AdaptFailed(MissingCredential) else Adapted(s.credential.value))
    && (s.credential.Some? ==> !moment.requiresRefresh)
  }

  predicate BlockMakes(s: State, job: Job, moment: Moment, call: Call)
  {
    match job
    case RefreshJob(_) => false
    case SuccessJob(adapts, retries) =>
      if adapts != [] then AdaptMakes(s, adapts[0], moment, call)
      else retries != [] && call == RetryCall(retries[0], Retry)
    case FailureJob(error, adapts, retries) =>
      if adapts != [] then call == AdaptCall(adapts[0], AdaptFailed(error))
      else retries != [] && call == RetryCall(retries[0], DoNotRetryWithError(error))
  }

  /** Why the event calls this completion in this state. */
  predicate Makes(s: State, e: Event, call: Call)
  {
    match e
    case Adapt(op, moment) => AdaptMakes(s, op, moment, call)
    case RetryRead(completion, verdict) =>
      && call == RetryCall(completion, if !verdict.AuthenticationError? then DoNotRetry
                                       else if s.credential.None? then DoNotRetryWithError(MissingCredential)
                                       else Retry)
      && (verdict.AuthenticationError? && s.credential.Some? ==> !verdict.usedCredential)
    case Run(moment) => s.queue != [] && BlockMakes(s, s.queue[0], moment, call)
    case _ => false
  }

  /** A step calls at most one completion, for the reason its event and state give. */
  lemma StepMakes(s: State, e: Event)
    requires Enabled(s, e)
    ensures var t := Step(s, e);
            t.calls == s.calls
              || (|t.calls| == |s.calls| + 1 && t.calls[..|s.calls|] == s.calls && Makes(s, e, t.calls[|s.calls|]))
  {
    hide Excessive;
  }

  /** Over every run each call is traced to the step that made it: a request goes out with the
      credential stored at that step. */
  lemma {:induction false} CallTraced(s: State, events: seq<Event>, t: State, n: nat) returns (k: nat, u: State)
    requires Runs(s, events, t) && |s.calls| <= n < |t.calls|
    ensures k < |events| && Runs(s, events[..k], u) && Enabled(u, events[k])
    ensures |u.calls| == n && Makes(u, events[k], t.calls[n])
    decreases |events|
  {
    hide Step, Makes, Enabled;
    if events == [] {
      assert false;
    } else {
      var e := events[0];
      var next := Step(s, e);
      StepMakes(s, e);
      CallsStay(next, events[1..], t);
      if |next.calls| > n {
        k, u := 0, s;
        assert events[..0] == [];
      } else {
        k, u := CallTraced(next, events[1..], t, n);
        assert events[..k + 1] == [e] + events[1..][..k];
        RunsCons(s, e, next, events[1..][..k], u);
        k := k + 1;
      }
    }
  }

  lemma {:induction false} CallsStay(s: State, events: seq<Event>, t: State)
    requires Runs(s, events, t)
    ensures s.calls <= t.calls
    decreases |events|
  {
    hide Step, Makes;
    if events == [] {
    } else {
      StepMakes(s, events[0]);
      CallsStay(Step(s, events[0]), events[1..], t);
    }
  }
}
