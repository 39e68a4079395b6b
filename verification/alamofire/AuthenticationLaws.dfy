/** What holds over every run of the AuthenticationInterceptor. */
module AuthenticationLaws {
  import opened Options
  import opened Counting
  import opened AuthenticationProtocol

  // --------------------------------------------------------------------------
  // Each completion is in exactly one place
  // --------------------------------------------------------------------------

  /** What a caller hands over: an adapt operation or a retry, with its completion. */
  datatype Handle = AdaptHandle(op: AdaptOperation) | RetryHandle(completion: nat)

  function InBlock(job: Job, h: Handle): nat
  {
    if job.RefreshJob? then 0
    else match h case AdaptHandle(op) => Count(job.adapts, op) case RetryHandle(c) => Count(job.retries, c)
  }

  function InQueue(queue: seq<Job>, h: Handle): nat
  {
    if queue == [] then 0 else InBlock(queue[0], h) + InQueue(queue[1..], h)
  }

  function InReading(reading: seq<Reading>, h: Handle): nat
  {
    if reading == [] then 0
    else (if RetryHandle(reading[0].completion) == h then 1 else 0) + InReading(reading[1..], h)
  }

  /** The handle whose completion is called. */
  function HandleOf(call: Call): Handle
  {
    match call case AdaptCall(op, _) => AdaptHandle(op) case RetryCall(c, _) => RetryHandle(c)
  }

  /** How often the handle's completion has been called. */
  function TimesCalled(calls: seq<Call>, h: Handle): nat
  {
    if calls == [] then 0 else (if HandleOf(calls[0]) == h then 1 else 0) + TimesCalled(calls[1..], h)
  }

  function Pending(s: State, h: Handle): nat
  {
    match h case AdaptHandle(op) => Count(s.adaptOperations, op) case RetryHandle(c) => Count(s.requestsToRetry, c)
  }

  /** The number of places that hold the handle: about to take the lock, in a pending queue, in a
      dispatched block, or called. */
  function Places(s: State, h: Handle): nat
  {
    InReading(s.reading, h) + Pending(s, h) + InQueue(s.queue, h) + TimesCalled(s.calls, h)
  }

  /** The handle that an event submits, counted. */
  function Brings(e: Event, h: Handle): nat
  {
    match e
    case Adapt(op, _) => if AdaptHandle(op) == h then 1 else 0
    case RetryRead(c, _) => if RetryHandle(c) == h then 1 else 0
    case _ => 0
  }

  function TimesSubmitted(events: seq<Event>, h: Handle): nat
  {
    if events == [] then 0 else Brings(events[0], h) + TimesSubmitted(events[1..], h)
  }

  lemma {:induction false} QueuePush(queue: seq<Job>, job: Job, h: Handle)
    ensures InQueue(queue + [job], h) == InQueue(queue, h) + InBlock(job, h)
  {
    hide InBlock;
    if queue == [] {
    } else {
      assert (queue + [job])[1..] == queue[1..] + [job];
      QueuePush(queue[1..], job, h);
    }
  }

  lemma {:induction false} CallsPush(calls: seq<Call>, call: Call, h: Handle)
    ensures TimesCalled(calls + [call], h) == TimesCalled(calls, h) + if HandleOf(call) == h then 1 else 0
  {
    hide HandleOf;
    if calls == [] {
    } else {
      assert (calls + [call])[1..] == calls[1..] + [call];
      CallsPush(calls[1..], call, h);
    }
  }

  lemma {:induction false} ReadingPush(reading: seq<Reading>, r: Reading, h: Handle)
    ensures InReading(reading + [r], h) == InReading(reading, h) + if RetryHandle(r.completion) == h then 1 else 0
  {
    if reading == [] {
    } else {
      assert (reading + [r])[1..] == reading[1..] + [r];
      ReadingPush(reading[1..], r, h);
    }
  }

  lemma {:induction false} ReadingTake(reading: seq<Reading>, k: nat, h: Handle)
    requires k < |reading|
    ensures InReading(reading, h) ==
            InReading(reading[..k] + reading[k + 1..], h) + if RetryHandle(reading[k].completion) == h then 1 else 0
  {
    var left := reading[..k] + reading[k + 1..];
    if k == 0 {
      assert left == reading[1..];
    } else {
      assert left[1..] == reading[1..][..k - 1] + reading[1..][k..];
      ReadingTake(reading[1..], k - 1, h);
    }
  }

  lemma CallKeeps(s: State, call: Call, h: Handle)
    ensures Places(Called(s, call), h) == Places(s, h) + if HandleOf(call) == h then 1 else 0
  {
    CallsPush(s.calls, call, h);
    hide InReading, Pending, InQueue, TimesCalled, HandleOf;
    assert Pending(Called(s, call), h) == Pending(s, h) by { PendingSame(s, Called(s, call), h); }
  }

  lemma PendingSame(s: State, t: State, h: Handle)
    requires s.adaptOperations == t.adaptOperations && s.requestsToRetry == t.requestsToRetry
    ensures Pending(s, h) == Pending(t, h)
  {
  }

  lemma FlushKeeps(s: State, job: Job, h: Handle)
    requires !job.RefreshJob? && job.adapts == s.adaptOperations && job.retries == s.requestsToRetry
    ensures Places(Flushed(s, job), h) == Places(s, h)
  {
    hide InReading, InQueue, TimesCalled;
    QueuePush(s.queue, job, h);
  }

  lemma AnswerKeeps(s: State, result: RefreshResult, h: Handle)
    ensures Places(Answered(s, result), h) == Places(s, h)
  {
    hide InReading, InQueue, TimesCalled, Count, Flushed;
    match result
    case Success(credential) => FlushKeeps(s.(credential := Some(credential)),
      SuccessJob(s.adaptOperations, s.requestsToRetry), h);
    case Failure(error) => FlushKeeps(s, FailureJob(error, s.adaptOperations, s.requestsToRetry), h);
  }

  lemma RefreshKeeps(s: State, credential: Credential, moment: Moment, h: Handle)
    ensures Places(Refreshing(s, credential, moment), h) == Places(s, h)
  {
    hide InReading, InQueue, TimesCalled, Count, Excessive;
    QueuePush(s.queue, RefreshJob(credential), h);
    FlushKeeps(s, FailureJob(ExcessiveRefresh, s.adaptOperations, s.requestsToRetry), h);
  }

  lemma AdaptTakes(s: State, op: AdaptOperation, moment: Moment, h: Handle)
    ensures Places(Adapting(s, op, moment), h) == Places(s, h) + if AdaptHandle(op) == h then 1 else 0
  {
    hide InReading, InQueue, TimesCalled, Count, Excessive, Refreshing, Called;
    var queued := s.(adaptOperations := s.adaptOperations + [op]);
    if h.AdaptHandle? { CountPush(s.adaptOperations, h.op, op); }
    if s.credential.Some? {
      RefreshKeeps(queued, s.credential.value, moment, h);
      CallKeeps(s, AdaptCall(op, Adapted(s.credential.value)), h);
    } else {
      CallKeeps(s, AdaptCall(op, AdaptFailed(MissingCredential)), h);
    }
  }

  lemma RetryTakes(s: State, completion: nat, verdict: Verdict, h: Handle)
    ensures Places(RetryReading(s, completion, verdict), h) ==
            Places(s, h) + if RetryHandle(completion) == h then 1 else 0
  {
    hide InReading, InQueue, TimesCalled, Count, Called;
    CallKeeps(s, RetryCall(completion, DoNotRetry), h);
    CallKeeps(s, RetryCall(completion, DoNotRetryWithError(MissingCredential)), h);
    CallKeeps(s, RetryCall(completion, Retry), h);
    if s.credential.Some? { ReadingPush(s.reading, Reading(completion, s.credential.value), h); }
  }

  lemma RetryLockKeeps(s: State, k: nat, moment: Moment, h: Handle)
    requires k < |s.reading|
    ensures Places(RetryLocked(s, k, moment), h) == Places(s, h)
  {
    hide InReading, InQueue, TimesCalled, Count, Excessive, Refreshing;
    var r := s.reading[k];
    var queued := s.(reading := s.reading[..k] + s.reading[k + 1..],
      requestsToRetry := s.requestsToRetry + [r.completion]);
    if h.RetryHandle? { CountPush(s.requestsToRetry, h.completion, r.completion); }
    ReadingTake(s.reading, k, h);
    RefreshKeeps(queued, r.credential, moment, h);
  }

  /** Replacing the running block. */
  lemma BlockReplaced(s: State, job: Job, h: Handle)
    requires s.queue != []
    ensures Places(s.(queue := [job] + s.queue[1..]), h) + InBlock(s.queue[0], h) == Places(s, h) + InBlock(job, h)
    ensures Places(s.(queue := s.queue[1..]), h) + InBlock(s.queue[0], h) == Places(s, h)
  {
    assert ([job] + s.queue[1..])[1..] == s.queue[1..];
    assert InQueue([job] + s.queue[1..], h) == InBlock(job, h) + InQueue(s.queue[1..], h);
    hide InReading, InQueue, TimesCalled, Count, InBlock;
  }

  lemma NextItem(job: Job, h: Handle)
    requires !job.RefreshJob?
    ensures job.adapts != [] ==>
              InBlock(job, h) == InBlock(job.(adapts := job.adapts[1..]), h)
                + if AdaptHandle(job.adapts[0]) == h then 1 else 0
    ensures job.retries != [] ==>
              InBlock(job, h) == InBlock(job.(retries := job.retries[1..]), h)
                + if RetryHandle(job.retries[0]) == h then 1 else 0
    ensures job.adapts == [] && job.retries == [] ==> InBlock(job, h) == 0
  {
  }

  lemma ItemKeeps(s: State, moment: Moment, h: Handle)
    requires s.queue != []
    ensures Places(RunningItem(s, moment), h) == Places(s, h)
  {
    var job := s.queue[0];
    assert job.RefreshJob? ==> InBlock(job, h) == 0;
    if job.RefreshJob? {
      BlockReplaced(s, job, h);
      assert Places(RunningItem(s, moment), h) == Places(s.(queue := s.queue[1..]), h);
      return;
    }
    NextItem(job, h);
    hide Places, Adapting, InBlock, Called;
    if job.adapts != [] {
      var next := job.(adapts := job.adapts[1..]);
      var popped := s.(queue := [next] + s.queue[1..]);
      BlockReplaced(s, next, h);
      if job.SuccessJob? {
        AdaptTakes(popped, job.adapts[0], moment, h);
      } else {
        CallKeeps(popped, AdaptCall(job.adapts[0], AdaptFailed(job.error)), h);
      }
    } else if job.retries != [] {
      var next := job.(retries := job.retries[1..]);
      var popped := s.(queue := [next] + s.queue[1..]);
      BlockReplaced(s, next, h);
      CallKeeps(popped, RetryCall(job.retries[0],
        if job.SuccessJob? then Retry else DoNotRetryWithError(job.error)), h);
    } else {
      BlockReplaced(s, job, h);
    }
  }

  lemma StepConserves(s: State, e: Event, h: Handle)
    requires Enabled(s, e)
    ensures Places(Step(s, e), h) == Places(s, h) + Brings(e, h)
  {
    hide InReading, InQueue, TimesCalled, Count, Adapting, RetryReading, RetryLocked, RunningItem, Answered;
    match e
    case Adapt(op, moment) => AdaptTakes(s, op, moment, h);
    case RetryRead(completion, verdict) => RetryTakes(s, completion, verdict, h);
    case RetryLock(k, moment) => RetryLockKeeps(s, k, moment, h);
    case Run(moment) => ItemKeeps(s, moment, h);
    case Answer(result) => AnswerKeeps(s.(inFlight := s.inFlight - 1, answered := s.answered + 1), result, h);
    case AnswerAgain(result) => AnswerKeeps(s, result, h);
    case SetCredential(_) =>
  }

  /** Over every interleaving, even with an authenticator that answers a refresh several times,
      each submission is in exactly one place: about to take the lock, in a pending queue, in a
      dispatched block, or called. */
  lemma {:induction false} ExactlyOnePlace(s: State, events: seq<Event>, t: State, h: Handle)
    requires Runs(s, events, t)
    ensures Places(t, h) == Places(s, h) + TimesSubmitted(events, h)
    decreases |events|
  {
    hide Places, Step;
    if events == [] {
    } else {
      StepConserves(s, events[0], h);
      ExactlyOnePlace(Step(s, events[0]), events[1..], t, h);
    }
  }

  // --------------------------------------------------------------------------
  // One refresh at a time, and nothing is stranded
  // --------------------------------------------------------------------------

  /** Outside a refresh nothing is pending. */
  predicate NothingPending(s: State)
  {
    !s.isRefreshing ==> s.adaptOperations == [] && s.requestsToRetry == []
  }

  function RefreshJobs(queue: seq<Job>): nat
  {
    if queue == [] then 0 else RefreshJobs(queue[1..]) + if queue[0].RefreshJob? then 1 else 0
  }

  /** The refreshes dispatched or in flight. */
  function Outstanding(s: State): nat
  {
    RefreshJobs(s.queue) + s.inFlight
  }

  /** A refresh is dispatched or in flight exactly while `isRefreshing` is set, and only one. */
  predicate OneRefresh(s: State)
  {
    Outstanding(s) == if s.isRefreshing then 1 else 0
  }

  lemma {:induction false} RefreshJobsPush(queue: seq<Job>, job: Job)
    ensures RefreshJobs(queue + [job]) == RefreshJobs(queue) + if job.RefreshJob? then 1 else 0
  {
    if queue == [] {
    } else {
      assert (queue + [job])[1..] == queue[1..] + [job];
      RefreshJobsPush(queue[1..], job);
    }
  }

  lemma StepPending(s: State, e: Event)
    requires Enabled(s, e) && NothingPending(s)
    ensures NothingPending(Step(s, e))
  {
    hide Excessive;
  }

  /** How a step that is no answer moves the flag and the count: while refreshing neither changes;
      otherwise a refresh is started exactly if the flag is set. */
  predicate Starts(s: State, t: State)
  {
    if s.isRefreshing then t.isRefreshing && Outstanding(t) == Outstanding(s)
    else Outstanding(t) == Outstanding(s) + if t.isRefreshing then 1 else 0
  }

  lemma RefreshingStarts(s: State, credential: Credential, moment: Moment)
    requires !s.isRefreshing
    ensures Starts(s, Refreshing(s, credential, moment))
  {
    hide Excessive, RefreshJobs;
    RefreshJobsPush(s.queue, RefreshJob(credential));
    RefreshJobsPush(s.queue, FailureJob(ExcessiveRefresh, s.adaptOperations, s.requestsToRetry));
  }

  lemma AdaptingStarts(s: State, op: AdaptOperation, moment: Moment)
    ensures Starts(s, Adapting(s, op, moment))
  {
    hide Refreshing, RefreshJobs;
    if !s.isRefreshing && s.credential.Some? {
      RefreshingStarts(s.(adaptOperations := s.adaptOperations + [op]), s.credential.value, moment);
    }
  }

  lemma BlockCount(queue: seq<Job>, job: Job)
    requires queue != []
    ensures RefreshJobs([job] + queue[1..]) + (if queue[0].RefreshJob? then 1 else 0) ==
            RefreshJobs(queue) + if job.RefreshJob? then 1 else 0
    ensures RefreshJobs(queue[1..]) + (if queue[0].RefreshJob? then 1 else 0) == RefreshJobs(queue)
  {
    assert ([job] + queue[1..])[1..] == queue[1..];
  }

  lemma ItemStarts(s: State, moment: Moment)
    requires s.queue != []
    ensures Starts(s, RunningItem(s, moment))
  {
    hide Adapting, RefreshJobs;
    var job := s.queue[0];
    BlockCount(s.queue, job);
    if !job.RefreshJob? && (job.adapts != [] || job.retries != []) {
      var next := if job.adapts != [] then job.(adapts := job.adapts[1..]) else job.(retries := job.retries[1..]);
      BlockCount(s.queue, next);
      if job.adapts != [] && job.SuccessJob? { AdaptingStarts(s.(queue := [next] + s.queue[1..]),
        job.adapts[0], moment); }
    }
  }

  lemma AnswerEnds(s: State, result: RefreshResult)
    ensures !Answered(s, result).isRefreshing && Outstanding(Answered(s, result)) == Outstanding(s)
  {
    hide RefreshJobs;
    RefreshJobsPush(s.queue, SuccessJob(s.adaptOperations, s.requestsToRetry));
    if result.Failure? { RefreshJobsPush(s.queue, FailureJob(result.error, s.adaptOperations, s.requestsToRetry)); }
  }

  /** A repeated answer keeps the flag in step with the count if and only if it comes while no refresh
      is under way. */
  lemma RepeatedAnswer(s: State, result: RefreshResult)
    requires OneRefresh(s)
    ensures OneRefresh(Answered(s, result)) <==> !s.isRefreshing
  {
    hide Answered, Outstanding;
    AnswerEnds(s, result);
  }

  /** The flag and the count over a step: a first answer takes one refresh off, a repeated one
      clears the flag only. */
  lemma StepRefreshes(s: State, e: Event)
    requires Enabled(s, e)
    ensures var t := Step(s, e);
            if e.Answer? then !t.isRefreshing && Outstanding(t) + 1 == Outstanding(s)
            else if e.AnswerAgain? then !t.isRefreshing && Outstanding(t) == Outstanding(s)
            else Starts(s, t)
  {
    hide RefreshJobs, Adapting, RunningItem, Answered, Refreshing;
    match e
    case Adapt(op, moment) => AdaptingStarts(s, op, moment);
    case RetryRead(completion, verdict) =>
    case RetryLock(k, moment) =>
      var r := s.reading[k];
      var queued := s.(reading := s.reading[..k] + s.reading[k + 1..],
        requestsToRetry := s.requestsToRetry + [r.completion]);
      if !s.isRefreshing { RefreshingStarts(queued, r.credential, moment); }
    case Run(moment) => ItemStarts(s, moment);
    case Answer(result) => AnswerEnds(s.(inFlight := s.inFlight - 1, answered := s.answered + 1), result);
    case AnswerAgain(result) => AnswerEnds(s, result);
    case SetCredential(_) =>
  }

  /** In every reachable state nothing is pending outside a refresh. */
  lemma {:induction false} PendingOnlyWhileRefreshing(s: State, events: seq<Event>, t: State)
    requires Runs(s, events, t) && NothingPending(s)
    ensures NothingPending(t)
    decreases |events|
  {
    hide Step, NothingPending;
    if events == [] {
    } else {
      StepPending(s, events[0]);
      PendingOnlyWhileRefreshing(Step(s, events[0]), events[1..], t);
    }
  }

  /** In every state of the run the flag is set exactly while one refresh is out. */
  predicate OneRefreshThroughout(s: State, events: seq<Event>)
    decreases |events|
  {
    OneRefresh(s) && (events != [] && Enabled(s, events[0]) ==> OneRefreshThroughout(Step(s, events[0]), events[1..]))
  }

  /** Every repeated answer of the run comes while no refresh is under way. */
  predicate RepeatsComeIdle(s: State, events: seq<Event>)
    decreases |events|
  {
    events != [] && Enabled(s, events[0]) ==>
      (events[0].AnswerAgain? ==> !s.isRefreshing) && RepeatsComeIdle(Step(s, events[0]), events[1..])
  }

  /** Over every run the flag is set exactly while one refresh is out, in every state, if and only if
      every repeated answer comes while none is under way. */
  lemma {:induction false} OneRefreshExactly(s: State, events: seq<Event>, t: State)
    requires Runs(s, events, t) && OneRefresh(s)
    ensures OneRefreshThroughout(s, events) <==> RepeatsComeIdle(s, events)
    ensures RepeatsComeIdle(s, events) ==> OneRefresh(t)
    decreases |events|
  {
    if events == [] {
    } else {
      hide Step, Outstanding;
      var e := events[0];
      StepRefreshes(s, e);
      assert OneRefresh(Step(s, e)) <==> (e.AnswerAgain? ==> !s.isRefreshing);
      if OneRefresh(Step(s, e)) { OneRefreshExactly(Step(s, e), events[1..], t); }
    }
  }

  lemma {:induction false} NoRepeats(s: State, events: seq<Event>)
    requires forall e | e in events :: !e.AnswerAgain?
    ensures RepeatsComeIdle(s, events)
    decreases |events|
  {
    hide Step, Enabled;
    if events == [] {
    } else {
      assert events[0] in events;
      if Enabled(s, events[0]) { NoRepeats(Step(s, events[0]), events[1..]); }
    }
  }

  /** If each refresh is answered once, at most one is dispatched or in flight. */
  lemma AtMostOneRefresh(s: State, events: seq<Event>, t: State)
    requires Runs(s, events, t) && OneRefresh(s)
    requires forall e | e in events :: !e.AnswerAgain?
    ensures OneRefreshThroughout(s, events) && OneRefresh(t) && t.inFlight <= 1
  {
    NoRepeats(s, events);
    OneRefreshExactly(s, events, t);
    hide OneRefreshThroughout, RepeatsComeIdle, Runs;
  }

  /** A refresh of the stored credential is wanted at this moment and not refused. */
  predicate RefreshesNow(s: State, moment: Moment)
  {
    s.credential.Some? && moment.requiresRefresh && !Excessive(s, moment.check)
  }

  /** The event starts a refresh: no refresh is marked as under way, and adapt, for a caller or out of
      a dispatched block, finds one wanted, or a retry is not refused one. */
  predicate StartsRefresh(s: State, e: Event)
  {
    && !s.isRefreshing
    && match e
       case Adapt(_, moment) => RefreshesNow(s, moment)
       case RetryLock(_, moment) => !Excessive(s, moment.check)
       case Run(moment) => s.queue != [] && s.queue[0].SuccessJob? && s.queue[0].adapts != [] && RefreshesNow(s, moment)
       case _ => false
  }

  lemma StartsExactly(s: State, e: Event)
    requires Enabled(s, e)
    ensures StartsRefresh(s, e) <==> !s.isRefreshing && Step(s, e).isRefreshing
  {
    hide Attempts;
  }

  /** At most one refresh is dispatched or in flight, in every state of the run. */
  predicate AtMostOneOut(s: State, events: seq<Event>)
    decreases |events|
  {
    Outstanding(s) <= 1 && (events != [] && Enabled(s, events[0]) ==> AtMostOneOut(Step(s, events[0]), events[1..]))
  }

  /** No event of the run starts a refresh while another is out. */
  predicate NoneStartsBeside(s: State, events: seq<Event>)
    decreases |events|
  {
    events != [] && Enabled(s, events[0]) ==>
      !(StartsRefresh(s, events[0]) && Outstanding(s) >= 1) && NoneStartsBeside(Step(s, events[0]), events[1..])
  }

  /** Over every run at most one refresh is out, in every state, if and only if no event starts one
      beside another, which can happen only when a repeated answer has cleared the flag. */
  lemma {:induction false} AtMostOneExactly(s: State, events: seq<Event>, t: State)
    requires Runs(s, events, t) && Outstanding(s) <= 1
    ensures AtMostOneOut(s, events) <==> NoneStartsBeside(s, events)
    decreases |events|
  {
    hide Step, Outstanding, StartsRefresh, Enabled;
    if events == [] {
    } else {
      var e := events[0];
      StartsExactly(s, e);
      StepRefreshes(s, e);
      if Outstanding(Step(s, e)) <= 1 { AtMostOneExactly(Step(s, e), events[1..], t); }
    }
  }

  /** Whatever the authenticator does, while the flag is set a refresh is to be answered yet. */
  predicate RefreshToCome(s: State)
  {
    s.isRefreshing ==> Outstanding(s) >= 1
  }

  lemma {:induction false} RefreshAlwaysToCome(s: State, events: seq<Event>, t: State)
    requires Runs(s, events, t) && RefreshToCome(s)
    ensures RefreshToCome(t)
    decreases |events|
  {
    hide Step, Outstanding;
    if events == [] {
    } else {
      StepRefreshes(s, events[0]);
      RefreshAlwaysToCome(Step(s, events[0]), events[1..], t);
    }
  }

  /** Nothing left to run: the queue is empty, no refresh is out and no retry is on its way. */
  predicate Quiet(s: State)
  {
    s.queue == [] && s.inFlight == 0 && s.reading == []
  }

  /** Nothing is stranded, even by an authenticator that answers several times: once the interceptor
      is quiet, every completion submitted since the start has been called exactly as often as it
      was submitted. */
  lemma EveryCompletionCalled(credential: Option<Credential>, window: Option<RefreshWindow>, events: seq<Event>,
                              t: State, h: Handle)
    requires Runs(Initial(credential, window), events, t) && Quiet(t)
    ensures TimesCalled(t.calls, h) == TimesSubmitted(events, h)
  {
    var s := Initial(credential, window);
    InitialPlaces(credential, window, h);
    hide Step, Runs, Places, RefreshToCome, NothingPending, TimesCalled, TimesSubmitted, Initial;
    ExactlyOnePlace(s, events, t, h);
    PendingOnlyWhileRefreshing(s, events, t);
    RefreshAlwaysToCome(s, events, t);
    QuietPlaces(t, h);
  }

  lemma InitialPlaces(credential: Option<Credential>, window: Option<RefreshWindow>, h: Handle)
    ensures var s := Initial(credential, window);
            Places(s, h) == 0 && OneRefresh(s) && RefreshToCome(s) && NothingPending(s)
  {
  }

  lemma QuietPlaces(t: State, h: Handle)
    requires Quiet(t) && NothingPending(t) && RefreshToCome(t)
    ensures Places(t, h) == TimesCalled(t.calls, h)
  {
  }

  lemma RunsCons(s: State, e: Event, next: State, events: seq<Event>, t: State)
    requires Enabled(s, e) && Step(s, e) == next && Runs(next, events, t)
    ensures Runs(s, [e] + events, t)
  {
    hide Step, Enabled;
    assert ([e] + events)[1..] == events;
  }

  /** A run in which a repeated answer does come during a refresh: the operation that arrives in
      between has its refresh forgotten, and the next one starts a second refresh beside it. */
  lemma AnsweringTwiceOverlaps(op: AdaptOperation, result: RefreshResult, moment: Moment)
    returns (events: seq<Event>, t: State)
    requires result == Success(Credential(0)) && moment.requiresRefresh
    ensures Runs(Initial(Some(Credential(0)), None), events, t)
    ensures RefreshJobs(t.queue) + t.inFlight == 2
  {
    var refresh, done := RefreshJob(Credential(0)), SuccessJob([op], []);
    var s0 := Initial(Some(Credential(0)), None);
    var s1 := Step(s0, Adapt(op, moment));
    assert s1.queue == [refresh] && s1.adaptOperations == [op];
    var s2 := Step(s1, Run(moment));
    assert s2.queue == [] && s2.inFlight == 1;
    var s3 := Step(s2, Answer(result));
    assert s3.queue == [done] && !s3.isRefreshing;
    var s4 := Step(s3, Adapt(op, moment));
    assert s4.queue == [done, refresh] && s4.adaptOperations == [op];
    var s5 := Step(s4, AnswerAgain(result));
    assert s5.queue == [done, refresh, done] && !s5.isRefreshing;
    t := Step(s5, Adapt(op, moment));
    assert t.queue == [done, refresh, done] + [refresh];
    hide Step;
    RefreshJobsPush([], done);
    RefreshJobsPush([done], refresh);
    RefreshJobsPush([done, refresh], done);
    RefreshJobsPush([done, refresh, done], refresh);
    assert Runs(t, [], t);
    hide Runs;
    RunsCons(s5, Adapt(op, moment), t, [], t);
    events := [Adapt(op, moment)] + [];
    RunsCons(s4, AnswerAgain(result), s5, events, t);
    events := [AnswerAgain(result)] + events;
    RunsCons(s3, Adapt(op, moment), s4, events, t);
    events := [Adapt(op, moment)] + events;
    RunsCons(s2, Answer(result), s3, events, t);
    events := [Answer(result)] + events;
    RunsCons(s1, Run(moment), s2, events, t);
    events := [Run(moment)] + events;
    RunsCons(s0, Adapt(op, moment), s1, events, t);
    events := [Adapt(op, moment)] + events;
  }
}
