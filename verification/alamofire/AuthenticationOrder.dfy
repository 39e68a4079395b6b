/** Submissions that wait are served in the order in which they came. */
module AuthenticationOrder {
  import opened Options
  import opened Sequences
  import opened AuthenticationProtocol
  import opened AuthenticationLaws

  function BlockRetries(job: Job): seq<nat>
  {
    if job.RefreshJob? then [] else job.retries
  }

  function BlockAdapts(job: Job): seq<AdaptOperation>
  {
    if job.RefreshJob? then [] else job.adapts
  }

  function QueuedRetries(queue: seq<Job>): seq<nat>
  {
    if queue == [] then [] else BlockRetries(queue[0]) + QueuedRetries(queue[1..])
  }

  function QueuedAdapts(queue: seq<Job>): seq<AdaptOperation>
  {
    if queue == [] then [] else BlockAdapts(queue[0]) + QueuedAdapts(queue[1..])
  }

  /** The retries that wait: those of dispatched blocks in front, the pending ones behind. */
  function RetryLine(s: State): seq<nat>
  {
    QueuedRetries(s.queue) + s.requestsToRetry
  }

  function AdaptLine(s: State): seq<AdaptOperation>
  {
    QueuedAdapts(s.queue) + s.adaptOperations
  }

  /** The retry that the event puts into the line: the one that takes the lock. */
  function Locks(s: State, e: Event): seq<nat>
  {
    if e.RetryLock? && e.k < |s.reading| then [s.reading[e.k].completion] else []
  }

  /** The call that a running block makes with this event. */
  function BlockCall(s: State, e: Event): seq<Call>
    requires Enabled(s, e)
  {
    var calls := Step(s, e).calls;
    if e.Run? && |calls| > |s.calls| then [calls[|calls| - 1]] else []
  }

  function RetriesOf(calls: seq<Call>): seq<nat>
  {
    if calls == [] then []
    else (if calls[0].RetryCall? then [calls[0].completion] else []) + RetriesOf(calls[1..])
  }

  function AdaptsOf(calls: seq<Call>): seq<AdaptOperation>
  {
    if calls == [] then [] else (if calls[0].AdaptCall? then [calls[0].op] else []) + AdaptsOf(calls[1..])
  }

  /** The operation at the head of a success block, when it is adapted again and has to wait again. */
  function Rejoins(s: State, e: Event): seq<AdaptOperation>
    requires Enabled(s, e)
  {
    if e.Run? && Step(s, e).calls == s.calls && BlockAdapts(s.queue[0]) != [] then AdaptLine(s)[..1] else []
  }

  /** The operation that the event puts into the line. */
  function Waits(s: State, e: Event): seq<AdaptOperation>
    requires Enabled(s, e)
  {
    if e.Adapt? && Step(s, e).calls == s.calls then [e.op] else Rejoins(s, e)
  }

  // --------------------------------------------------------------------------
  // One step
  // --------------------------------------------------------------------------

  lemma {:induction false} LinePush(queue: seq<Job>, job: Job)
    ensures QueuedRetries(queue + [job]) == QueuedRetries(queue) + BlockRetries(job)
    ensures QueuedAdapts(queue + [job]) == QueuedAdapts(queue) + BlockAdapts(job)
  {
    if queue == [] {
      assert [job][1..] == [] && [] + [job] == [job];
      Empties(BlockRetries(job));
      Empties(BlockAdapts(job));
    } else {
      hide QueuedRetries, QueuedAdapts, BlockRetries, BlockAdapts;
      assert (queue + [job])[1..] == queue[1..] + [job] && (queue + [job])[0] == queue[0];
      LineHead(queue, job);
      LineHead(queue + [job], job);
      LinePush(queue[1..], job);
      Regroup(BlockRetries(queue[0]), QueuedRetries(queue[1..]), BlockRetries(job), []);
      Regroup(BlockAdapts(queue[0]), QueuedAdapts(queue[1..]), BlockAdapts(job), []);
    }
  }

  lemma LineHead(queue: seq<Job>, job: Job)
    requires queue != []
    ensures QueuedRetries(queue) == BlockRetries(queue[0]) + QueuedRetries(queue[1..])
    ensures QueuedAdapts(queue) == BlockAdapts(queue[0]) + QueuedAdapts(queue[1..])
    ensures QueuedRetries([job] + queue[1..]) == BlockRetries(job) + QueuedRetries(queue[1..])
    ensures QueuedAdapts([job] + queue[1..]) == BlockAdapts(job) + QueuedAdapts(queue[1..])
  {
    hide BlockRetries, BlockAdapts;
    assert ([job] + queue[1..])[1..] == queue[1..];
  }

  /** A flush moves the pending submissions to the end of the dispatched ones: the lines stay. */
  lemma FlushKeepsLines(s: State, job: Job)
    requires !job.RefreshJob? && job.adapts == s.adaptOperations && job.retries == s.requestsToRetry
    ensures RetryLine(Flushed(s, job)) == RetryLine(s) && AdaptLine(Flushed(s, job)) == AdaptLine(s)
    ensures Flushed(s, job).calls == s.calls
  {
    hide QueuedRetries, QueuedAdapts;
    LinePush(s.queue, job);
  }

  lemma RefreshKeepsLines(s: State, c: Credential, moment: Moment)
    ensures var t := Refreshing(s, c, moment);
            RetryLine(t) == RetryLine(s) && AdaptLine(t) == AdaptLine(s) && t.calls == s.calls
  {
    hide QueuedRetries, QueuedAdapts, Excessive;
    FlushKeepsLines(s, FailureJob(ExcessiveRefresh, s.adaptOperations, s.requestsToRetry));
    LinePush(s.queue, RefreshJob(c));
    assert QueuedRetries(s.queue) + [] == QueuedRetries(s.queue);
    assert QueuedAdapts(s.queue) + [] == QueuedAdapts(s.queue);
  }

  lemma AnswerKeepsLines(s: State, result: RefreshResult)
    ensures var t := Answered(s, result);
            RetryLine(t) == RetryLine(s) && AdaptLine(t) == AdaptLine(s) && t.calls == s.calls
  {
    hide QueuedRetries, QueuedAdapts, Flushed;
    match result
    case Success(c) =>
      FlushKeepsLines(s.(credential := Some(c)), SuccessJob(s.adaptOperations, s.requestsToRetry));
    case Failure(error) => FlushKeepsLines(s, FailureJob(error, s.adaptOperations, s.requestsToRetry));
  }

  lemma AdaptJoins(s: State, op: AdaptOperation, moment: Moment)
    ensures var t := Adapting(s, op, moment);
            && RetryLine(t) == RetryLine(s)
            && (if t.calls == s.calls then AdaptLine(t) == AdaptLine(s) + [op]
                else AdaptLine(t) == AdaptLine(s) && |t.calls| == |s.calls| + 1 && t.calls[..|s.calls|] == s.calls
                     && t.calls[|s.calls|].AdaptCall? && t.calls[|s.calls|].op == op)
  {
    hide QueuedRetries, QueuedAdapts, Refreshing;
    var queued := s.(adaptOperations := s.adaptOperations + [op]);
    if s.credential.Some? { RefreshKeepsLines(queued, s.credential.value, moment); }
    assert AdaptLine(queued) == AdaptLine(s) + [op];
  }

  lemma LockJoins(s: State, k: nat, moment: Moment)
    requires k < |s.reading|
    ensures var t := RetryLocked(s, k, moment);
            AdaptLine(t) == AdaptLine(s) && RetryLine(t) == RetryLine(s) + [s.reading[k].completion]
            && t.calls == s.calls
  {
    hide QueuedRetries, QueuedAdapts, Refreshing;
    var r := s.reading[k];
    var queued := s.(reading := s.reading[..k] + s.reading[k + 1..],
      requestsToRetry := s.requestsToRetry + [r.completion]);
    RefreshKeepsLines(queued, r.credential, moment);
    assert RetryLine(queued) == RetryLine(s) + [r.completion];
  }

  /** What a running block does to the lines: it serves their heads, or sends the first operation
      back to the end. */
  predicate Serves(s: State, t: State, calls: seq<Call>, rejoins: seq<AdaptOperation>)
  {
    && RetryLine(s) == RetriesOf(calls) + RetryLine(t)
    && AdaptLine(s) + rejoins == AdaptsOf(calls) + rejoins + AdaptLine(t)
  }

  lemma OneCall(call: Call)
    ensures RetriesOf([call]) == (if call.RetryCall? then [call.completion] else [])
    ensures AdaptsOf([call]) == (if call.AdaptCall? then [call.op] else [])
    ensures RetriesOf([]) == [] && AdaptsOf([]) == []
  {
    assert [call][1..] == [];
  }

  lemma NoCalls()
    ensures RetriesOf([]) == [] && AdaptsOf([]) == []
  {
  }

  lemma RetryLeaves(s: State)
    requires s.queue != [] && BlockAdapts(s.queue[0]) == []
    ensures var retries, popped := BlockRetries(s.queue[0]), s.(queue := s.queue[1..]);
            && (retries == [] ==> RetryLine(s) == RetryLine(popped) && AdaptLine(s) == AdaptLine(popped))
            && (retries != [] ==>
                  var next := s.queue[0].(retries := retries[1..]);
                  && RetryLine(s) == [retries[0]] + RetryLine(s.(queue := [next] + s.queue[1..]))
                  && AdaptLine(s) == AdaptLine(s.(queue := [next] + s.queue[1..])))
  {
    hide QueuedRetries, QueuedAdapts;
    var job := s.queue[0];
    LineHead(s.queue, job);
    Empties(QueuedRetries(s.queue[1..]));
    Empties(QueuedAdapts(s.queue[1..]));
    if !job.RefreshJob? && job.retries != [] {
      LineHead(s.queue, job.(retries := job.retries[1..]));
      HeadAndRest(job.retries);
      Regroup([job.retries[0]], job.retries[1..], QueuedRetries(s.queue[1..]), s.requestsToRetry);
    }
  }

  /** A block whose item is a retry, or that has none left. */
  lemma RetryServes(s: State, moment: Moment)
    requires s.queue != [] && BlockAdapts(s.queue[0]) == []
    ensures Serves(s, Step(s, Run(moment)), BlockCall(s, Run(moment)), Rejoins(s, Run(moment)))
  {
    RetryLeaves(s);
    hide AdaptLine, RetryLine, QueuedRetries, QueuedAdapts, Adapting, RetriesOf, AdaptsOf;
    var job, t := s.queue[0], Step(s, Run(moment));
    NoCalls();
    Empties(RetryLine(t));
    Empties(AdaptLine(t));
    if BlockRetries(job) == [] {
      SameLines(s.(queue := s.queue[1..]), t);
    } else {
      SameLines(s.(queue := [job.(retries := job.retries[1..])] + s.queue[1..]), t);
      OneCall(t.calls[|t.calls| - 1]);
    }
  }

  /** A block whose item is an adapt operation. */
  lemma AdaptServes(s: State, moment: Moment)
    requires s.queue != [] && BlockAdapts(s.queue[0]) != []
    ensures Serves(s, Step(s, Run(moment)), BlockCall(s, Run(moment)), Rejoins(s, Run(moment)))
  {
    hide QueuedRetries, QueuedAdapts, Adapting, RetriesOf, AdaptsOf;
    var job, t := s.queue[0], Step(s, Run(moment));
    var next, op := job.(adapts := job.adapts[1..]), job.adapts[0];
    var popped := s.(queue := [next] + s.queue[1..]);
    HeadLeaves(s, popped);
    NoCalls();
    Empties(RetryLine(t));
    if job.SuccessJob? { AdaptJoins(popped, op, moment); }
    hide AdaptLine, RetryLine;
    if t.calls != s.calls {
      OneCall(t.calls[|t.calls| - 1]);
      Empties([op]);
      Empties(AdaptLine(s));
    } else {
      assert AdaptLine(s)[..1] == [op];
      Empties([op]);
      assert [op] + AdaptLine(popped) + [op] == [op] + (AdaptLine(popped) + [op]);
    }
  }

  lemma HeadLeaves(s: State, popped: State)
    requires s.queue != [] && BlockAdapts(s.queue[0]) != []
    requires popped == s.(queue := [s.queue[0].(adapts := s.queue[0].adapts[1..])] + s.queue[1..])
    ensures AdaptLine(s) == [s.queue[0].adapts[0]] + AdaptLine(popped) && RetryLine(s) == RetryLine(popped)
  {
    hide QueuedRetries, QueuedAdapts;
    var job := s.queue[0];
    LineHead(s.queue, job.(adapts := job.adapts[1..]));
    HeadAndRest(job.adapts);
    Regroup([job.adapts[0]], job.adapts[1..], QueuedAdapts(s.queue[1..]), s.adaptOperations);
  }

  lemma StepServes(s: State, e: Event)
    requires Enabled(s, e)
    ensures var t, calls := Step(s, e), BlockCall(s, e);
            && RetryLine(s) + Locks(s, e) == RetriesOf(calls) + RetryLine(t)
            && AdaptLine(s) + Waits(s, e) == AdaptsOf(calls) + Rejoins(s, e) + AdaptLine(t)
  {
    hide RetryLine, AdaptLine, QueuedRetries, QueuedAdapts, Adapting, RetryLocked, RunningItem, Answered, Called,
         RetriesOf, AdaptsOf, BlockAdapts;
    NoCalls();
    Empties(RetryLine(s));
    Empties(AdaptLine(s));
    Empties(AdaptLine(Step(s, e)));
    Empties(RetryLine(Step(s, e)));
    match e
    case Run(moment) =>
      if BlockAdapts(s.queue[0]) == [] { RetryServes(s, moment); } else { AdaptServes(s, moment); }
    case Adapt(op, moment) => AdaptJoins(s, op, moment);
    case RetryLock(k, moment) => LockJoins(s, k, moment);
    case Answer(result) =>
      var counted := s.(inFlight := s.inFlight - 1, answered := s.answered + 1);
      AnswerKeepsLines(counted, result);
      SameLines(s, counted);
    case AnswerAgain(result) => AnswerKeepsLines(s, result);
    case RetryRead(completion, verdict) => ReadKeepsLines(s, completion, verdict);
    case SetCredential(c) => SameLines(s, s.(credential := c));
  }

  lemma SameLines(s: State, t: State)
    requires s.queue == t.queue && s.adaptOperations == t.adaptOperations && s.requestsToRetry == t.requestsToRetry
    ensures RetryLine(s) == RetryLine(t) && AdaptLine(s) == AdaptLine(t)
  {
  }

  lemma ReadKeepsLines(s: State, completion: nat, verdict: Verdict)
    ensures var t := RetryReading(s, completion, verdict); RetryLine(s) == RetryLine(t) && AdaptLine(s) == AdaptLine(t)
  {
    SameLines(s, RetryReading(s, completion, verdict));
  }

  // --------------------------------------------------------------------------
  // Whole runs
  // --------------------------------------------------------------------------

  function LockedBy(s: State, events: seq<Event>): seq<nat>
    decreases |events|
  {
    if events == [] || !Enabled(s, events[0]) then []
    else Locks(s, events[0]) + LockedBy(Step(s, events[0]), events[1..])
  }

  /** The calls that running blocks make, in order. */
  function BlockCalls(s: State, events: seq<Event>): seq<Call>
    decreases |events|
  {
    if events == [] || !Enabled(s, events[0]) then []
    else BlockCall(s, events[0]) + BlockCalls(Step(s, events[0]), events[1..])
  }

  lemma OfHead(calls: seq<Call>)
    requires calls != []
    ensures RetriesOf(calls) == RetriesOf([calls[0]]) + RetriesOf(calls[1..])
    ensures AdaptsOf(calls) == AdaptsOf([calls[0]]) + AdaptsOf(calls[1..])
  {
    OneCall(calls[0]);
  }

  lemma {:induction false} OfConcat(a: seq<Call>, b: seq<Call>)
    ensures RetriesOf(a + b) == RetriesOf(a) + RetriesOf(b) && AdaptsOf(a + b) == AdaptsOf(a) + AdaptsOf(b)
  {
    hide RetriesOf, AdaptsOf;
    if a == [] {
      NoCalls();
      Empties(b);
      Empties(RetriesOf(b));
      Empties(AdaptsOf(b));
    } else {
      assert (a + b)[1..] == a[1..] + b && (a + b)[0] == a[0];
      OfHead(a);
      OfHead(a + b);
      OfConcat(a[1..], b);
      Regroup(RetriesOf([a[0]]), RetriesOf(a[1..]), RetriesOf(b), []);
      Regroup(AdaptsOf([a[0]]), AdaptsOf(a[1..]), AdaptsOf(b), []);
    }
  }

  /** Over every run retries are released, or refused, in the order in which they took the lock. */
  lemma {:induction false} RetriesInOrder(s: State, events: seq<Event>, t: State)
    requires Runs(s, events, t)
    ensures RetryLine(s) + LockedBy(s, events) == RetriesOf(BlockCalls(s, events)) + RetryLine(t)
    decreases |events|
  {
    hide Step, RetryLine, RetriesOf, Locks, BlockCall, AdaptLine, AdaptsOf, Waits, Rejoins;
    if events == [] {
      NoCalls();
      Empties(RetryLine(s));
    } else {
      var e, next := events[0], Step(s, events[0]);
      StepServes(s, e);
      RetriesInOrder(next, events[1..], t);
      OfConcat(BlockCall(s, e), BlockCalls(next, events[1..]));
      TwoSteps(RetryLine(s), Locks(s, e), RetriesOf(BlockCall(s, e)), RetryLine(next), LockedBy(next, events[1..]),
               RetriesOf(BlockCalls(next, events[1..])), RetryLine(t));
    }
  }

  /** The operations that wait, and wait again, in order; and those that leave the line, called or
      sent back. */
  function WaitedIn(s: State, events: seq<Event>): seq<AdaptOperation>
    decreases |events|
  {
    if events == [] || !Enabled(s, events[0]) then []
    else Waits(s, events[0]) + WaitedIn(Step(s, events[0]), events[1..])
  }

  function LeftLine(s: State, events: seq<Event>): seq<AdaptOperation>
    decreases |events|
  {
    if events == [] || !Enabled(s, events[0]) then []
    else AdaptsOf(BlockCall(s, events[0])) + Rejoins(s, events[0]) + LeftLine(Step(s, events[0]), events[1..])
  }

  /** Over every run adapt operations leave the line in the order in which they joined it. */
  lemma {:induction false} AdaptsInOrder(s: State, events: seq<Event>, t: State)
    requires Runs(s, events, t)
    ensures AdaptLine(s) + WaitedIn(s, events) == LeftLine(s, events) + AdaptLine(t)
    decreases |events|
  {
    hide Step, RetryLine, RetriesOf, Locks, BlockCall, AdaptLine, AdaptsOf, Waits, Rejoins;
    if events == [] {
      Empties(AdaptLine(s));
    } else {
      var e, next := events[0], Step(s, events[0]);
      StepServes(s, e);
      AdaptsInOrder(next, events[1..], t);
      TwoSteps(AdaptLine(s), Waits(s, e), AdaptsOf(BlockCall(s, e)) + Rejoins(s, e), AdaptLine(next),
               WaitedIn(next, events[1..]), LeftLine(next, events[1..]), AdaptLine(t));
    }
  }

  /** From the start to a quiet state, the retries that took the lock have been called, in that order. */
  lemma AllRetriesInOrder(credential: Option<Credential>, window: Option<RefreshWindow>, events: seq<Event>, t: State)
    requires Runs(Initial(credential, window), events, t) && Quiet(t)
    ensures RetriesOf(BlockCalls(Initial(credential, window), events)) ==
            LockedBy(Initial(credential, window), events)
  {
    var s := Initial(credential, window);
    assert NothingPending(s) && RefreshToCome(s) && RetryLine(s) == [];
    assert NothingPending(t) && RefreshToCome(t) ==> RetryLine(t) == [];
    hide RetryLine, NothingPending, RefreshToCome, Quiet, Step, Runs, LockedBy, BlockCalls, RetriesOf;
    RetriesInOrder(s, events, t);
    PendingOnlyWhileRefreshing(s, events, t);
    RefreshAlwaysToCome(s, events, t);
    Empties(LockedBy(s, events));
    Empties(RetriesOf(BlockCalls(s, events)));
  }
}
