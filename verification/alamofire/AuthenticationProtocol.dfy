/** The steps of Alamofire's AuthenticationInterceptor, each atomic under the lock it holds.

    Completion closures, requests and sessions are foreign: an adapt operation is its request and
    completion, a retry is its completion. What the authenticator answers is part of a step. */
module AuthenticationProtocol {
  import opened Options

  datatype Credential = Credential(token: nat)

  /** At most `maximumAttempts` refreshes within `interval`. */
  datatype RefreshWindow = RefreshWindow(interval: real, maximumAttempts: int)

  datatype Error = MissingCredential | ExcessiveRefresh | RefreshFailed(code: nat)

  datatype AdaptOperation = AdaptOperation(request: nat, completion: nat)

  datatype AdaptOutcome = Adapted(credential: Credential) | AdaptFailed(error: Error)

  datatype RetryOutcome = Retry | DoNotRetry | DoNotRetryWithError(error: Error)

  datatype RefreshResult = Success(credential: Credential) | Failure(error: Error)

  /** A call of a completion closure. */
  datatype Call = AdaptCall(op: AdaptOperation, adapt: AdaptOutcome) | RetryCall(completion: nat, retry: RetryOutcome)

  /** A block on the interceptor's serial dispatch queue. */
  datatype Job =
    | RefreshJob(credential: Credential)
    | SuccessJob(adapts: seq<AdaptOperation>, retries: seq<nat>)
    | FailureJob(error: Error, adapts: seq<AdaptOperation>, retries: seq<nat>)

  /** A retry that has read the credential and is about to take the lock. */
  datatype Reading = Reading(completion: nat, credential: Credential)

  /** What a step finds out at its moment: whether the stored credential requires a refresh by now,
      and the two readings of the system uptime that a refresh takes. */
  datatype Moment = Moment(requiresRefresh: bool, check: real, record: real)

  /** MutableState, and around it: the queue (its head is the running block), the refreshes the
      authenticator has not answered and has answered, the credentials it was asked to refresh, and
      the completions called. */
  datatype State = State(
    credential: Option<Credential>, isRefreshing: bool, refreshTimestamps: seq<real>,
    refreshWindow: Option<RefreshWindow>, adaptOperations: seq<AdaptOperation>, requestsToRetry: seq<nat>,
    queue: seq<Job>, inFlight: nat, answered: nat, handed: seq<Credential>, reading: seq<Reading>, calls: seq<Call>)

  function Initial(credential: Option<Credential>, window: Option<RefreshWindow>): State
  {
    State(credential, false, [], window, [], [], [], 0, 0, [], [], [])
  }

  function Attempts(timestamps: seq<real>, since: real): (n: nat)
    ensures n <= |timestamps|
  {
    if timestamps == [] then 0
    else Attempts(timestamps[..|timestamps| - 1], since) + if since <= timestamps[|timestamps| - 1] then 1 else 0
  }

  /** isRefreshExcessive */
  predicate Excessive(s: State, now: real)
  {
    s.refreshWindow.Some? &&
    Attempts(s.refreshTimestamps, now - s.refreshWindow.value.interval) >= s.refreshWindow.value.maximumAttempts
  }

  /** Both pending queues move into one block on the dispatch queue. */
  function Flushed(s: State, job: Job): State
  {
    s.(adaptOperations := [], requestsToRetry := [], isRefreshing := false, queue := s.queue + [job])
  }

  /** handleRefreshSuccess */
  function Succeeded(s: State, credential: Credential): State
  {
    Flushed(s.(credential := Some(credential)), SuccessJob(s.adaptOperations, s.requestsToRetry))
  }

  /** handleRefreshFailure */
  function RefreshFailing(s: State, error: Error): State
  {
    Flushed(s, FailureJob(error, s.adaptOperations, s.requestsToRetry))
  }

  /** refresh */
  function Refreshing(s: State, credential: Credential, moment: Moment): State
  {
    if Excessive(s, moment.check) then RefreshFailing(s, ExcessiveRefresh)
    else s.(refreshTimestamps := s.refreshTimestamps + [moment.record], isRefreshing := true,
            queue := s.queue + [RefreshJob(credential)])
  }

  function Called(s: State, call: Call): State
  {
    s.(calls := s.calls + [call])
  }

  /** adapt */
  function Adapting(s: State, op: AdaptOperation, moment: Moment): State
  {
    var queued := s.(adaptOperations := s.adaptOperations + [op]);
    if s.isRefreshing then queued
    else if s.credential.None? then Called(s, AdaptCall(op, AdaptFailed(MissingCredential)))
    else if moment.requiresRefresh then Refreshing(queued, s.credential.value, moment)
    else Called(s, AdaptCall(op, Adapted(s.credential.value)))
  }

  /** What the authenticator finds out about a failed request, and whether the request used the
      credential read by `retry`. */
  datatype Verdict = NoResponse | OtherError | AuthenticationError(usedCredential: bool)

  /** retry, up to the lock */
  function RetryReading(s: State, completion: nat, verdict: Verdict): State
  {
    if !verdict.AuthenticationError? then Called(s, RetryCall(completion, DoNotRetry))
    else if s.credential.None? then Called(s, RetryCall(completion, DoNotRetryWithError(MissingCredential)))
    else if !verdict.usedCredential then Called(s, RetryCall(completion, Retry))
    else s.(reading := s.reading + [Reading(completion, s.credential.value)])
  }

  /** retry, inside the lock */
  function RetryLocked(s: State, k: nat, moment: Moment): State
    requires k < |s.reading|
  {
    var r := s.reading[k];
    var queued := s.(reading := s.reading[..k] + s.reading[k + 1..],
      requestsToRetry := s.requestsToRetry + [r.completion]);
    if s.isRefreshing then queued else Refreshing(queued, r.credential, moment)
  }

  /** The authenticator answers a refresh. */
  function Answered(s: State, result: RefreshResult): State
  {
    match result
    case Success(credential) => Succeeded(s, credential)
    case Failure(error) => RefreshFailing(s, error)
  }

  /** The running block's next item: the adapt operations in order, then the retries. */
  function RunningItem(s: State, moment: Moment): State
    requires s.queue != []
  {
    match s.queue[0]
    case RefreshJob(c) => s.(queue := s.queue[1..], inFlight := s.inFlight + 1, handed := s.handed + [c])
    case SuccessJob(adapts, retries) =>
      if adapts != [] then Adapting(s.(queue := [SuccessJob(adapts[1..], retries)] + s.queue[1..]), adapts[0], moment)
      else if retries != [] then
        Called(s.(queue := [SuccessJob([], retries[1..])] + s.queue[1..]), RetryCall(retries[0], Retry))
      else s.(queue := s.queue[1..])
    case FailureJob(error, adapts, retries) =>
      if adapts != [] then
        Called(s.(queue := [FailureJob(error, adapts[1..], retries)] + s.queue[1..]),
          AdaptCall(adapts[0], AdaptFailed(error)))
      else if retries != [] then
        Called(s.(queue := [FailureJob(error, [], retries[1..])] + s.queue[1..]),
               RetryCall(retries[0], DoNotRetryWithError(error)))
      else s.(queue := s.queue[1..])
  }

  /** Everything that can happen: calls of the public methods from any thread, the dispatch queue
      making progress, and the authenticator answering, for the first time or again. */
  datatype Event =
    | Adapt(op: AdaptOperation, moment: Moment)
    | RetryRead(completion: nat, verdict: Verdict)
    | RetryLock(k: nat, moment: Moment)
    | Run(moment: Moment)
    | Answer(result: RefreshResult)
    | AnswerAgain(result: RefreshResult)
    | SetCredential(credential: Option<Credential>)

  predicate Enabled(s: State, e: Event)
  {
    match e
    case RetryLock(k, _) => k < |s.reading|
    case Run(_) => s.queue != []
    case Answer(_) => s.inFlight > 0
    case AnswerAgain(_) => s.answered > 0
    case _ => true
  }

  function Step(s: State, e: Event): State
    requires Enabled(s, e)
  {
    match e
    case Adapt(op, moment) => Adapting(s, op, moment)
    case RetryRead(completion, verdict) => RetryReading(s, completion, verdict)
    case RetryLock(k, moment) => RetryLocked(s, k, moment)
    case Run(moment) => RunningItem(s, moment)
    case Answer(result) => Answered(s.(inFlight := s.inFlight - 1, answered := s.answered + 1), result)
    case AnswerAgain(result) => Answered(s, result)
    case SetCredential(credential) => s.(credential := credential)
  }

  /** The events lead from s to t: one interleaving of every thread involved. */
  predicate Runs(s: State, events: seq<Event>, t: State)
    decreases |events|
  {
    if events == [] then s == t else Enabled(s, events[0]) && Runs(Step(s, events[0]), events[1..], t)
  }
}
