/** The AuthenticationInterceptor: methods that update the locked state in place. */
module AuthenticationInterceptor {
  import opened Options
  import opened AuthenticationProtocol

  class Interceptor {
    // MutableState
    var credential: Option<Credential>
    var isRefreshing: bool
    var refreshTimestamps: seq<real>
    var refreshWindow: Option<RefreshWindow>
    var adaptOperations: seq<AdaptOperation>
    var requestsToRetry: seq<nat>

    // The dispatch queue, the refreshes handed to the authenticator, the retries between reading
    // the credential and taking the lock, and the completions called.
    var queue: seq<Job>
    var inFlight: nat
    var answered: nat
    var handed: seq<Credential>
    var reading: seq<Reading>
    var calls: seq<Call>

    ghost function Now(): State
      reads this
    {
      State(credential, isRefreshing, refreshTimestamps, refreshWindow, adaptOperations, requestsToRetry,
            queue, inFlight, answered, handed, reading, calls)
    }

    constructor (credential: Option<Credential>, refreshWindow: Option<RefreshWindow>)
      ensures Now() == Initial(credential, refreshWindow)
    {
      this.credential, this.refreshWindow := credential, refreshWindow;
      isRefreshing, refreshTimestamps, adaptOperations, requestsToRetry := false, [], [], [];
      queue, inFlight, answered, handed, reading, calls := [], 0, 0, [], [], [];
    }

    method Async(job: Job)
      modifies this`queue
      ensures queue == old(queue) + [job]
    {
      queue := queue + [job];
    }

    method Call(call: AuthenticationProtocol.Call)
      modifies this`calls
      ensures calls == old(calls) + [call]
    {
      calls := calls + [call];
    }

    /** adapt */
    method Adapt(op: AdaptOperation, moment: Moment)
      modifies this
      ensures Now() == Adapting(old(Now()), op, moment)
    {
      if isRefreshing {
        adaptOperations := adaptOperations + [op];
      } else if credential.None? {
        Call(AdaptCall(op, AdaptFailed(MissingCredential)));
      } else if moment.requiresRefresh {
        adaptOperations := adaptOperations + [op];
        Refresh(credential.value, moment);
      } else {
        Call(AdaptCall(op, Adapted(credential.value)));
      }
    }

    /** retry, up to the lock */
    method RetryRead(completion: nat, verdict: Verdict)
      modifies this
      ensures Now() == RetryReading(old(Now()), completion, verdict)
    {
      if !verdict.AuthenticationError? {
        Call(RetryCall(completion, DoNotRetry));
      } else if credential.None? {
        Call(RetryCall(completion, DoNotRetryWithError(MissingCredential)));
      } else if !verdict.usedCredential {
        Call(RetryCall(completion, Retry));
      } else {
        reading := reading + [Reading(completion, credential.value)];
      }
    }

    /** retry, inside the lock */
    method RetryLock(k: nat, moment: Moment)
      requires k < |reading|
      modifies this
      ensures Now() == RetryLocked(old(Now()), k, moment)
    {
      var r := reading[k];
      reading := reading[..k] + reading[k + 1..];
      requestsToRetry := requestsToRetry + [r.completion];
      if isRefreshing { return; }
      Refresh(r.credential, moment);
    }

    /** refresh(insideLock:) */
    method Refresh(credential: Credential, moment: Moment)
      modifies this
      ensures Now() == Refreshing(old(Now()), credential, moment)
    {
      var excessive := IsRefreshExcessive(moment.check);
      if excessive {
        HandleRefreshFailure(ExcessiveRefresh);
        return;
      }
      refreshTimestamps := refreshTimestamps + [moment.record];
      isRefreshing := true;
      Async(RefreshJob(credential));
    }

    /** isRefreshExcessive: counts the attempts from the window's start on. */
    method IsRefreshExcessive(now: real) returns (excessive: bool)
      ensures excessive == Excessive(Now(), now)
    {
      if refreshWindow.None? { return false; }
      var refreshWindowMin := now - refreshWindow.value.interval;
      var attempts := 0;
      for i := 0 to |refreshTimestamps|
        invariant attempts == Attempts(refreshTimestamps[..i], refreshWindowMin)
      {
        assert refreshTimestamps[..i + 1][..i] == refreshTimestamps[..i];
        if refreshWindowMin <= refreshTimestamps[i] { attempts := attempts + 1; }
      }
      assert refreshTimestamps[..|refreshTimestamps|] == refreshTimestamps;
      excessive := attempts >= refreshWindow.value.maximumAttempts;
    }

    method HandleRefreshSuccess(credential: Credential)
      modifies this
      ensures Now() == Succeeded(old(Now()), credential)
    {
      this.credential := Some(credential);
      var adapts, retries := adaptOperations, requestsToRetry;
      adaptOperations, requestsToRetry := [], [];
      isRefreshing := false;
      Async(SuccessJob(adapts, retries));
    }

    method HandleRefreshFailure(error: Error)
      modifies this
      ensures Now() == RefreshFailing(old(Now()), error)
    {
      var adapts, retries := adaptOperations, requestsToRetry;
      adaptOperations, requestsToRetry := [], [];
      isRefreshing := false;
      Async(FailureJob(error, adapts, retries));
    }

    /** The completion handed to authenticator.refresh. */
    method RefreshAnswered(result: RefreshResult)
      modifies this
      ensures Now() == Answered(old(Now()), result)
    {
      match result {
        case Success(credential) => HandleRefreshSuccess(credential);
        case Failure(error) => HandleRefreshFailure(error);
      }
    }

    /** The next item of the block at the head of the dispatch queue. */
    method RunItem(moment: Moment)
      requires queue != []
      modifies this
      ensures Now() == RunningItem(old(Now()), moment)
    {
      var job, later := queue[0], queue[1..];
      match job {
        case RefreshJob(c) =>
          queue, inFlight, handed := later, inFlight + 1, handed + [c];
        case SuccessJob(adapts, retries) =>
          if adapts != [] {
            queue := [SuccessJob(adapts[1..], retries)] + later;
            Adapt(adapts[0], moment);
          } else if retries != [] {
            queue := [SuccessJob([], retries[1..])] + later;
            Call(RetryCall(retries[0], Retry));
          } else {
            queue := later;
          }
        case FailureJob(error, adapts, retries) =>
          if adapts != [] {
            queue := [FailureJob(error, adapts[1..], retries)] + later;
            Call(AdaptCall(adapts[0], AdaptFailed(error)));
          } else if retries != [] {
            queue := [FailureJob(error, [], retries[1..])] + later;
            Call(RetryCall(retries[0], DoNotRetryWithError(error)));
          } else {
            queue := later;
          }
      }
    }

    /** One event of a run: whatever thread it comes from, it takes the object from one state of the
        run to the next. */
    method Handle(e: Event)
      requires Enabled(Now(), e)
      modifies this
      ensures Now() == Step(old(Now()), e)
    {
      match e {
        case Adapt(op, moment) => Adapt(op, moment);
        case RetryRead(completion, verdict) => RetryRead(completion, verdict);
        case RetryLock(k, moment) => RetryLock(k, moment);
        case Run(moment) => RunItem(moment);
        case Answer(result) =>
          inFlight, answered := inFlight - 1, answered + 1;
          RefreshAnswered(result);
        case AnswerAgain(result) => RefreshAnswered(result);
        case SetCredential(credential) => this.credential := credential;
      }
    }
  }
}
