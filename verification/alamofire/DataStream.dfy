/** DataStreamRequest: counting the stream handlers that still have to run, and holding back the
    completion events until none has. */
module DataStream {
  import opened Counting

  /** One call of a stream handler with one piece of data. */
  datatype HandlerRun = HandlerRun(stream: nat, data: nat)

  /** A block on the request's underlying queue. */
  datatype Block = Streams(runs: seq<HandlerRun>) | Releases(completions: seq<nat>)

  /** StreamMutableState, and around it: the completions whose response serializer has not run,
      the underlying queue, all handler runs handed to their queues, those of them not finished and
      finished, and the completion events handed to theirs. */
  datatype State = State(
    streams: seq<nat>, numberOfExecutingStreams: int, enqueuedCompletionEvents: seq<nat>,
    registered: seq<nat>, queue: seq<Block>, handed: seq<HandlerRun>, dispatched: seq<HandlerRun>,
    finished: seq<HandlerRun>, completed: seq<nat>)

  datatype Event =
    | Respond(stream: nat, completion: nat)
    | Receive(data: nat)
    | Complete(k: nat)
    | RunBlock
    | Finish(k: nat)

  function RunsFor(streams: seq<nat>, data: nat): (runs: seq<HandlerRun>)
    ensures |runs| == |streams|
  {
    seq(|streams|, i requires 0 <= i < |streams| => HandlerRun(streams[i], data))
  }

  predicate Enabled(s: State, e: Event)
  {
    match e
    case Complete(k) => k < |s.registered|
    case RunBlock => s.queue != []
    case Finish(k) => k < |s.dispatched|
    case _ => true
  }

  /** responseStream */
  function Responding(s: State, stream: nat, completion: nat): State
  {
    s.(streams := s.streams + [stream], registered := s.registered + [completion])
  }

  /** didReceive(data:) */
  function Receiving(s: State, data: nat): State
  {
    s.(numberOfExecutingStreams := s.numberOfExecutingStreams + |s.streams|,
       queue := s.queue + [Streams(RunsFor(s.streams, data))])
  }

  /** The closure of appendStreamCompletion. */
  function Completing(s: State, k: nat): State
    requires k < |s.registered|
  {
    var rest := s.(registered := s.registered[..k] + s.registered[k + 1..]);
    if s.numberOfExecutingStreams == 0 then rest.(completed := s.completed + [s.registered[k]])
    else rest.(enqueuedCompletionEvents := s.enqueuedCompletionEvents + [s.registered[k]])
  }

  function RunningBlock(s: State): State
    requires s.queue != []
  {
    match s.queue[0]
    case Streams(runs) => s.(queue := s.queue[1..], handed := s.handed + runs, dispatched := s.dispatched + runs)
    case Releases(cs) => s.(queue := s.queue[1..], completed := s.completed + cs)
  }

  /** A handler has run: updateAndCompleteIfPossible. */
  function Finishing(s: State, k: nat): State
    requires k < |s.dispatched|
  {
    var n := s.numberOfExecutingStreams - 1;
    var rest := s.(numberOfExecutingStreams := n, dispatched := s.dispatched[..k] + s.dispatched[k + 1..],
                   finished := s.finished + [s.dispatched[k]]);
    if n != 0 || s.enqueuedCompletionEvents == [] then rest
    else rest.(queue := s.queue + [Releases(s.enqueuedCompletionEvents)], enqueuedCompletionEvents := [])
  }

  function Step(s: State, e: Event): State
    requires Enabled(s, e)
  {
    match e
    case Respond(stream, completion) => Responding(s, stream, completion)
    case Receive(data) => Receiving(s, data)
    case Complete(k) => Completing(s, k)
    case RunBlock => RunningBlock(s)
    case Finish(k) => Finishing(s, k)
  }

  predicate Runs(s: State, events: seq<Event>, t: State)
    decreases |events|
  {
    if events == [] then s == t else Enabled(s, events[0]) && Runs(Step(s, events[0]), events[1..], t)
  }

  // --------------------------------------------------------------------------
  // The counter
  // --------------------------------------------------------------------------

  function QueuedRuns(queue: seq<Block>): nat
  {
    if queue == [] then 0 else (if queue[0].Streams? then |queue[0].runs| else 0) + QueuedRuns(queue[1..])
  }

  /** The counter is the number of handler runs scheduled and not finished, and completion events
      are held back only while there are some. */
  predicate Counted(s: State)
  {
    && s.numberOfExecutingStreams == QueuedRuns(s.queue) + |s.dispatched|
    && (s.numberOfExecutingStreams == 0 ==> s.enqueuedCompletionEvents == [])
  }

  lemma {:induction false} QueuedRunsPush(queue: seq<Block>, b: Block)
    ensures QueuedRuns(queue + [b]) == QueuedRuns(queue) + if b.Streams? then |b.runs| else 0
  {
    if queue == [] {
    } else {
      assert (queue + [b])[1..] == queue[1..] + [b];
      QueuedRunsPush(queue[1..], b);
    }
  }

  lemma StepCounted(s: State, e: Event)
    requires Enabled(s, e) && Counted(s)
    ensures Counted(Step(s, e))
  {
    if e.Receive? { QueuedRunsPush(s.queue, Streams(RunsFor(s.streams, e.data))); }
    QueuedRunsPush(s.queue, Releases(s.enqueuedCompletionEvents));
  }

  /** Over every interleaving the counter equals the handler runs still to finish, so it is never
      negative. */
  lemma {:induction false} CounterExact(s: State, events: seq<Event>, t: State)
    requires Runs(s, events, t) && Counted(s)
    ensures Counted(t) && t.numberOfExecutingStreams >= 0
    decreases |events|
  {
    if events == [] {
    } else {
      StepCounted(s, events[0]);
      hide Step, Counted;
      CounterExact(Step(s, events[0]), events[1..], t);
    }
  }

  // --------------------------------------------------------------------------
  // Completion events
  // --------------------------------------------------------------------------

  function QueuedReleases(queue: seq<Block>, c: nat): nat
  {
    if queue == [] then 0
    else (if queue[0].Releases? then Count(queue[0].completions, c) else 0) + QueuedReleases(queue[1..], c)
  }

  lemma {:induction false} ReleasesPush(queue: seq<Block>, b: Block, c: nat)
    ensures QueuedReleases(queue + [b], c) == QueuedReleases(queue, c)
      + if b.Releases? then Count(b.completions, c) else 0
  {
    hide Count;
    if queue == [] {
    } else {
      assert (queue + [b])[1..] == queue[1..] + [b];
      ReleasesPush(queue[1..], b, c);
    }
  }

  /** How often a completion has been released: let go by the lock, towards its handler's queue. */
  function Released(s: State, c: nat): nat
  {
    QueuedReleases(s.queue, c) + Count(s.completed, c)
  }

  /** The number of places that hold the completion. */
  function Places(s: State, c: nat): nat
  {
    Count(s.registered, c) + Count(s.enqueuedCompletionEvents, c) + Released(s, c)
  }

  function Registered(events: seq<Event>, c: nat): nat
  {
    if events == [] then 0
    else (if events[0].Respond? && events[0].completion == c then 1 else 0) + Registered(events[1..], c)
  }

  lemma CompletingKeeps(s: State, k: nat, c: nat)
    requires k < |s.registered|
    ensures Places(Completing(s, k), c) == Places(s, c)
    ensures Released(Completing(s, k), c) ==
            Released(s, c) + if s.numberOfExecutingStreams == 0 && s.registered[k] == c then 1 else 0
  {
    hide Count, QueuedReleases;
    CountTake(s.registered, k, c);
    CountPush(s.completed, c, s.registered[k]);
    CountPush(s.enqueuedCompletionEvents, c, s.registered[k]);
  }

  lemma BlockKeeps(s: State, c: nat)
    requires s.queue != []
    ensures Places(RunningBlock(s), c) == Places(s, c) && Released(RunningBlock(s), c) == Released(s, c)
  {
    hide Count;
    if s.queue[0].Releases? { CountConcat(s.completed, s.queue[0].completions, c); }
  }

  lemma FinishingKeeps(s: State, k: nat, c: nat)
    requires k < |s.dispatched|
    ensures Places(Finishing(s, k), c) == Places(s, c)
    ensures Released(Finishing(s, k), c) ==
            Released(s, c) + if s.numberOfExecutingStreams == 1 then Count(s.enqueuedCompletionEvents, c) else 0
  {
    CountNone(c);
    hide Count, QueuedReleases;
    ReleasesPush(s.queue, Releases(s.enqueuedCompletionEvents), c);
  }

  lemma OthersKeep(s: State, e: Event, c: nat)
    requires e.Respond? || e.Receive?
    ensures Released(Step(s, e), c) == Released(s, c)
    ensures Places(Step(s, e), c) == Places(s, c) + if e.Respond? && e.completion == c then 1 else 0
  {
    match e
    case Respond(_, completion) =>
      hide Count;
      CountPush(s.registered, c, completion);
    case Receive(data) =>
      ReleasesPush(s.queue, Streams(RunsFor(s.streams, data)), c);
  }

  lemma StepConserves(s: State, e: Event, c: nat)
    requires Enabled(s, e)
    ensures Places(Step(s, e), c) == Places(s, c) + if e.Respond? && e.completion == c then 1 else 0
  {
    match e
    case Complete(k) => CompletingKeeps(s, k, c);
    case RunBlock => BlockKeeps(s, c);
    case Finish(k) => FinishingKeeps(s, k, c);
    case _ => OthersKeep(s, e, c);
  }

  /** A completion event is released only at a moment when no handler run is outstanding, and a
      released one stays released. */
  lemma ReleasedOnlyAtZero(s: State, e: Event, c: nat)
    requires Enabled(s, e) && Counted(s)
    ensures Released(Step(s, e), c) >= Released(s, c)
    ensures Released(Step(s, e), c) > Released(s, c) ==> QueuedRuns(Step(s, e).queue) + |Step(s, e).dispatched| == 0
  {
    StepCounted(s, e);
    hide QueuedRuns, QueuedReleases, Released, Places, Count;
    match e
    case Complete(k) => CompletingKeeps(s, k, c);
    case RunBlock => BlockKeeps(s, c);
    case Finish(k) => FinishingKeeps(s, k, c);
    case _ => OthersKeep(s, e, c);
  }

  /** Over every interleaving each registered completion is in exactly one place: its serializer
      has not run, it is held back, or it has been released. */
  lemma {:induction false} ExactlyOnePlace(s: State, events: seq<Event>, t: State, c: nat)
    requires Runs(s, events, t)
    ensures Places(t, c) == Places(s, c) + Registered(events, c)
    decreases |events|
  {
    hide Places, Step;
    if events == [] {
    } else {
      StepConserves(s, events[0], c);
      ExactlyOnePlace(Step(s, events[0]), events[1..], t, c);
    }
  }

  // --------------------------------------------------------------------------
  // Handler runs
  // --------------------------------------------------------------------------

  function InBlocks(queue: seq<Block>, r: HandlerRun): nat
  {
    if queue == [] then 0 else (if queue[0].Streams? then Count(queue[0].runs, r) else 0) + InBlocks(queue[1..], r)
  }

  /** The number of places that hold a handler run: queued, dispatched or finished. */
  function RunPlaces(s: State, r: HandlerRun): nat
  {
    InBlocks(s.queue, r) + Count(s.dispatched, r) + Count(s.finished, r)
  }

  /** The runs that an event asks for: its data once for each stream registered by then. */
  function Demands(s: State, e: Event, r: HandlerRun): nat
  {
    if e.Receive? && e.data == r.data then Count(s.streams, r.stream) else 0
  }

  function Demanded(s: State, events: seq<Event>, r: HandlerRun): nat
    decreases |events|
  {
    if events == [] || !Enabled(s, events[0]) then 0
    else Demands(s, events[0], r) + Demanded(Step(s, events[0]), events[1..], r)
  }

  lemma {:induction false} CountRuns(streams: seq<nat>, data: nat, r: HandlerRun)
    ensures Count(RunsFor(streams, data), r) == if data == r.data then Count(streams, r.stream) else 0
  {
    if streams == [] {
    } else {
      assert RunsFor(streams, data)[1..] == RunsFor(streams[1..], data);
      CountRuns(streams[1..], data, r);
    }
  }

  lemma {:induction false} BlocksPush(queue: seq<Block>, b: Block, r: HandlerRun)
    ensures InBlocks(queue + [b], r) == InBlocks(queue, r) + if b.Streams? then Count(b.runs, r) else 0
  {
    hide Count;
    if queue == [] {
    } else {
      assert (queue + [b])[1..] == queue[1..] + [b];
      BlocksPush(queue[1..], b, r);
    }
  }

  lemma StepRuns(s: State, e: Event, r: HandlerRun)
    requires Enabled(s, e)
    ensures RunPlaces(Step(s, e), r) == RunPlaces(s, r) + Demands(s, e, r)
  {
    hide Count, RunsFor;
    match e
    case Receive(data) =>
      CountRuns(s.streams, data, r);
      BlocksPush(s.queue, Streams(RunsFor(s.streams, data)), r);
    case RunBlock =>
      if s.queue[0].Streams? { CountConcat(s.dispatched, s.queue[0].runs, r); }
    case Finish(k) =>
      CountTake(s.dispatched, k, r);
      CountPush(s.finished, r, s.dispatched[k]);
      BlocksPush(s.queue, Releases(s.enqueuedCompletionEvents), r);
    case _ =>
  }

  /** Over every interleaving each piece of data is handled once by each stream that was registered
      when it arrived: its run is queued, dispatched or finished. */
  lemma {:induction false} RunsExact(s: State, events: seq<Event>, t: State, r: HandlerRun)
    requires Runs(s, events, t)
    ensures RunPlaces(t, r) == RunPlaces(s, r) + Demanded(s, events, r)
    decreases |events|
  {
    hide RunPlaces, Step, Demands;
    if events == [] {
    } else {
      StepRuns(s, events[0], r);
      RunsExact(Step(s, events[0]), events[1..], t, r);
    }
  }

  // --------------------------------------------------------------------------
  // Nothing is held back for ever
  // --------------------------------------------------------------------------

  function Initial(): State
  {
    State([], 0, [], [], [], [], [], [], [])
  }

  /** When every serializer has run and the queues are empty, each completion has been called as
      often as it was registered: none is held back for ever. */
  lemma EveryCompletionReleased(events: seq<Event>, t: State, c: nat)
    requires Runs(Initial(), events, t)
    requires t.registered == [] && t.queue == [] && t.dispatched == []
    ensures Count(t.completed, c) == Registered(events, c)
  {
    assert Places(Initial(), c) == 0 && Counted(Initial());
    hide Runs;
    ExactlyOnePlace(Initial(), events, t, c);
    CounterExact(Initial(), events, t);
    assert QueuedReleases(t.queue, c) == 0 && Count([], c) == 0;
  }

  // --------------------------------------------------------------------------
  // The request
  // --------------------------------------------------------------------------

  class DataStreamRequest {
    var streams: seq<nat>
    var numberOfExecutingStreams: int
    var enqueuedCompletionEvents: seq<nat>
    var registered: seq<nat>
    var queue: seq<Block>
    var handed: seq<HandlerRun>
    var dispatched: seq<HandlerRun>
    var finished: seq<HandlerRun>
    var completed: seq<nat>

    ghost function Now(): State
      reads this
    {
      State(streams, numberOfExecutingStreams, enqueuedCompletionEvents, registered,
            queue, handed, dispatched, finished, completed)
    }

    constructor ()
      ensures Now() == Initial()
    {
      streams, numberOfExecutingStreams, enqueuedCompletionEvents, registered := [], 0, [], [];
      queue, handed, dispatched, finished, completed := [], [], [], [], [];
    }

    method ResponseStream(stream: nat, completion: nat)
      modifies this
      ensures Now() == Responding(old(Now()), stream, completion)
    {
      streams := streams + [stream];
      registered := registered + [completion];
    }

    method DidReceive(data: nat)
      modifies this
      ensures Now() == Receiving(old(Now()), data)
    {
      numberOfExecutingStreams := numberOfExecutingStreams + |streams|;
      var localState := streams;
      queue := queue + [Streams(RunsFor(localState, data))];
    }

    /** The closure that appendStreamCompletion hands to the response serializers. */
    method StreamCompletion(k: nat)
      requires k < |registered|
      modifies this
      ensures Now() == Completing(old(Now()), k)
    {
      var completion := registered[k];
      registered := registered[..k] + registered[k + 1..];
      if numberOfExecutingStreams != 0 {
        enqueuedCompletionEvents := enqueuedCompletionEvents + [completion];
        return;
      }
      completed := completed + [completion];
    }

    method RunHead()
      requires queue != []
      modifies this
      ensures Now() == RunningBlock(old(Now()))
    {
      var block := queue[0];
      queue := queue[1..];
      match block {
        case Streams(runs) => handed, dispatched := handed + runs, dispatched + runs;
        case Releases(cs) => completed := completed + cs;
      }
    }

    /** The end of a parser's handler block, with updateAndCompleteIfPossible. */
    method UpdateAndCompleteIfPossible(k: nat)
      requires k < |dispatched|
      modifies this
      ensures Now() == Finishing(old(Now()), k)
    {
      finished := finished + [dispatched[k]];
      dispatched := dispatched[..k] + dispatched[k + 1..];
      numberOfExecutingStreams := numberOfExecutingStreams - 1;
      if numberOfExecutingStreams != 0 || enqueuedCompletionEvents == [] { return; }
      var completionEvents := enqueuedCompletionEvents;
      queue := queue + [Releases(completionEvents)];
      enqueuedCompletionEvents := [];
    }

    /** One event of a run. */
    method Handle(e: Event)
      requires Enabled(Now(), e)
      modifies this
      ensures Now() == Step(old(Now()), e)
    {
      match e {
        case Respond(stream, completion) => ResponseStream(stream, completion);
        case Receive(data) => DidReceive(data);
        case Complete(k) => StreamCompletion(k);
        case RunBlock => RunHead();
        case Finish(k) => UpdateAndCompleteIfPossible(k);
      }
    }
  }
}
