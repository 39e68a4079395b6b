/** The data of a stream request reaches its handlers, and held-back completions are released, in
    the order in which they came. */
module DataStreamOrder {
  import opened Sequences
  import opened DataStream

  // --------------------------------------------------------------------------
  // Data
  // --------------------------------------------------------------------------

  /** A piece of data for each registered stream, in the order of registration. */
  function ForEach(streams: seq<nat>, data: nat): seq<HandlerRun>
  {
    if streams == [] then [] else [HandlerRun(streams[0], data)] + ForEach(streams[1..], data)
  }

  /** The handler runs that the events ask for, in order: each piece of data as it arrives, for the
      streams registered by then. */
  function Arrivals(streams: seq<nat>, events: seq<Event>): seq<HandlerRun>
    decreases |events|
  {
    if events == [] then []
    else match events[0]
         case Respond(stream, _) => Arrivals(streams + [stream], events[1..])
         case Receive(data) => ForEach(streams, data) + Arrivals(streams, events[1..])
         case _ => Arrivals(streams, events[1..])
  }

  function RunsIn(queue: seq<Block>): seq<HandlerRun>
  {
    if queue == [] then [] else (if queue[0].Streams? then queue[0].runs else []) + RunsIn(queue[1..])
  }

  /** The runs handed to the handlers' queues, and behind them those still on the underlying queue. */
  function RunLine(s: State): seq<HandlerRun>
  {
    s.handed + RunsIn(s.queue)
  }

  lemma {:induction false} ForEachRuns(streams: seq<nat>, data: nat)
    ensures ForEach(streams, data) == RunsFor(streams, data)
  {
    if streams == [] {
    } else {
      ForEachRuns(streams[1..], data);
      assert RunsFor(streams, data) == [HandlerRun(streams[0], data)] + RunsFor(streams[1..], data);
    }
  }

  lemma RunsHead(queue: seq<Block>)
    requires queue != []
    ensures RunsIn(queue) == (if queue[0].Streams? then queue[0].runs else []) + RunsIn(queue[1..])
  {
  }

  lemma {:induction false} RunsPush(queue: seq<Block>, b: Block)
    ensures RunsIn(queue + [b]) == RunsIn(queue) + if b.Streams? then b.runs else []
  {
    if queue == [] {
      assert [b][1..] == [] && [] + [b] == [b];
    } else {
      hide RunsIn;
      assert (queue + [b])[1..] == queue[1..] + [b] && (queue + [b])[0] == queue[0];
      RunsHead(queue);
      RunsHead(queue + [b]);
      RunsPush(queue[1..], b);
      Regroup(if queue[0].Streams? then queue[0].runs else [], RunsIn(queue[1..]),
              if b.Streams? then b.runs else [], []);
    }
  }

  lemma StepLine(s: State, e: Event)
    requires Enabled(s, e)
    ensures RunLine(Step(s, e)) == RunLine(s) + if e.Receive? then ForEach(s.streams, e.data) else []
    ensures Step(s, e).streams == s.streams + if e.Respond? then [e.stream] else []
  {
    hide RunsIn, RunsFor, ForEach;
    Empties(RunLine(s));
    match e
    case Receive(data) =>
      ForEachRuns(s.streams, data);
      RunsPush(s.queue, Streams(RunsFor(s.streams, data)));
      Regroup(s.handed, RunsIn(s.queue), RunsFor(s.streams, data), []);
    case RunBlock =>
      RunsHead(s.queue);
      Empties(RunsIn(s.queue[1..]));
      if s.queue[0].Streams? { Regroup(s.handed, s.queue[0].runs, RunsIn(s.queue[1..]), []); }
    case Finish(k) =>
      RunsPush(s.queue, Releases(s.enqueuedCompletionEvents));
      Empties(RunsIn(s.queue));
    case _ =>
  }

  /** Over every interleaving the handlers' queues receive the data in the order in which it
      arrived, and each piece stream by stream in the order of their registration. */
  lemma {:induction false} HandedInOrder(s: State, events: seq<Event>, t: State)
    requires Runs(s, events, t)
    ensures RunLine(t) == RunLine(s) + Arrivals(s.streams, events)
    decreases |events|
  {
    hide Step, RunLine, ForEach;
    if events == [] {
      Empties(RunLine(s));
    } else {
      var e, next := events[0], Step(s, events[0]);
      StepLine(s, e);
      HandedInOrder(next, events[1..], t);
      Empties(s.streams);
      Empties(RunLine(s));
      if e.Receive? { Regroup(RunLine(s), ForEach(s.streams, e.data), Arrivals(s.streams, events[1..]), []); }
    }
  }

  /** Once the underlying queue is empty, exactly the data that arrived has been handed on. */
  lemma AllHandedInOrder(events: seq<Event>, t: State)
    requires Runs(Initial(), events, t) && t.queue == []
    ensures t.handed == Arrivals([], events)
  {
    assert RunLine(Initial()) == [] && RunsIn(t.queue) == [];
    hide Runs, Arrivals, RunsIn;
    HandedInOrder(Initial(), events, t);
    Empties(t.handed);
    Empties(Arrivals([], events));
  }

  // --------------------------------------------------------------------------
  // Completion events
  // --------------------------------------------------------------------------

  function ReleasesIn(queue: seq<Block>): seq<nat>
  {
    if queue == [] then [] else (if queue[0].Releases? then queue[0].completions else []) + ReleasesIn(queue[1..])
  }

  /** The completion events that have been held back and are not with their handlers yet. */
  function HeldLine(s: State): seq<nat>
  {
    ReleasesIn(s.queue) + s.enqueuedCompletionEvents
  }

  /** The completion event that comes while a handler run is outstanding. */
  function HoldsBack(s: State, e: Event): seq<nat>
  {
    if e.Complete? && e.k < |s.registered| && s.numberOfExecutingStreams != 0 then [s.registered[e.k]] else []
  }

  /** The completion events that a block of the underlying queue hands on. */
  function HandsOn(s: State, e: Event): seq<nat>
    requires Enabled(s, e)
  {
    if e.RunBlock? then Step(s, e).completed[|s.completed|..] else []
  }

  lemma ReleasesHead(queue: seq<Block>)
    requires queue != []
    ensures ReleasesIn(queue) == (if queue[0].Releases? then queue[0].completions else []) + ReleasesIn(queue[1..])
  {
  }

  lemma {:induction false} ReleasesAdded(queue: seq<Block>, b: Block)
    ensures ReleasesIn(queue + [b]) == ReleasesIn(queue) + if b.Releases? then b.completions else []
  {
    if queue == [] {
      assert [b][1..] == [] && [] + [b] == [b];
    } else {
      hide ReleasesIn;
      assert (queue + [b])[1..] == queue[1..] + [b] && (queue + [b])[0] == queue[0];
      ReleasesHead(queue);
      ReleasesHead(queue + [b]);
      ReleasesAdded(queue[1..], b);
      Regroup(if queue[0].Releases? then queue[0].completions else [], ReleasesIn(queue[1..]),
              if b.Releases? then b.completions else [], []);
    }
  }

  lemma StepHeld(s: State, e: Event)
    requires Enabled(s, e)
    ensures HeldLine(s) + HoldsBack(s, e) == HandsOn(s, e) + HeldLine(Step(s, e))
  {
    hide ReleasesIn, RunsFor;
    Empties(HeldLine(s));
    Empties(HeldLine(Step(s, e)));
    match e
    case Receive(data) =>
      ReleasesAdded(s.queue, Streams(RunsFor(s.streams, data)));
      Empties(ReleasesIn(s.queue));
    case RunBlock =>
      ReleasesHead(s.queue);
      Empties(ReleasesIn(s.queue[1..]));
      if s.queue[0].Releases? {
        assert HandsOn(s, e) == s.queue[0].completions;
        Regroup(s.queue[0].completions, ReleasesIn(s.queue[1..]), s.enqueuedCompletionEvents, []);
      } else {
        assert HandsOn(s, e) == [];
      }
    case Finish(k) =>
      ReleasesAdded(s.queue, Releases(s.enqueuedCompletionEvents));
      Empties(ReleasesIn(s.queue) + s.enqueuedCompletionEvents);
    case Complete(k) =>
      Regroup(ReleasesIn(s.queue), s.enqueuedCompletionEvents, [s.registered[k]], []);
    case Respond(_, _) =>
  }

  function HeldBack(s: State, events: seq<Event>): seq<nat>
    decreases |events|
  {
    if events == [] || !Enabled(s, events[0]) then []
    else HoldsBack(s, events[0]) + HeldBack(Step(s, events[0]), events[1..])
  }

  function HandedOn(s: State, events: seq<Event>): seq<nat>
    decreases |events|
  {
    if events == [] || !Enabled(s, events[0]) then []
    else HandsOn(s, events[0]) + HandedOn(Step(s, events[0]), events[1..])
  }

  /** Over every interleaving completion events that were held back are released in the order in
      which they came. */
  lemma {:induction false} CompletionsInOrder(s: State, events: seq<Event>, t: State)
    requires Runs(s, events, t)
    ensures HeldLine(s) + HeldBack(s, events) == HandedOn(s, events) + HeldLine(t)
    decreases |events|
  {
    hide Step, HeldLine, HoldsBack, HandsOn;
    if events == [] {
      Empties(HeldLine(s));
    } else {
      var e, next := events[0], Step(s, events[0]);
      StepHeld(s, e);
      CompletionsInOrder(next, events[1..], t);
      TwoSteps(HeldLine(s), HoldsBack(s, e), HandsOn(s, e), HeldLine(next), HeldBack(next, events[1..]),
               HandedOn(next, events[1..]), HeldLine(t));
    }
  }
}
