/** Session's bookkeeping of task completions: a completion waits until the task's metrics have
    been gathered. */
module SessionTasks {
  import opened Options
  import opened Counting
  import opened RequestTaskMap

  type Completion = nat

  datatype Ran = Ran(task: Task, completion: Completion)

  /** The session's map and waiting completions, and the completions that have run. */
  datatype Book = Book(maps: Maps, waiting: map<Task, Completion>, ran: seq<Ran>)

  /** didCreateURLRequest for a live request, didGatherMetricsForTask and didCompleteTask. */
  datatype Event =
    | Created(request: Request, task: Task)
    | Gathered(task: Task)
    | Completed(task: Task, completion: Completion)

  /** None stands for fatalError. */
  function Step(b: Book, e: Event): Option<Book>
  {
    match e
    case Created(request, task) => Some(b.(maps := Associated(b.maps, request, task)))
    case Gathered(task) =>
      var d := AfterMetrics(b.maps, task);
      if d.Fatal? then None
      else if !d.removed then Some(b.(maps := d.m))
      else Some(Book(d.m, b.waiting - {task},
                     if task in b.waiting then b.ran + [Ran(task, b.waiting[task])] else b.ran))
    case Completed(task, completion) =>
      var d := AfterCompletion(b.maps, task);
      if d.Fatal? then None
      else if d.removed then Some(b.(maps := d.m, ran := b.ran + [Ran(task, completion)]))
      else Some(b.(maps := d.m, waiting := b.waiting[task := completion]))
  }

  function Run(b: Book, events: seq<Event>): Option<Book>
    decreases |events|
  {
    if events == [] then Some(b)
    else var next := Step(b, events[0]); if next.None? then None else Run(next.value, events[1..])
  }

  // --------------------------------------------------------------------------
  // What the events so far say
  // --------------------------------------------------------------------------

  /** Tasks created for a request, completed, and with metrics gathered. */
  datatype History = History(created: map<Task, Request>, completed: map<Task, Completion>, gathered: set<Task>)

  function Record(h: History, e: Event): History
  {
    match e
    case Created(request, task) => h.(created := h.created[task := request])
    case Gathered(task) => h.(gathered := h.gathered + {task})
    case Completed(task, completion) => h.(completed := h.completed[task := completion])
  }

  /** A task that has had both of its final events. */
  predicate Over(h: History, task: Task)
  {
    task in h.completed && task in h.gathered
  }

  /** URLSession makes a new task for each request, and a request gets one only when its last task
      is over. */
  predicate FreshlyCreated(h: History, e: Event)
  {
    e.Created? ==>
      && e.task !in h.created
      && forall t | t in h.created && h.created[t] == e.request :: Over(h, t)
  }

  /** A final event of a task that exists and has not had it. */
  predicate Expected(h: History, e: Event)
  {
    match e
    case Created(_, _) => true
    case Gathered(task) => task in h.created && task !in h.gathered
    case Completed(task, _) => task in h.created && task !in h.completed
  }

  predicate AllFresh(h: History, events: seq<Event>)
    decreases |events|
  {
    events == [] || (FreshlyCreated(h, events[0]) && AllFresh(Record(h, events[0]), events[1..]))
  }

  predicate AllExpected(h: History, events: seq<Event>)
    decreases |events|
  {
    events == [] || (Expected(h, events[0]) && AllExpected(Record(h, events[0]), events[1..]))
  }

  function Recorded(h: History, events: seq<Event>): History
    decreases |events|
  {
    if events == [] then h else Recorded(Record(h, events[0]), events[1..])
  }

  /** The book holds exactly what the history says: the tasks that are not over, each with the
      events it has had; the completions of those that wait for metrics; and every completion of a
      task that is over has run, once. */
  ghost predicate Faithful(b: Book, h: History)
  {
    Tracks(b.maps, h) && Waits(b.waiting, h) && RanOnce(b.ran, h)
  }

  ghost predicate Tracks(m: Maps, h: History)
  {
    && Consistent(m)
    && h.completed.Keys <= h.created.Keys && h.gathered <= h.created.Keys
    && (forall t :: t in m.tasksToRequests <==> t in h.created && !Over(h, t))
    && (forall t | t in m.tasksToRequests :: m.tasksToRequests[t] == h.created[t])
    && (forall t | t in m.tasksToRequests :: m.taskEvents[t] == Events(t in h.completed, t in h.gathered))
  }

  ghost predicate Waits(waiting: map<Task, Completion>, h: History)
  {
    && (forall t :: t in waiting <==> t in h.completed && t !in h.gathered)
    && (forall t | t in waiting :: waiting[t] == h.completed[t])
  }

  ghost predicate RanOnce(ran: seq<Ran>, h: History)
  {
    forall r: Ran :: Count(ran, r) == if Over(h, r.task) && h.completed[r.task] == r.completion then 1 else 0
  }

  lemma RanMore(ran: seq<Ran>, h: History, h': History, task: Task)
    requires RanOnce(ran, h) && !Over(h, task) && Over(h', task)
    requires forall t | t != task :: Over(h, t) == Over(h', t)
    requires forall t | t != task && Over(h, t) :: t in h'.completed && h.completed[t] == h'.completed[t]
    ensures RanOnce(ran + [Ran(task, h'.completed[task])], h')
  {
    hide Count;
    var x := Ran(task, h'.completed[task]);
    forall r: Ran
      ensures Count(ran + [x], r) == if Over(h', r.task) && h'.completed[r.task] == r.completion then 1 else 0
    {
      CountPush(ran, r, x);
    }
  }

  lemma RanSame(ran: seq<Ran>, h: History, h': History)
    requires RanOnce(ran, h)
    requires forall t :: Over(h, t) == Over(h', t)
    requires forall t | Over(h, t) :: t in h'.completed && h.completed[t] == h'.completed[t]
    ensures RanOnce(ran, h')
  {
    hide Count;
  }

  lemma CreatedKept(b: Book, h: History, request: Request, task: Task)
    requires Faithful(b, h) && FreshlyCreated(h, Created(request, task))
    ensures Faithful(Step(b, Created(request, task)).value, Record(h, Created(request, task)))
  {
    CreatedTracked(b.maps, h, request, task);
    hide RanOnce, Tracks;
    RanSame(b.ran, h, Record(h, Created(request, task)));
  }

  lemma CreatedTracked(m: Maps, h: History, request: Request, task: Task)
    requires Tracks(m, h) && FreshlyCreated(h, Created(request, task))
    ensures Tracks(Associated(m, request, task), Record(h, Created(request, task)))
  {
    AssociationConsistent(m, request, task);
    hide Consistent;
    assert m.taskEvents.Keys == m.tasksToRequests.Keys by { EventKeys(m); }
  }

  lemma EventKeys(m: Maps)
    requires Consistent(m)
    ensures m.taskEvents.Keys == m.tasksToRequests.Keys
  {
  }

  lemma GatheredTracked(m: Maps, h: History, task: Task)
    requires Tracks(m, h)
    ensures var d := AfterMetrics(m, task);
            && (d.Goes? <==> Expected(h, Gathered(task)))
            && (d.Goes? ==> Tracks(d.m, Record(h, Gathered(task))) && (d.removed <==> task in h.completed))
  {
    if task in m.tasksToRequests {
      RemovalConsistent(m, task);
      var request := m.tasksToRequests[task];
      EventKeys(m);
    }
  }

  lemma CompletedTracked(m: Maps, h: History, task: Task, completion: Completion)
    requires Tracks(m, h)
    ensures var d := AfterCompletion(m, task);
            && (d.Goes? <==> Expected(h, Completed(task, completion)))
            && (d.Goes? ==> Tracks(d.m, Record(h, Completed(task, completion))) && (d.removed <==> task in h.gathered))
  {
    if task in m.tasksToRequests {
      RemovalConsistent(m, task);
      EventKeys(m);
    }
  }

  lemma GatheredKept(b: Book, h: History, task: Task)
    requires Faithful(b, h)
    ensures Step(b, Gathered(task)).Some? <==> Expected(h, Gathered(task))
    ensures Expected(h, Gathered(task)) ==> Faithful(Step(b, Gathered(task)).value, Record(h, Gathered(task)))
  {
    hide RanOnce, Tracks, AfterMetrics;
    GatheredTracked(b.maps, h, task);
    if Expected(h, Gathered(task)) {
      var h' := Record(h, Gathered(task));
      if task in h.completed { RanMore(b.ran, h, h', task); } else { RanSame(b.ran, h, h'); }
    }
  }

  lemma CompletedKept(b: Book, h: History, task: Task, completion: Completion)
    requires Faithful(b, h)
    ensures Step(b, Completed(task, completion)).Some? <==> Expected(h, Completed(task, completion))
    ensures Expected(h, Completed(task, completion)) ==>
              Faithful(Step(b, Completed(task, completion)).value, Record(h, Completed(task, completion)))
  {
    hide RanOnce, Tracks, AfterCompletion;
    CompletedTracked(b.maps, h, task, completion);
    if Expected(h, Completed(task, completion)) {
      var h' := Record(h, Completed(task, completion));
      if task in h.gathered { RanMore(b.ran, h, h', task); } else { RanSame(b.ran, h, h'); }
    }
  }

  /** Over every sequence of events with fresh tasks: no fatalError is reached exactly when each
      task gets each final event at most once and after its creation, and then the book is
      faithful after every event. Applied to a prefix and the prefix extended by a task's second
      final event, this says that the completion runs at that event. */
  lemma {:induction false} BookFaithful(b: Book, h: History, events: seq<Event>)
    requires Faithful(b, h) && AllFresh(h, events)
    ensures Run(b, events).Some? <==> AllExpected(h, events)
    ensures Run(b, events).Some? ==> Faithful(Run(b, events).value, Recorded(h, events))
    decreases |events|
  {
    hide Faithful, Step, FreshlyCreated, Expected;
    if events == [] { return; }
    var e := events[0];
    StepFaithful(b, h, e);
    if Expected(h, e) { BookFaithful(Step(b, e).value, Record(h, e), events[1..]); }
  }

  lemma StepFaithful(b: Book, h: History, e: Event)
    requires Faithful(b, h) && FreshlyCreated(h, e)
    ensures Step(b, e).Some? <==> Expected(h, e)
    ensures Expected(h, e) ==> Faithful(Step(b, e).value, Record(h, e))
  {
    hide Faithful;
    match e
    case Created(request, task) => CreatedKept(b, h, request, task);
    case Gathered(task) => GatheredKept(b, h, task);
    case Completed(task, completion) => CompletedKept(b, h, task, completion);
  }

  /** A completion runs exactly at the second of its task's final events. */
  lemma RunsAtSecondEvent(b: Book, h: History, e: Event, r: Ran)
    requires Faithful(b, h) && !e.Created? && Expected(h, e) && Step(b, e).Some?
    ensures var h' := Record(h, e);
            Count(Step(b, e).value.ran, r) == Count(b.ran, r) +
            if r.task == e.task && Over(h', e.task) && h'.completed[e.task] == r.completion then 1 else 0
  {
    StepFaithful(b, h, e);
    hide Step, Tracks, Waits, Count;
  }

  function NewBook(): Book
  {
    Book(Maps(map[], map[], map[]), map[], [])
  }

  function NoHistory(): History
  {
    History(map[], map[], {})
  }

  lemma NewBookFaithful()
    ensures Faithful(NewBook(), NoHistory())
  {
  }

  /** From a new session on, whatever the order of events with fresh tasks: fatalError is reached
      exactly by an unexpected event, and otherwise the book is faithful to what happened. */
  lemma SessionFaithful(events: seq<Event>)
    requires AllFresh(NoHistory(), events)
    ensures Run(NewBook(), events).Some? <==> AllExpected(NoHistory(), events)
    ensures Run(NewBook(), events).Some? ==> Faithful(Run(NewBook(), events).value, Recorded(NoHistory(), events))
  {
    hide Faithful;
    NewBookFaithful();
    BookFaithful(NewBook(), NoHistory(), events);
  }

  // --------------------------------------------------------------------------
  // The session
  // --------------------------------------------------------------------------

  class Session {
    const requestTaskMap: TaskMap
    var waitingCompletions: map<Task, Completion>
    var ran: seq<Ran>

    ghost function Now(): Book
      reads this, requestTaskMap
    {
      Book(requestTaskMap.Now(), waitingCompletions, ran)
    }

    constructor ()
      ensures Now() == NewBook() && fresh(requestTaskMap)
    {
      requestTaskMap := new TaskMap();
      waitingCompletions, ran := map[], [];
    }

    /** didCreateURLRequest: a cancelled request gets no task. */
    method DidCreateURLRequest(request: Request, isCancelled: bool, task: Task)
      modifies requestTaskMap
      ensures if isCancelled then Now() == old(Now()) else Step(old(Now()), Created(request, task)) == Some(Now())
    {
      if isCancelled { return; }
      var _ := requestTaskMap.SetTask(request, Some(task));
    }

    method DidGatherMetricsForTask(task: Task) returns (fatal: bool)
      modifies this, requestTaskMap
      ensures fatal <==> Step(old(Now()), Gathered(task)).None?
      ensures !fatal ==> Step(old(Now()), Gathered(task)) == Some(Now())
    {
      var didDisassociate;
      fatal, didDisassociate := requestTaskMap.DisassociateAfterGatheringMetrics(task);
      if fatal { return; }
      if didDisassociate {
        if task in waitingCompletions { ran := ran + [Ran(task, waitingCompletions[task])]; }
        waitingCompletions := waitingCompletions - {task};
      }
    }

    method DidCompleteTask(task: Task, completion: Completion) returns (fatal: bool)
      modifies this, requestTaskMap
      ensures fatal <==> Step(old(Now()), Completed(task, completion)).None?
      ensures !fatal ==> Step(old(Now()), Completed(task, completion)) == Some(Now())
    {
      var didDisassociate;
      fatal, didDisassociate := requestTaskMap.DisassociateAfterCompletion(task);
      if fatal { return; }
      if didDisassociate {
        ran := ran + [Ran(task, completion)];
      } else {
        waitingCompletions := waitingCompletions[task := completion];
      }
    }
  }
}
