/** RequestTaskMap: which task serves which request, and which of its two final events each task
    has had. Tasks and requests are identities. */
module RequestTaskMap {
  import opened Options

  type Task = nat
  type Request = nat

  datatype Events = Events(completed: bool, metricsGathered: bool)

  /** The three dictionaries. */
  datatype Maps = Maps(tasksToRequests: map<Task, Request>, requestsToTasks: map<Request, Task>,
                       taskEvents: map<Task, Events>)

  /** Associating a request and a task, through either subscript. */
  function Associated(m: Maps, request: Request, task: Task): Maps
  {
    Maps(m.tasksToRequests[task := request], m.requestsToTasks[request := task],
         m.taskEvents[task := Events(false, false)])
  }

  function Removed(m: Maps, request: Request, task: Task): Maps
  {
    Maps(m.tasksToRequests - {task}, m.requestsToTasks - {request}, m.taskEvents - {task})
  }

  /** The two maps are inverse to each other and every associated task has its events. */
  predicate Consistent(m: Maps)
  {
    && (forall t | t in m.tasksToRequests ::
          var r := m.tasksToRequests[t]; r in m.requestsToTasks && m.requestsToTasks[r] == t)
    && (forall r | r in m.requestsToTasks ::
          var t := m.requestsToTasks[r]; t in m.tasksToRequests && m.tasksToRequests[t] == r)
    && m.taskEvents.Keys == m.tasksToRequests.Keys
  }

  /** The subscript setters assume that neither side is associated with something else. This is
      exactly what keeps the maps consistent. */
  lemma AssociationConsistent(m: Maps, request: Request, task: Task)
    requires Consistent(m)
    ensures Consistent(Associated(m, request, task)) <==>
            && (request in m.requestsToTasks ==> m.requestsToTasks[request] == task)
            && (task in m.tasksToRequests ==> m.tasksToRequests[task] == request)
  {
    var n := Associated(m, request, task);
    if request in m.requestsToTasks && m.requestsToTasks[request] != task {
      assert m.requestsToTasks[request] in n.tasksToRequests;
    }
    if task in m.tasksToRequests && m.tasksToRequests[task] != request {
      assert m.tasksToRequests[task] in n.requestsToTasks;
    }
  }

  /** Removing an associated pair undoes associating it. */
  lemma RemovalUndoes(m: Maps, request: Request, task: Task)
    requires Consistent(m) && request !in m.requestsToTasks && task !in m.tasksToRequests
    ensures Removed(Associated(m, request, task), request, task) == m
  {
    var n := Removed(Associated(m, request, task), request, task);
    assert n.tasksToRequests == m.tasksToRequests && n.requestsToTasks == m.requestsToTasks;
    assert n.taskEvents == m.taskEvents;
  }

  lemma RemovalConsistent(m: Maps, task: Task)
    requires Consistent(m) && task in m.tasksToRequests
    ensures Consistent(Removed(m, m.tasksToRequests[task], task))
  {
  }

  /** Fatal stands for fatalError. */
  datatype Disassociation = Fatal | Goes(m: Maps, removed: bool)

  /** Removing a task and its request. */
  function Disassociated(m: Maps, task: Task): Disassociation
  {
    if task !in m.tasksToRequests then Fatal else Goes(Removed(m, m.tasksToRequests[task], task), true)
  }

  function AfterMetrics(m: Maps, task: Task): Disassociation
  {
    if task !in m.taskEvents || m.taskEvents[task].metricsGathered then Fatal
    else if m.taskEvents[task].completed then Disassociated(m, task)
    else Goes(m.(taskEvents := m.taskEvents[task := Events(false, true)]), false)
  }

  function AfterCompletion(m: Maps, task: Task): Disassociation
  {
    if task !in m.taskEvents || m.taskEvents[task].completed then Fatal
    else if m.taskEvents[task].metricsGathered then Disassociated(m, task)
    else Goes(m.(taskEvents := m.taskEvents[task := Events(true, false)]), false)
  }

  class TaskMap {
    var tasksToRequests: map<Task, Request>
    var requestsToTasks: map<Request, Task>
    var taskEvents: map<Task, Events>

    ghost function Now(): Maps
      reads this
    {
      Maps(tasksToRequests, requestsToTasks, taskEvents)
    }

    constructor ()
      ensures Now() == Maps(map[], map[], map[])
    {
      tasksToRequests, requestsToTasks, taskEvents := map[], map[], map[];
    }

    /** The setter of `subscript(_ request:)`. */
    method SetTask(request: Request, newValue: Option<Task>) returns (fatal: bool)
      modifies this
      ensures fatal <==> newValue.None? && request !in old(requestsToTasks)
      ensures newValue.Some? ==> Now() == Associated(old(Now()), request, newValue.value)
      ensures newValue.None? && !fatal ==> Now() == Removed(old(Now()), request, old(requestsToTasks[request]))
      ensures fatal ==> Now() == old(Now())
    {
      if newValue.None? {
        if request !in requestsToTasks { return true; }
        var task := requestsToTasks[request];
        requestsToTasks := requestsToTasks - {request};
        tasksToRequests := tasksToRequests - {task};
        taskEvents := taskEvents - {task};
        return false;
      }
      requestsToTasks := requestsToTasks[request := newValue.value];
      tasksToRequests := tasksToRequests[newValue.value := request];
      taskEvents := taskEvents[newValue.value := Events(false, false)];
      return false;
    }

    /** The setter of `subscript(_ task:)`. */
    method SetRequest(task: Task, newValue: Option<Request>) returns (fatal: bool)
      modifies this
      ensures fatal <==> newValue.None? && task !in old(tasksToRequests)
      ensures newValue.Some? ==> Now() == Associated(old(Now()), newValue.value, task)
      ensures newValue.None? && !fatal ==> Now() == Removed(old(Now()), old(tasksToRequests[task]), task)
      ensures fatal ==> Now() == old(Now())
    {
      if newValue.None? {
        if task !in tasksToRequests { return true; }
        var request := tasksToRequests[task];
        tasksToRequests := tasksToRequests - {task};
        requestsToTasks := requestsToTasks - {request};
        taskEvents := taskEvents - {task};
        return false;
      }
      tasksToRequests := tasksToRequests[task := newValue.value];
      requestsToTasks := requestsToTasks[newValue.value := task];
      taskEvents := taskEvents[task := Events(false, false)];
      return false;
    }

    /** disassociateIfNecessaryAfterGatheringMetricsForTask */
    method DisassociateAfterGatheringMetrics(task: Task) returns (fatal: bool, removed: bool)
      modifies this
      ensures fatal <==> AfterMetrics(old(Now()), task).Fatal?
      ensures !fatal ==> AfterMetrics(old(Now()), task) == Goes(Now(), removed)
    {
      if task !in taskEvents { return true, false; }
      var events := taskEvents[task];
      if events.metricsGathered { return true, false; }
      if !events.completed {
        taskEvents := taskEvents[task := Events(false, true)];
        return false, false;
      }
      fatal := SetRequest(task, None);
      removed := true;
    }

    /** disassociateIfNecessaryAfterCompletingTask, where metrics are gathered */
    method DisassociateAfterCompletion(task: Task) returns (fatal: bool, removed: bool)
      modifies this
      ensures fatal <==> AfterCompletion(old(Now()), task).Fatal?
      ensures !fatal ==> AfterCompletion(old(Now()), task) == Goes(Now(), removed)
    {
      if task !in taskEvents { return true, false; }
      var events := taskEvents[task];
      if events.completed { return true, false; }
      if !events.metricsGathered {
        taskEvents := taskEvents[task := Events(true, false)];
        return false, false;
      }
      fatal := SetRequest(task, None);
      removed := true;
    }
  }
}
