/** The shared task table and its locked operations: as functions on the table, and in place. */
module TaskTable {
  import opened Common

  datatype State = NotAssigned | Assigned | Completed

  /** A task; owner is -1 for nobody. */
  datatype Task = Task(description: string, state: State, owner: int)

  const NOBODY: int := -1
  const BUSY: int := -2
  const NONE_LEFT: int := -1

  predicate AllCompleted(tasks: seq<Task>) {
    forall i :: 0 <= i < |tasks| ==> tasks[i].state == Completed
  }

  // The index of the first task in the state, or the length.
  function FirstIn(tasks: seq<Task>, state: State): (i: nat)
    ensures i <= |tasks|
    ensures i < |tasks| ==> tasks[i].state == state
    ensures forall j :: 0 <= j < i ==> tasks[j].state != state
  {
    if tasks == [] || tasks[0].state == state then 0 else 1 + FirstIn(tasks[1..], state)
  }

  /** get_next_task: busy while any task of any client is assigned; otherwise the first free task, if there is one. */
  function Next(tasks: seq<Task>): int {
    if FirstIn(tasks, Assigned) < |tasks| then BUSY
    else
      var i := FirstIn(tasks, NotAssigned);
      if i < |tasks| then i else NONE_LEFT
  }

  function Give(tasks: seq<Task>, client: int): (r: seq<Task>)
    ensures |r| == |tasks|
  {
    var i := Next(tasks);
    if i >= 0 then tasks[i := tasks[i].(state := Assigned, owner := client)] else tasks
  }

  /** What a request gets: busy exactly when some task is assigned, nothing exactly when all are completed, and
      otherwise the first free task, which is then recorded for the client; no other task changes. */
  lemma GivesFirstFree(tasks: seq<Task>, client: int)
    ensures var i, tasks' := Next(tasks), Give(tasks, client);
      && i >= -2 && (i == -2 <==> exists j :: 0 <= j < |tasks| && tasks[j].state == Assigned)
      && (i == -1 <==> AllCompleted(tasks))
      && (i < 0 <==> tasks' == tasks)
      && (i >= 0 ==> i < |tasks| && tasks[i].state == NotAssigned
                     && (forall j :: 0 <= j < i ==> tasks[j].state == Completed)
                     && tasks' == tasks[i := Task(tasks[i].description, Assigned, client)])
  {
    var i := Next(tasks);
    var a, n := FirstIn(tasks, Assigned), FirstIn(tasks, NotAssigned);
    if i >= 0 {
      assert Give(tasks, client)[i].state == Assigned;
    }
    if i == -1 {
      assert a == |tasks| && n == |tasks|;
      forall j | 0 <= j < |tasks| ensures tasks[j].state == Completed {
      }
    }
  }

  function Complete(tasks: seq<Task>, i: int): (r: seq<Task>)
    ensures |r| == |tasks|
  {
    if 0 <= i < |tasks| then tasks[i := tasks[i].(state := Completed)] else tasks
  }

  function Released(t: Task): Task {
    t.(state := NotAssigned, owner := NOBODY)
  }

  /** The reassignment of an inactive client's task. */
  function Release(tasks: seq<Task>, i: int): (r: seq<Task>)
    ensures |r| == |tasks|
  {
    if 0 <= i < |tasks| then tasks[i := Released(tasks[i])] else tasks
  }

  /** clear_assigned_tasks: every task recorded for the client, completed ones too, is free again; no other changes. */
  function Clear(tasks: seq<Task>, client: int): (r: seq<Task>)
    ensures |r| == |tasks|
    ensures forall i :: 0 <= i < |tasks| ==> r[i] == if tasks[i].owner == client then Released(tasks[i]) else tasks[i]
  {
    if tasks == [] then []
    else [if tasks[0].owner == client then Released(tasks[0]) else tasks[0]] + Clear(tasks[1..], client)
  }

  // ---------------------------------------------------------------- in place

  const MAX_TASKS: int := 100

  /** SharedData. Each method body is one critical section of the mutex. */
  class SharedData {
    const tasks: array<Task>
    var taskCount: nat
    var serverShutdown: bool

    ghost predicate Valid()
      reads this
    {
      tasks.Length == MAX_TASKS && taskCount <= MAX_TASKS
    }

    ghost function Table(): seq<Task>
      requires Valid()
      reads this, tasks
    {
      tasks[..taskCount]
    }

    /** init_shared_memory and load_tasks, which takes the first 100 descriptions. */
    constructor (descriptions: seq<string>)
      ensures Valid() && fresh(tasks) && !serverShutdown
      ensures |Table()| == if |descriptions| <= 100 then |descriptions| else 100
      ensures forall i :: 0 <= i < |Table()| ==> Table()[i] == Task(descriptions[i], NotAssigned, NOBODY)
    {
      var a := new Task[MAX_TASKS](_ => Task("", NotAssigned, 0));
      tasks := a;
      taskCount := 0;
      serverShutdown := false;
      new;
      var count := 0;
      while count < |descriptions| && count < MAX_TASKS
        invariant count <= |descriptions| && count <= MAX_TASKS && tasks == a && !serverShutdown
        invariant forall i :: 0 <= i < count ==> tasks[i] == Task(descriptions[i], NotAssigned, NOBODY)
      {
        tasks[count] := Task(descriptions[count], NotAssigned, NOBODY);
        count := count + 1;
      }
      taskCount := count;
    }

    method GetNextTask(client: int) returns (index: int)
      requires Valid()
      modifies tasks
      ensures Valid() && index == Next(old(Table())) && Table() == Give(old(Table()), client)
      ensures index == -2 || (index == -1 && AllCompleted(old(Table())))
        || (0 <= index < taskCount && old(Table())[index].state == NotAssigned
            && (forall j :: 0 <= j < index ==> old(Table())[j].state == Completed)
            && Table() == old(Table())[index := Task(old(Table())[index].description, Assigned, client)])
    {
      GivesFirstFree(Table(), client);
      for i := 0 to taskCount
        invariant forall j :: 0 <= j < i ==> tasks[j].state != Assigned
        invariant Table() == old(Table())
      {
        if tasks[i].state == Assigned {
          assert Table()[i].state == Assigned;
          return BUSY;
        }
      }
      for i := 0 to taskCount
        invariant forall j :: 0 <= j < taskCount ==> tasks[j].state != Assigned
        invariant forall j :: 0 <= j < i ==> tasks[j].state != NotAssigned
        invariant Table() == old(Table())
      {
        if tasks[i].state == NotAssigned {
          assert FirstIn(Table(), NotAssigned) == i;
          tasks[i] := tasks[i].(state := Assigned, owner := client);
          return i;
        }
      }
      return NONE_LEFT;
    }

    method CompleteTask(index: int)
      requires Valid()
      modifies tasks
      ensures Valid() && Table() == Complete(old(Table()), index)
    {
      if index >= 0 && index < taskCount {
        tasks[index] := tasks[index].(state := Completed);
      }
    }

    method ReleaseTask(index: nat)
      requires Valid() && index < taskCount
      modifies tasks
      ensures Valid() && Table() == Release(old(Table()), index)
    {
      tasks[index] := tasks[index].(state := NotAssigned);
      tasks[index] := tasks[index].(owner := NOBODY);
    }

    method ClearAssignedTasks(client: int)
      requires Valid()
      modifies tasks
      ensures Valid() && Table() == Clear(old(Table()), client)
    {
      ghost var was, goal := Table(), Clear(Table(), client);
      hide Clear;
      for i := 0 to taskCount
        invariant forall j :: 0 <= j < i ==> tasks[j] == goal[j]
        invariant forall j :: i <= j < taskCount ==> tasks[j] == was[j]
      {
        assert goal[i] == if was[i].owner == client then Released(was[i]) else was[i];
        if tasks[i].owner == client {
          tasks[i] := tasks[i].(state := NotAssigned, owner := NOBODY);
        }
      }
    }

    method AllTasksCompleted() returns (all: bool)
      requires Valid()
      ensures all == AllCompleted(Table())
    {
      all := true;
      for i := 0 to taskCount
        invariant forall j :: 0 <= j < i ==> tasks[j].state == Completed
        invariant all
      {
        if tasks[i].state != Completed {
          all := false;
          assert Table()[i].state != Completed;
          break;
        }
      }
    }
  }

  // ---------------------------------------------------------------- one pass of a handler's loop

  datatype Message = Exit | GetTask | Result | Other
  datatype Received = Got(buffer: string) | Closed | WouldBlock | Failed
  datatype Reply = ShuttingDown | Busy | Assignment(description: string) | NoTasks | ResultReceived

  // The strncmp chain on a received buffer.
  function Kind(buffer: string): Message {
    if "exit" <= buffer then Exit
    else if "GET_TASK" <= buffer then GetTask
    else if "RESULT" <= buffer then Result
    else Other
  }

  /** The table, the handler's current task, whether it goes on, and what it sends. */
  datatype Pass = Pass(tasks: seq<Task>, current: int, live: bool, reply: Option<Reply>)

  function HandlerPass(
    tasks: seq<Task>, shutdown: bool, client: int, current: int, expired: bool, received: Received): Pass
  {
    if expired && current != -1 then Pass(Release(tasks, current), -1, false, None)
    else if shutdown then Pass(tasks, current, false, Some(ShuttingDown))
    else match received {
      case Got(buffer) =>
        (match Kind(buffer) {
          case Exit => Pass(tasks, current, false, None)
          case GetTask =>
            var i := Next(tasks);
            if i == BUSY then Pass(tasks, current, true, Some(Busy))
            else if i >= 0 then Pass(Give(tasks, client), i, true, Some(Assignment(tasks[i].description)))
            else Pass(tasks, current, true, Some(NoTasks))
          case Result =>
            if current >= 0 then Pass(Complete(tasks, current), -1, true, Some(ResultReceived))
            else Pass(tasks, current, true, None)
          case Other => Pass(tasks, current, true, None)
        })
      case Closed => Pass(Clear(tasks, client), current, false, None)
      case WouldBlock => Pass(tasks, current, true, None)
      case Failed => Pass(tasks, current, false, None)
    }
  }

  /** The process that serves one client. */
  class Handler {
    const data: SharedData
    const clientId: int
    var currentTask: int

    constructor (data: SharedData, clientId: int)
      ensures this.data == data && this.clientId == clientId && currentTask == -1
    {
      this.data := data;
      this.clientId := clientId;
      currentTask := -1;
    }

    /** One pass of the loop of handle_client; the loop ends when live is false. */
    method Once(expired: bool, received: Received) returns (live: bool, reply: Option<Reply>)
      requires data.Valid() && -1 <= currentTask < data.taskCount
      modifies this, data.tasks
      ensures data.Valid()
      ensures Pass(data.Table(), currentTask, live, reply)
        == HandlerPass(old(data.Table()), data.serverShutdown, clientId, old(currentTask), expired, received)
      ensures -1 <= currentTask < data.taskCount
    {
      live, reply := true, None;
      if expired && currentTask != -1 {
        data.ReleaseTask(currentTask);
        currentTask := -1;
        live := false;
        return;
      }
      if data.serverShutdown {
        live, reply := false, Some(ShuttingDown);
        return;
      }
      match received {
        case Got(buffer) =>
          if "exit" <= buffer {
            live := false;
          } else if "GET_TASK" <= buffer {
            var index := data.GetNextTask(clientId);
            if index == BUSY {
              reply := Some(Busy);
            } else if index >= 0 {
              reply := Some(Assignment(data.tasks[index].description));
              currentTask := index;
            } else {
              reply := Some(NoTasks);
            }
          } else if "RESULT" <= buffer {
            if currentTask >= 0 {
              data.CompleteTask(currentTask);
              currentTask := -1;
              reply := Some(ResultReceived);
            }
          }
        case Closed =>
          data.ClearAssignedTasks(clientId);
          live := false;
        case WouldBlock =>
        case Failed =>
          live := false;
      }
    }
  }
}
