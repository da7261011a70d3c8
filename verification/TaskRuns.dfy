/** Runs of the task-queue server: any number of handlers and the main loop, their critical sections in any order. */
module TaskRuns {
  import opened Common
  import opened TaskTable

  // The main loop: accepting, past a successful all_tasks_completed, or ended with the shutdown flag set.
  datatype Main = Accepting | Deciding | Stopped

  /** The table, the live handlers' current tasks by client id, the next id, and the main loop. */
  datatype World = World(tasks: seq<Task>, current: map<int, int>, nextId: int, main: Main)

  /** One atomic step. Leave is an exit command, a failed recv or a seen shutdown: the handler ends and clears nothing.
      Disconnect is a recv of zero bytes. */
  datatype Event =
    | Connect
    | Get(c: int)
    | Report(c: int)
    | Expire(c: int)
    | Leave(c: int)
    | Disconnect(c: int)
    | Check
    | SetShutdown

  function Step(w: World, e: Event): World {
    match e {
      case Connect =>
        if w.main == Accepting then w.(current := w.current[w.nextId := -1], nextId := w.nextId + 1) else w
      case Get(c) =>
        if c !in w.current then w
        else
          var i := Next(w.tasks);
          w.(tasks := Give(w.tasks, c), current := if i >= 0 then w.current[c := i] else w.current)
      case Report(c) =>
        if c in w.current && w.current[c] >= 0 then
          w.(tasks := Complete(w.tasks, w.current[c]), current := w.current[c := -1])
        else w
      case Expire(c) =>
        if c in w.current && w.current[c] != -1 then
          w.(tasks := Release(w.tasks, w.current[c]), current := w.current - {c})
        else w
      case Leave(c) => w.(current := w.current - {c})
      case Disconnect(c) => if c in w.current then w.(tasks := Clear(w.tasks, c), current := w.current - {c}) else w
      case Check => if w.main == Accepting && AllCompleted(w.tasks) && |w.tasks| > 0 then w.(main := Deciding) else w
      case SetShutdown => if w.main == Deciding then w.(main := Stopped) else w
    }
  }

  function Run(w: World, events: seq<Event>): World {
    if events == [] then w else Step(Run(w, events[..|events| - 1]), events[|events| - 1])
  }

  function Start(descriptions: seq<string>): World {
    World(seq(|descriptions|, i requires 0 <= i < |descriptions| => Task(descriptions[i], NotAssigned, NOBODY)),
          map[], 0, Accepting)
  }

  /** The step that a pass of a live handler's loop is; none when it only waits or ignores what it received. */
  function StepOf(w: World, c: int, expired: bool, received: Received): Option<Event>
    requires c in w.current
  {
    if expired && w.current[c] != -1 then Some(Expire(c))
    else if w.main == Stopped then Some(Leave(c))
    else match received {
      case Got(buffer) =>
        (match Kind(buffer) {
          case Exit => Some(Leave(c))
          case GetTask => Some(Get(c))
          case Result => Some(Report(c))
          case Other => None
        })
      case Closed => Some(Disconnect(c))
      case WouldBlock => None
      case Failed => Some(Leave(c))
    }
  }

  // ---------------------------------------------------------------- invariant

  // Client c's task is i, by the table.
  predicate Holds(w: World, c: int, i: int) {
    0 <= i < |w.tasks| && w.tasks[i].state == Assigned && w.tasks[i].owner == c
  }

  ghost predicate OneAssigned(tasks: seq<Task>) {
    forall i, j :: 0 <= i < |tasks| && 0 <= j < |tasks| && tasks[i].state == Assigned && tasks[j].state == Assigned ==>
      i == j
  }

  predicate TaskInv(t: Task, nextId: int) {
    (t.state == NotAssigned <==> t.owner == NOBODY) && -1 <= t.owner < nextId
  }

  ghost predicate Inv(w: World) {
    && w.nextId >= 0
    && OneAssigned(w.tasks)
    && (forall i :: 0 <= i < |w.tasks| ==> TaskInv(w.tasks[i], w.nextId))
    && (forall c :: c in w.current ==> 0 <= c < w.nextId && w.current[c] >= -1)
    && (forall c, i :: c in w.current && i >= 0 ==> (w.current[c] == i <==> Holds(w, c, i)))
  }

  lemma HolderOf(w: World, c: int)
    requires Inv(w) && c in w.current
    ensures w.current[c] >= 0 ==> Holds(w, c, w.current[c])
  {
  }

  /** A client without a task is told to finish its task first exactly when some other client's task is assigned; a
      client with a task is always told so. */
  lemma BusyForOthers(w: World, c: int)
    requires Inv(w) && c in w.current
    ensures w.current[c] == -1 ==> (Next(w.tasks) == BUSY <==> exists x, i :: x != c && Holds(w, x, i))
    ensures w.current[c] >= 0 ==> Next(w.tasks) == BUSY
  {
    var i := FirstIn(w.tasks, Assigned);
    if i < |w.tasks| {
      assert Holds(w, w.tasks[i].owner, i);
    }
    HolderOf(w, c);
  }

  lemma StepKeeps(w: World, e: Event)
    requires Inv(w)
    ensures Inv(Step(w, e))
  {
    match e {
      case Get(c) =>
        GetKeeps(w, c);
      case Report(c) =>
        ReportKeeps(w, c);
      case Expire(c) =>
        ExpireKeeps(w, c);
      case Disconnect(c) =>
        DisconnectKeeps(w, c);
      case Connect =>
        ConnectKeeps(w);
      case Leave(c) =>
        LeaveKeeps(w, c);
      case _ =>
        assert forall c, i :: Holds(Step(w, e), c, i) == Holds(w, c, i);
    }
  }

  lemma ConnectKeeps(w: World)
    requires Inv(w)
    ensures Inv(Step(w, Connect))
  {
    var w' := Step(w, Connect);
    assert forall c, i :: Holds(w', c, i) == Holds(w, c, i);
  }

  lemma LeaveKeeps(w: World, c: int)
    requires Inv(w)
    ensures Inv(Step(w, Leave(c)))
  {
    var w' := Step(w, Leave(c));
    assert forall x, i :: Holds(w', x, i) == Holds(w, x, i);
  }

  lemma GetKeeps(w: World, c: int)
    requires Inv(w)
    ensures Inv(Step(w, Get(c)))
  {
    var i := Next(w.tasks);
    if c in w.current && i >= 0 {
      var w' := Step(w, Get(c));
      forall x, j | x in w'.current && j >= 0 ensures w'.current[x] == j <==> Holds(w', x, j) {
        assert w.current[x] == j <==> Holds(w, x, j);
      }
    }
  }

  lemma ReportKeeps(w: World, c: int)
    requires Inv(w)
    ensures Inv(Step(w, Report(c)))
  {
    if c in w.current && w.current[c] >= 0 {
      var w' := Step(w, Report(c));
      assert Holds(w, c, w.current[c]);
      forall x, j | x in w'.current && j >= 0 ensures w'.current[x] == j <==> Holds(w', x, j) {
        assert w.current[x] == j <==> Holds(w, x, j);
      }
    }
  }

  lemma ExpireKeeps(w: World, c: int)
    requires Inv(w)
    ensures Inv(Step(w, Expire(c)))
  {
    if c in w.current && w.current[c] != -1 {
      var w' := Step(w, Expire(c));
      assert Holds(w, c, w.current[c]);
      forall x, j | x in w'.current && j >= 0 ensures w'.current[x] == j <==> Holds(w', x, j) {
        assert w.current[x] == j <==> Holds(w, x, j);
      }
    }
  }

  lemma DisconnectKeeps(w: World, c: int)
    requires Inv(w)
    ensures Inv(Step(w, Disconnect(c)))
  {
    if c in w.current {
      var w' := Step(w, Disconnect(c));
      forall x, j | x in w'.current && j >= 0 ensures w'.current[x] == j <==> Holds(w', x, j) {
        assert w.current[x] == j <==> Holds(w, x, j);
      }
    }
  }

  /** For any number of clients and any interleaving: at most one task is assigned; a task is free exactly when it has
      no owner; and a live handler's current task is i exactly when task i is assigned to it. */
  lemma {:induction false} AlwaysInv(descriptions: seq<string>, events: seq<Event>)
    ensures Inv(Run(Start(descriptions), events))
  {
    if events == [] {
      assert forall c, i :: !Holds(Start(descriptions), c, i);
    } else {
      AlwaysInv(descriptions, events[..|events| - 1]);
      StepKeeps(Run(Start(descriptions), events[..|events| - 1]), events[|events| - 1]);
    }
  }

  /** A handler's pass on the table is exactly the step it is named by. */
  lemma PassIsStep(w: World, c: int, expired: bool, received: Received)
    requires c in w.current && w.current[c] >= -1
    ensures var p := HandlerPass(w.tasks, w.main == Stopped, c, w.current[c], expired, received);
      var e := StepOf(w, c, expired, received);
      (if e.None? then w else Step(w, e.value))
        == w.(tasks := p.tasks, current := if p.live then w.current[c := p.current] else w.current - {c})
  {
    var e := StepOf(w, c, expired, received);
    assert w.current == w.current[c := w.current[c]];
    hide Next, Give, Complete, Release, Clear;
    NextNegative(w.tasks);
  }

  lemma NextNegative(tasks: seq<Task>)
    ensures Next(tasks) < 0 ==> forall c :: Give(tasks, c) == tasks
  {
  }

  /** The loop of c's handler comes to look at a received line that starts so. */
  predicate Hears(w: World, c: int, expired: bool, received: Received, start: string)
    requires c in w.current
  {
    && !(expired && w.current[c] != -1) && w.main != Stopped
    && received.Got? && start <= received.buffer
  }

  // The world after a pass of c's handler.
  function Passed(w: World, c: int, p: Pass): World
    requires c in w.current
  {
    w.(tasks := p.tasks, current := if p.live then w.current[c := p.current] else w.current - {c})
  }

  /** What a handler answers. To a request for a task: the description of the task that is recorded for its client from
      now on, and was not before; or busy, exactly when some task is assigned; or that there is none, exactly when all
      are completed. To a result: that it was received, exactly when the client has a task, which is completed then.
      That the server shuts down, exactly when it does and the client has not been given up. */
  lemma RepliesExactly(w: World, c: int, expired: bool, received: Received)
    requires Inv(w) && c in w.current
    ensures var p := HandlerPass(w.tasks, w.main == Stopped, c, w.current[c], expired, received);
      var w' := Passed(w, c, p); var asks := Hears(w, c, expired, received, "GET_TASK");
      && (forall d :: p.reply == Some(Assignment(d)) <==>
            && asks && c in w'.current && w'.current[c] != w.current[c]
            && Holds(w', c, w'.current[c]) && d == w'.tasks[w'.current[c]].description)
      && (p.reply == Some(Busy) <==> asks && exists x, i :: Holds(w, x, i))
      && (p.reply == Some(NoTasks) <==> asks && AllCompleted(w.tasks))
      && (p.reply == Some(ResultReceived) <==>
            Hears(w, c, expired, received, "RESULT") && exists i :: Holds(w, c, i) && w'.tasks[i].state == Completed)
      && (p.reply == Some(ShuttingDown) <==> w.main == Stopped && !(expired && w.current[c] != -1))
  {
    hide Next, Give, Release, Clear, Inv;
    if received.Got? {
      assert "GET_TASK" <= received.buffer ==> received.buffer[0] == 'G';
      assert "exit" <= received.buffer ==> received.buffer[0] == 'e';
      assert "RESULT" <= received.buffer ==> received.buffer[0] == 'R';
    }
    GivesFirstFree(w.tasks, c);
    SomeHeld(w);
    ReportedTask(w, c);
    var i := if w.current[c] >= 0 then w.current[c] else Next(w.tasks);
    assert w.current[c] >= 0 ==> Holds(w, c, i);
    var p := HandlerPass(w.tasks, w.main == Stopped, c, w.current[c], expired, received);
    var w' := Passed(w, c, p);
    assert p.reply.Some? && p.reply.value.Assignment? ==> Holds(w', c, Next(w.tasks));
    assert p.reply == Some(ResultReceived) ==> Holds(w, c, i) && w'.tasks[i].state == Completed;
  }

  // What a pass does to one task.
  datatype Change = Kept | Freed | Given | Finished

  function ChangeOf(t: Task, t': Task): Change {
    if t' == t then Kept
    else if t'.state == NotAssigned then Freed
    else if t'.state == Assigned then Given
    else Finished
  }

  /** What a pass does to the table, and when it is the handler's last. A task is freed exactly when its client is given
      up while holding it, or closes its connection and the task is recorded for it. It is given away exactly when the
      client asks while none is assigned and all before it are completed, and finished exactly when the client that
      holds it reports. A failed recv, an exit command and a shutdown end the handler and free nothing. */
  lemma TableExactly(w: World, c: int, expired: bool, received: Received, i: int)
    requires Inv(w) && c in w.current && 0 <= i < |w.tasks|
    ensures var p := HandlerPass(w.tasks, w.main == Stopped, c, w.current[c], expired, received);
      var givenUp := expired && w.current[c] != -1;
      var closed := !givenUp && w.main != Stopped && received.Closed?;
      && |p.tasks| == |w.tasks| && var t, t' := w.tasks[i], p.tasks[i];
      && t'.description == t.description
      && (ChangeOf(t, t') == Freed <==> (givenUp && Holds(w, c, i)) || (closed && t.owner == c))
      && (ChangeOf(t, t') == Given <==>
            && Hears(w, c, expired, received, "GET_TASK") && (forall x, j :: !Holds(w, x, j))
            && t.state == NotAssigned && forall j :: 0 <= j < i ==> w.tasks[j].state == Completed)
      && (ChangeOf(t, t') == Finished <==> Hears(w, c, expired, received, "RESULT") && Holds(w, c, i))
      && (ChangeOf(t, t') == Freed ==> t'.owner == -1) && (ChangeOf(t, t') == Given ==> t'.owner == c)
      && (ChangeOf(t, t') == Finished ==> t'.owner == c)
      && (p.live <==> !givenUp && w.main != Stopped && !received.Closed? && !received.Failed?
                      && !Hears(w, c, expired, received, "exit"))
  {
    hide Next, Give, Clear, Inv;
    if received.Got? {
      assert "GET_TASK" <= received.buffer ==> received.buffer[0] == 'G';
      assert "exit" <= received.buffer ==> received.buffer[0] == 'e';
      assert "RESULT" <= received.buffer ==> received.buffer[0] == 'R';
    }
    GivesFirstFree(w.tasks, c);
    SomeHeld(w);
    ReportedTask(w, c);
    OwnedTask(w, c, i);
  }

  lemma OwnedTask(w: World, c: int, i: int)
    requires Inv(w) && c in w.current && 0 <= i < |w.tasks|
    ensures c >= 0 && (w.tasks[i].state == NotAssigned <==> w.tasks[i].owner == -1)
  {
    assert TaskInv(w.tasks[i], w.nextId);
  }

  lemma SomeHeld(w: World)
    ensures (exists x, i :: Holds(w, x, i)) <==> exists j :: 0 <= j < |w.tasks| && w.tasks[j].state == Assigned
  {
    if j :| 0 <= j < |w.tasks| && w.tasks[j].state == Assigned {
      assert Holds(w, w.tasks[j].owner, j);
    }
  }

  lemma ReportedTask(w: World, c: int)
    requires Inv(w) && c in w.current
    ensures forall i :: Holds(w, c, i) <==> w.current[c] >= 0 && w.current[c] == i
    ensures w.current[c] >= 0 ==>
      w.current[c] < |w.tasks| && Complete(w.tasks, w.current[c])[w.current[c]].state == Completed
    ensures w.current[c] >= -1
  {
    HolderOf(w, c);
  }

  /** No task's description ever changes. */
  lemma {:induction false} DescriptionsKept(descriptions: seq<string>, events: seq<Event>)
    ensures var tasks := Run(Start(descriptions), events).tasks;
      |tasks| == |descriptions| && forall i :: 0 <= i < |tasks| ==> tasks[i].description == descriptions[i]
  {
    if events != [] {
      var w, e := Run(Start(descriptions), events[..|events| - 1]), events[|events| - 1];
      DescriptionsKept(descriptions, events[..|events| - 1]);
      assert forall i :: 0 <= i < |w.tasks| ==> Step(w, e).tasks[i].description == w.tasks[i].description;
    }
  }

  // ---------------------------------------------------------------- completed tasks and the shutdown

  // Client c has a task recorded.
  ghost predicate Owns(w: World, c: int) {
    exists i :: 0 <= i < |w.tasks| && w.tasks[i].owner == c
  }

  /** This step is a zero-byte disconnect of a recorded owner after the check has succeeded. */
  ghost predicate LateLoss(w: World, e: Event) {
    e.Disconnect? && e.c in w.current && w.main != Accepting && Owns(w, e.c)
  }

  ghost predicate NoLateLoss(w: World, events: seq<Event>) {
    events == [] ||
    var before, e := events[..|events| - 1], events[|events| - 1];
    NoLateLoss(w, before) && !LateLoss(Run(w, before), e)
  }

  // At every point of the run, a main loop past its check finds every task completed.
  ghost predicate AlwaysFinished(w: World, events: seq<Event>) {
    (Run(w, events).main != Accepting ==> AllCompleted(Run(w, events).tasks))
    && (events == [] || AlwaysFinished(w, events[..|events| - 1]))
  }

  lemma FinishedStep(w: World, e: Event)
    requires Inv(w) && (w.main != Accepting ==> AllCompleted(w.tasks))
    ensures (Step(w, e).main != Accepting ==> AllCompleted(Step(w, e).tasks)) <==> !LateLoss(w, e)
  {
    if w.main != Accepting {
      assert Next(w.tasks) < 0;
      forall c | c in w.current ensures w.current[c] == -1 {
        HolderOf(w, c);
      }
      if e.Disconnect? && e.c in w.current {
        var w' := Step(w, e);
        if Owns(w, e.c) {
          var i :| 0 <= i < |w.tasks| && w.tasks[i].owner == e.c;
          assert w'.tasks[i].state == NotAssigned;
        }
      }
    }
  }

  /** The shutdown follows only the completion of every task, and stays so, exactly when no client with a recorded
      task is disconnected between the check (or the flag) and the end of the run. */
  lemma {:induction false} ShutdownAfterCompletion(descriptions: seq<string>, events: seq<Event>)
    ensures AlwaysFinished(Start(descriptions), events) <==> NoLateLoss(Start(descriptions), events)
  {
    if events != [] {
      var init := events[..|events| - 1];
      ShutdownAfterCompletion(descriptions, init);
      AlwaysInv(descriptions, init);
      if AlwaysFinished(Start(descriptions), init) {
        FinishedStep(Run(Start(descriptions), init), events[|events| - 1]);
      }
    }
  }

  /** No step but a zero-byte disconnect reverts a completed task; a disconnect frees exactly the tasks recorded for its
      client, completed ones included, and changes no other. */
  lemma CompletedStays(w: World, e: Event, i: int)
    requires Inv(w) && 0 <= i < |w.tasks|
    ensures w.tasks[i].state == Completed && !e.Disconnect? ==> Step(w, e).tasks[i] == w.tasks[i]
    ensures e.Disconnect? && e.c in w.current ==>
      Step(w, e).tasks[i] == if w.tasks[i].owner == e.c then Released(w.tasks[i]) else w.tasks[i]
  {
    forall c | c in w.current ensures w.current[c] >= 0 ==> Holds(w, c, w.current[c]) {
      HolderOf(w, c);
    }
  }

  /** In a stretch of a run without zero-byte disconnects a completed task keeps its state and its owner. */
  lemma {:induction false} CompletedForever(w: World, events: seq<Event>, i: int)
    requires Inv(w) && 0 <= i < |w.tasks| && w.tasks[i].state == Completed
    requires forall e :: e in events ==> !e.Disconnect?
    ensures Inv(Run(w, events)) && |Run(w, events).tasks| == |w.tasks| && Run(w, events).tasks[i] == w.tasks[i]
  {
    if events != [] {
      CompletedForever(w, events[..|events| - 1], i);
      CompletedStays(Run(w, events[..|events| - 1]), events[|events| - 1], i);
      StepKeeps(Run(w, events[..|events| - 1]), events[|events| - 1]);
    }
  }

  // ---------------------------------------------------------------- orphaned tasks

  /** Task i is assigned to a client whose handler has ended. */
  predicate Orphan(w: World, i: int) {
    0 <= i < |w.tasks| && w.tasks[i].state == Assigned && w.tasks[i].owner !in w.current
  }

  ghost predicate Orphaned(w: World) {
    exists i :: Orphan(w, i)
  }

  /** A handler that ends without clearing leaves an orphan behind exactly when it was holding a task. */
  lemma LeavingOrphans(w: World, c: int)
    requires Inv(w) && c in w.current && !Orphaned(w)
    ensures Orphaned(Step(w, Leave(c))) <==> w.current[c] >= 0
  {
    var w' := Step(w, Leave(c));
    if w.current[c] >= 0 {
      assert Holds(w, c, w.current[c]);
      assert Orphan(w', w.current[c]);
    }
    if i :| Orphan(w', i) {
      assert !Orphan(w, i);
      assert Holds(w, c, i);
    }
  }

  /** An orphan stays one in every continuation. Meanwhile no task is ever given out, and no check succeeds. */
  lemma OrphanStays(w: World, e: Event, i: int)
    requires Inv(w) && Orphan(w, i)
    ensures Orphan(Step(w, e), i)
    ensures Next(w.tasks) == BUSY
    ensures w.main == Accepting ==> Step(w, e).main == Accepting
  {
    assert w.tasks[i].state == Assigned;
    forall c | c in w.current ensures w.current[c] == -1 {
      HolderOf(w, c);
    }
  }

  lemma {:induction false} OrphanForever(w: World, events: seq<Event>, i: int)
    requires Inv(w) && Orphan(w, i)
    ensures Inv(Run(w, events)) && Orphan(Run(w, events), i)
    ensures Next(Run(w, events).tasks) == BUSY
    ensures w.main == Accepting ==> Run(w, events).main == Accepting
  {
    OrphanStays(w, Check, i);
    if events != [] {
      OrphanForever(w, events[..|events| - 1], i);
      OrphanStays(Run(w, events[..|events| - 1]), events[|events| - 1], i);
      StepKeeps(Run(w, events[..|events| - 1]), events[|events| - 1]);
      OrphanStays(Run(w, events), Check, i);
    }
  }

  // ---------------------------------------------------------------- the queue can finish unless a task is orphaned

  function Unfinished(tasks: seq<Task>): nat {
    if tasks == [] then 0 else (if tasks[0].state == Completed then 0 else 1) + Unfinished(tasks[1..])
  }

  lemma {:induction false} UnfinishedZero(tasks: seq<Task>)
    ensures Unfinished(tasks) == 0 <==> AllCompleted(tasks)
  {
    if tasks != [] {
      UnfinishedZero(tasks[1..]);
      assert forall i :: 0 < i < |tasks| ==> tasks[i] == tasks[1..][i - 1];
      assert forall i :: 0 <= i < |tasks| - 1 ==> tasks[1..][i] == tasks[i + 1];
    }
  }

  lemma {:induction false} UnfinishedUpdate(tasks: seq<Task>, i: nat, t: Task)
    requires i < |tasks|
    ensures Unfinished(tasks[i := t])
      == Unfinished(tasks) - (if tasks[i].state == Completed then 0 else 1) + (if t.state == Completed then 0 else 1)
  {
    if i == 0 {
      assert tasks[0 := t][1..] == tasks[1..];
    } else {
      assert tasks[i := t][1..] == tasks[1..][i - 1 := t];
      UnfinishedUpdate(tasks[1..], i - 1, t);
    }
  }

  lemma {:induction false} RunAppend(w: World, xs: seq<Event>, ys: seq<Event>)
    ensures Run(w, xs + ys) == Run(Run(w, xs), ys)
    decreases |ys|
  {
    if ys == [] {
      assert xs + ys == xs;
    } else {
      assert (xs + ys)[..|xs + ys| - 1] == xs + ys[..|ys| - 1];
      RunAppend(w, xs, ys[..|ys| - 1]);
    }
  }

  // The holder reports.
  lemma ReportFinishes(w: World, c: int)
    requires Inv(w) && c in w.current && w.current[c] >= 0 && w.main == Accepting
    ensures var w' := Step(w, Report(c));
      && Inv(w') && w'.main == Accepting && |w'.tasks| == |w.tasks| && c in w'.current && w'.current[c] == -1
      && Unfinished(w'.tasks) == Unfinished(w.tasks) - 1
      && (forall i :: 0 <= i < |w.tasks| ==> w'.tasks[i].state != Assigned)
  {
    StepKeeps(w, Report(c));
    var i := w.current[c];
    assert Holds(w, c, i);
    UnfinishedUpdate(w.tasks, i, w.tasks[i].(state := Completed));
  }

  // A client with nothing to do gets the next task.
  lemma GetAssigns(w: World, c: int)
    requires Inv(w) && c in w.current && w.main == Accepting && !AllCompleted(w.tasks)
    requires forall i :: 0 <= i < |w.tasks| ==> w.tasks[i].state != Assigned
    ensures var w' := Step(w, Get(c));
      && Inv(w') && w'.main == Accepting && |w'.tasks| == |w.tasks|
      && c in w'.current && w'.current[c] >= 0 && Unfinished(w'.tasks) == Unfinished(w.tasks)
  {
    StepKeeps(w, Get(c));
    var i := Next(w.tasks);
    var k :| 0 <= k < |w.tasks| && w.tasks[k].state != Completed;
    assert w.tasks[k].state == NotAssigned;
    assert i >= 0;
    UnfinishedUpdate(w.tasks, i, w.tasks[i].(state := Assigned, owner := c));
  }

  lemma {:induction false} WorkOff(w: World, c: int) returns (events: seq<Event>)
    requires Inv(w) && c in w.current && w.main == Accepting
    requires forall i :: 0 <= i < |w.tasks| ==> w.tasks[i].state != Assigned
    ensures var w' := Run(w, events); w'.main == Accepting && AllCompleted(w'.tasks) && |w'.tasks| == |w.tasks|
    decreases Unfinished(w.tasks)
  {
    UnfinishedZero(w.tasks);
    if AllCompleted(w.tasks) {
      events := [];
    } else {
      GetAssigns(w, c);
      var w1 := Step(w, Get(c));
      ReportFinishes(w1, c);
      var w2 := Step(w1, Report(c));
      var rest := WorkOff(w2, c);
      events := [Get(c), Report(c)] + rest;
      RunTwo(w, Get(c), Report(c));
      RunAppend(w, [Get(c), Report(c)], rest);
    }
  }

  lemma RunTwo(w: World, e: Event, e': Event)
    ensures Run(w, [e]) == Step(w, e) && Run(w, [e, e']) == Step(Step(w, e), e')
  {
    assert [e][..0] == [];
    assert [e, e'][..1] == [e];
  }

  ghost predicate CanShutDown(w: World) {
    exists events :: Run(w, events).main == Stopped
  }

  lemma ShutDownAfter(w: World, events: seq<Event>)
    requires Run(w, events).main == Accepting && AllCompleted(Run(w, events).tasks) && |Run(w, events).tasks| > 0
    ensures CanShutDown(w)
  {
    RunAppend(w, events, [Check, SetShutdown]);
    RunTwo(Run(w, events), Check, SetShutdown);
    assert Run(w, events + [Check, SetShutdown]).main == Stopped;
  }

  // A server without tasks never checks successfully.
  lemma {:induction false} EmptyNeverShutsDown(w: World, events: seq<Event>)
    requires |w.tasks| == 0 && w.main == Accepting
    ensures |Run(w, events).tasks| == 0 && Run(w, events).main == Accepting
  {
    if events != [] {
      EmptyNeverShutsDown(w, events[..|events| - 1]);
    }
  }

  /** While the server is accepting, it can still come to its shutdown exactly when it has a task and none is orphaned.
      */
  lemma CanShutDownUnlessOrphaned(w: World)
    requires Inv(w) && w.main == Accepting
    ensures CanShutDown(w) <==> |w.tasks| > 0 && !Orphaned(w)
  {
    if |w.tasks| == 0 {
      forall events ensures Run(w, events).main == Accepting {
        EmptyNeverShutsDown(w, events);
      }
    } else if i :| Orphan(w, i) {
      forall events ensures Run(w, events).main == Accepting {
        OrphanForever(w, events, i);
      }
    } else if k :| 0 <= k < |w.tasks| && w.tasks[k].state == Assigned {
      var c := w.tasks[k].owner;
      assert !Orphan(w, k);
      assert Holds(w, c, k);
      ReportFinishes(w, c);
      var rest := WorkOff(Step(w, Report(c)), c);
      RunTwo(w, Report(c), Check);
      RunAppend(w, [Report(c)], rest);
      ShutDownAfter(w, [Report(c)] + rest);
    } else {
      StepKeeps(w, Connect);
      var rest := WorkOff(Step(w, Connect), w.nextId);
      RunTwo(w, Connect, Check);
      RunAppend(w, [Connect], rest);
      ShutDownAfter(w, [Connect] + rest);
    }
  }

  // ---------------------------------------------------------------- a disconnect after the check

  /** One task, one client: it completes the task, the check succeeds, the client closes its socket, and the server
      shuts down with the task free again. */
  lemma LateDisconnectLosesWork()
    ensures var w := Run(Start(["2 + 3"]), [Connect, Get(0), Report(0), Check, Disconnect(0), SetShutdown]);
      w.main == Stopped && |w.tasks| == 1 && w.tasks[0].state == NotAssigned
  {
    var w0 := Start(["2 + 3"]);
    var t := w0.tasks[0];
    assert w0.tasks == [t];
    var w3 := World([Task(t.description, Completed, 0)], map[0 := -1], 1, Accepting);
    ReportedAlone(w0, t);
    RunTwo(w3, Check, Disconnect(0));
    RunAppend(w0, [Connect, Get(0), Report(0)], [Check, Disconnect(0)]);
    var es := [Connect, Get(0), Report(0)] + [Check, Disconnect(0)];
    assert (es + [SetShutdown])[..|es|] == es;
    assert es + [SetShutdown] == [Connect, Get(0), Report(0), Check, Disconnect(0), SetShutdown];
  }

  lemma ReportedAlone(w: World, t: Task)
    requires w == World([t], map[], 0, Accepting) && t.state == NotAssigned
    ensures Run(w, [Connect, Get(0), Report(0)])
      == World([Task(t.description, Completed, 0)], map[0 := -1], 1, Accepting)
  {
    RunTwo(w, Connect, Get(0));
    assert [Connect, Get(0), Report(0)][..2] == [Connect, Get(0)];
    assert FirstIn([t], Assigned) == 1 && FirstIn([t], NotAssigned) == 0;
    var w2 := Step(Step(w, Connect), Get(0));
    assert w2 == World([Task(t.description, Assigned, 0)], map[0 := 0], 1, Accepting);
    assert Step(w2, Report(0)).tasks == [Task(t.description, Completed, 0)];
    assert Step(w2, Report(0)).current == map[0 := -1];
  }
}
