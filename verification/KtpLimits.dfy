/** Where the KTP guarantees end: concrete runs that show each condition is needed. */
module KtpLimits {
  import opened Common
  import opened KtpBase
  import opened KtpSender
  import opened KtpReceiver
  import opened KtpProtocol
  import opened KtpGuarantees
  import opened KtpStall
  import opened Stutter

  // ---------------------------------------------------------------- reaching a transmitted backlog

  lemma {:induction false} QueueMany(n: nat) returns (actions: seq<Action>)
    requires n <= SLOTS
    ensures Run(actions).Some?
    ensures var w := Run(actions).value;
      w == World(w.a, InitRecv(), {}, [], w.queued, [], multiset{}) && SendInv(w.a, w.queued, 1) && |w.queued| == n
      && w.a.start == 1 && w.a.size == SLOTS
  {
    if n == 0 {
      actions := [];
      InitSendInv();
    } else {
      actions := QueueMany(n - 1);
      var w := Run(actions).value;
      var send := Send([65], Stack());
      SendToKeeps(w.a, w.queued, 1, [65], Stack());
      Extend(actions, send);
      actions := actions + [send];
    }
  }

  /** The receiver accepted 1 to k into slots 0 to k - 1 and delivered none of them. */
  predicate Filled(r: RecvSide, k: nat) {
    && RecvShape(r) && k <= SLOTS
    && r.start == k + 1 && r.size == SLOTS - k && r.lastAck == k
    && (r.noSpace <==> k == SLOTS)
    && (forall j :: 0 <= j < SLOTS ==> (r.free[j] <==> j >= k) && r.buffer[j].seqNum == if j < k then j + 1 else 0)
    && (forall i :: k < i <= LAST_SEQ ==> r.valid[i] && r.index[i] == -1)
  }

  /** n messages queued and all sent once, the first k of them received in order, no acknowledgement read yet. */
  ghost predicate Backlog(w: World, n: nat, k: nat) {
    && |w.queued| == n && w.a.size == SLOTS && w.a.start == 1
    && SendInv(w.a, w.queued, n + 1)
    && (forall f :: f in w.wire ==> 1 <= f.seqNum as int <= n)
    && (forall i :: 1 <= i <= n ==> OnWire(w, i))
    && Filled(w.b, k)
    && |w.ackLog| == k && (forall i :: 0 <= i < k ==> w.ackLog[i] == Ack(i + 1, SLOTS - (i + 1)))
    && w.delivered == [] && w.early == multiset{}
  }

  lemma TransmitMany(n: nat) returns (actions: seq<Action>)
    requires n <= SLOTS
    ensures Run(actions).Some? && Backlog(Run(actions).value, n, 0)
  {
    actions := QueueMany(n);
    FirstTick(Run(actions).value, n);
    hide Run, Step, SendInv, Backlog;
    Extend(actions, Action.Tick(0));
    actions := actions + [Action.Tick(0)];
  }

  lemma FirstTick(w: World, n: nat)
    requires w == World(w.a, InitRecv(), {}, [], w.queued, [], multiset{})
    requires SendInv(w.a, w.queued, 1) && |w.queued| == n <= SLOTS
    requires w.a.start == 1 && w.a.size == SLOTS
    ensures Shape(w) && Step(w, Action.Tick(0)).Some? && Backlog(Step(w, Action.Tick(0)).value, n, 0)
  {
    assert Filled(InitRecv(), 0);
    NotExpired(w.a, w.queued);
    TickKeeps(w.a, w.queued, 1, 0);
    FirstTransmission(w);
    assert TickMark(w.a, 1, 0) == n + 1;
    hide SendInv, Filled, KtpSender.Tick, OnWire, TickMark, Expired;
  }

  lemma FirstTransmission(w: World)
    requires SendInv(w.a, w.queued, 1) && w.a.start == 1 && w.wire == {}
    requires KtpSender.Tick(w.a, 0).Some? && KtpSender.Tick(w.a, 0).value.1 == Frames(w.a, 1, |w.queued| + 1)
    requires Shape(w)
    ensures var wire := Step(w, Action.Tick(0)).value.wire;
      && (forall f :: f in wire ==> 1 <= f.seqNum as int <= |w.queued|)
      && forall k :: 1 <= k <= |w.queued| ==> OnWire(Step(w, Action.Tick(0)).value, k)
  {
    FramesGenuine(w.a, w.queued, 1, |w.queued| + 1);
    var w' := Step(w, Action.Tick(0)).value;
    forall k | 1 <= k <= |w.queued| ensures OnWire(w', k) {
      assert Live(w.a, k, w.queued);
      FramesHas(w.a, w.queued, 1, k, |w.queued| + 1);
      assert FrameAt(w.a, k) in w'.wire;
    }
  }

  lemma NotExpired(a: SendSide, queued: seq<Message>)
    requires SendInv(a, queued, 1) && a.start == 1
    ensures !Expired(a, 0)
  {
    assert forall k :: 1 <= k < a.nextSeq ==> Live(a, k, queued);
  }

  lemma FillOne(r: RecvSide, k: nat, f: Frame)
    requires Filled(r, k) && k < SLOTS && f.seqNum as int == k + 1
    ensures Filled(ReceiveData(r, f).0, k + 1)
    ensures ReceiveData(r, f).1 == [Ack(k + 1, SLOTS - (k + 1))] && !ReceiveData(r, f).2
  {
    var j := FirstSet(r.free, 0);
    assert r.free[k] && j == k;
    assert !Held(r, k + 1);
    assert Advance(r.valid[f.seqNum := false], r.start, LAST_SEQ) == k + 2;
  }

  lemma {:induction false} FillMany(n: nat, k: nat) returns (actions: seq<Action>)
    requires k <= n <= SLOTS
    ensures Run(actions).Some? && Backlog(Run(actions).value, n, k)
  {
    if k == 0 {
      actions := TransmitMany(n);
    } else {
      actions := FillMany(n, k - 1);
      var f := FillNext(Run(actions).value, n, k);
      hide Run, Step, Backlog;
      Extend(actions, GetData(f));
      actions := actions + [GetData(f)];
    }
  }

  lemma FillNext(w: World, n: nat, k: nat) returns (f: Frame)
    requires Shape(w) && 1 <= k <= n <= SLOTS && Backlog(w, n, k - 1)
    ensures Step(w, GetData(f)).Some? && Backlog(Step(w, GetData(f)).value, n, k)
  {
    assert OnWire(w, k);
    f :| f in w.wire && f.seqNum == k;
    FillOne(w.b, k - 1, f);
    hide Filled, SendInv, ReceiveData;
    var w' := Step(w, GetData(f)).value;
    forall i | 1 <= i <= n ensures OnWire(w', i) {
      assert OnWire(w, i);
    }
  }

  // ---------------------------------------------------------------- retransmission beyond the backlog

  /** One message queued and sent, none acknowledged: five seconds later the retransmission loop runs past it. */
  lemma RetransmissionCanBeUndefined() returns (actions: seq<Action>, now: nat)
    ensures Run(actions).Some? && |Run(actions).value.queued| == 1
    ensures Run(actions + [Action.Tick(now)]).None?
  {
    actions := TransmitMany(1);
    var a := Run(actions).value.a;
    now := SentOneExpires(a, Run(actions).value.queued);
    hide Run, Backlog;
    TickPossible(actions, now);
  }

  lemma SentOneExpires(a: SendSide, queued: seq<Message>) returns (now: nat)
    requires SendInv(a, queued, 2) && a.start == 1 && |queued| == 1
    ensures Overdue(a, now) && |Outstanding(a)| == 1
  {
    assert Live(a, 1, queued);
    assert Stamp(a, 1) != -1;
    now := Max(0, a.sendTime[a.index[1]] + TIMEOUT);
  }

  // ---------------------------------------------------------------- a lost reopening acknowledgement

  lemma FullDrains(r: RecvSide)
    requires Filled(r, SLOTS)
    ensures var (r1, f) := Deliver(r);
      && f.Some? && r1.start == SLOTS + 1 && r1.size == 1
      && Scan(r1) == (r1.(noSpace := false), [Ack(SLOTS, 1)])
  {
    assert !r.free[0];
    TakeLeast(r, 0);
  }

  lemma StepReadsSentAcks(w: World, action: Action)
    requires Shape(w) && Step(w, action).Some?
    ensures |w.ackLog| <= |Step(w, action).value.ackLog|
    ensures action.GetAck? ==> action.i < |w.ackLog|
  {
  }

  // A run reads only acknowledgements that were sent.
  lemma {:induction false} AcksExisted(actions: seq<Action>, i: nat)
    requires Run(actions).Some? && |Run(actions).value.ackLog| <= i
    ensures GetAck(i) !in actions
    decreases |actions|
  {
    if actions != [] {
      var before, action := actions[..|actions| - 1], actions[|actions| - 1];
      StepReadsSentAcks(Run(before).value, action);
      hide Step;
      AcksExisted(before, i);
    }
  }

  lemma AckClosesWindow(a: SendSide, queued: seq<Message>)
    requires SendInv(a, queued, SLOTS + 1) && |queued| == SLOTS && a.start == 1
    ensures ProcessAck(a, Ack(SLOTS, 0)).Some? && ProcessAck(a, Ack(SLOTS, 0)).value.size == 0
  {
    ProcessAckDrops(a, queued, SLOTS + 1, Ack(SLOTS, 0));
  }

  lemma CloseWindow() returns (actions: seq<Action>)
    ensures Run(actions).Some?
    ensures var w := Run(actions).value;
      && w.a.size == 0 && Filled(w.b, SLOTS) && |w.ackLog| == 10 && w.early == multiset{}
      && forall f :: f in w.wire ==> f.seqNum as int <= SLOTS
  {
    var filled := FillMany(SLOTS, SLOTS);
    var w := Run(filled).value;
    AckClosesWindow(w.a, w.queued);
    Extend(filled, GetAck(9));
    actions := filled + [GetAck(9)];
    hide Run, Filled, SendInv, ProcessAck, OnWire;
  }

  /** The stall is reachable without losing anything but one acknowledgement: ten messages fill the receiver, the
      sender learns the window closed, one message is delivered, and the single announcement of the free slot is still
      unread. */
  lemma ReopeningCanBeLost() returns (actions: seq<Action>)
    ensures Run(actions).Some?
    ensures var w := Run(actions).value;
      && Stalled(w) && w.b.size > 0 && w.early == multiset{}
      && |w.ackLog| == 11 && w.ackLog[10] == Ack(SLOTS, 1) && GetAck(10) !in actions
  {
    var closed := CloseWindow();
    FullDrains(Run(closed).value.b);
    AcksExisted(closed, 10);
    Extend(closed, Receive);
    Extend(closed + [Receive], Announce);
    actions := closed + [Receive] + [Announce];
  }

  // ---------------------------------------------------------------- early stores can repeat a delivery

  lemma TakeLeast(r: RecvSide, j: nat)
    requires RecvShape(r) && j < SLOTS && !r.free[j] && r.buffer[j].seqNum as int <= r.start
    requires forall i :: 0 <= i < SLOTS && !r.free[i] && i != j ==> r.buffer[j].seqNum < r.buffer[i].seqNum
    ensures Deliver(r) == (Take(r, j), Some(r.buffer[j]))
  {
  }

  predicate Occupied(r: RecvSide, held: map<int, int>)
    requires RecvShape(r)
  {
    forall j :: 0 <= j < SLOTS ==> if j in held then !r.free[j] && r.buffer[j].seqNum == held[j] else r.free[j]
  }

  lemma TakeHeld(r: RecvSide, held: map<int, int>, j: nat)
    requires RecvShape(r) && Occupied(r, held)
    requires j in held && j < SLOTS && held[j] <= r.start && forall i :: i in held && i != j ==> held[j] < held[i]
    ensures var (r', f) := Deliver(r);
      && f.Some? && f.value.seqNum == held[j]
      && Occupied(r', held - {j})
      && r'.start == r.start && r'.size == (if r.size + 1 > SLOTS then SLOTS else r.size + 1)
      && (forall k :: 0 <= k <= LAST_SEQ && r.valid[k] ==> r'.valid[k])
  {
    TakeLeast(r, j);
  }

  /** Frame 5 overtakes frame 4 after a slot was freed, and is stored early. */
  lemma Overtake(r: RecvSide, f4: Frame, f5: Frame)
    requires Filled(r, 3) && f4.seqNum == 4 && f5.seqNum == 5
    ensures var r1 := Deliver(r); var r2 := ReceiveData(r1.0, f5); var r3 := ReceiveData(r2.0, f4);
      && r1.1.Some? && r1.1.value.seqNum == 1 && r2.2 && !r3.2
      && r3.0.start == 5 && r3.0.size == 6 && r3.0.valid[5] && r3.0.valid[6]
      && Occupied(r3.0, map[0 := 5, 1 := 2, 2 := 3, 3 := 4])
  {
    TakeLeast(r, 0);
    var r1 := Deliver(r).0;
    assert r1.valid[4] && r1.valid[5] && EarlySlot(r1, 5) == 0;
    assert StoresEarly(r1, 5);
    var r2 := ReceiveData(r1, f5).0;
    assert r2.free[3] && FirstSet(r2.free, 0) == 3;
    assert Advance(r2.valid[4 := false], 4, LAST_SEQ) == 5;
  }

  lemma AcceptInto(r: RecvSide, f: Frame)
    requires RecvShape(r) && Occupied(r, map[]) && r.size > 0 && r.start == 5 && f.seqNum == 5 && r.valid[6]
    ensures var (r', acks, early) := ReceiveData(r, f);
      !early && r'.start == 6 && Occupied(r', map[0 := 5])
  {
    assert FirstSet(r.free, 0) == 0;
    assert Advance(r.valid[5 := false], 5, LAST_SEQ) == 6;
  }

  function DeliveredNumbers(delivered: seq<Delivery<seq<byte>>>): (s: seq<int>)
    ensures |s| == |delivered|
    ensures forall i :: 0 <= i < |s| ==> s[i] == delivered[i].number
  {
    seq(|delivered|, i requires 0 <= i < |delivered| => delivered[i].number)
  }

  lemma ReceiveHeld(actions: seq<Action>, held: map<int, int>, j: nat) returns (actions': seq<Action>)
    requires Run(actions).Some?
    requires var b := Run(actions).value.b;
      && Occupied(b, held) && b.size >= 0
      && j in held && j < SLOTS && held[j] <= b.start && forall i :: i in held && i != j ==> held[j] < held[i]
    ensures Run(actions').Some?
    ensures var w, w' := Run(actions).value, Run(actions').value;
      && w' == w.(b := w'.b, delivered := w'.delivered)
      && DeliveredNumbers(w'.delivered) == DeliveredNumbers(w.delivered) + [held[j]]
      && Occupied(w'.b, held - {j}) && w'.b.start == w.b.start && w'.b.size > 0
      && (forall k :: 0 <= k <= LAST_SEQ && w.b.valid[k] ==> w'.b.valid[k])
  {
    TakeHeld(Run(actions).value.b, held, j);
    Extend(actions, Receive);
    actions' := actions + [Receive];
  }

  lemma OvertakeRun() returns (actions: seq<Action>, f5: Frame)
    ensures Run(actions).Some?
    ensures var w := Run(actions).value;
      && |w.queued| == 5 && w.early == multiset{5} && f5 in w.wire && f5.seqNum == 5
      && DeliveredNumbers(w.delivered) == [1]
      && w.b.start == 5 && w.b.size == 6 && w.b.valid[6]
      && Occupied(w.b, map[0 := 5, 1 := 2, 2 := 3, 3 := 4])
  {
    actions := FillMany(5, 3);
    var f4;
    f4, f5 := OvertakeSteps(Run(actions).value);
    hide Run, Step, Occupied, Backlog;
    Extend(actions, Receive);
    actions := actions + [Receive];
    Extend(actions, GetData(f5));
    actions := actions + [GetData(f5)];
    Extend(actions, GetData(f4));
    actions := actions + [GetData(f4)];
  }

  lemma OvertakeSteps(w: World) returns (f4: Frame, f5: Frame)
    requires Shape(w) && Backlog(w, 5, 3)
    ensures Step(w, Receive).Some? && Step(Step(w, Receive).value, GetData(f5)).Some?
    ensures var w2 := Step(Step(w, Receive).value, GetData(f5)).value;
      && Step(w2, GetData(f4)).Some?
      && var w3 := Step(w2, GetData(f4)).value;
      && |w3.queued| == 5 && w3.early == multiset{5} && f5 in w3.wire && f5.seqNum == 5
      && DeliveredNumbers(w3.delivered) == [1]
      && w3.b.start == 5 && w3.b.size == 6 && w3.b.valid[6]
      && Occupied(w3.b, map[0 := 5, 1 := 2, 2 := 3, 3 := 4])
  {
    hide Filled, Occupied, Deliver, ReceiveData, SendInv;
    assert OnWire(w, 4) && OnWire(w, 5);
    f4 :| f4 in w.wire && f4.seqNum == 4;
    f5 :| f5 in w.wire && f5.seqNum == 5;
    Overtake(w.b, f4, f5);
  }

  /** Exactly-once delivery does need the absence of early stores: with message 5 stored early, it is delivered twice.
      */
  lemma EarlyStoreCanRepeat() returns (actions: seq<Action>)
    ensures Run(actions).Some?
    ensures var w := Run(actions).value;
      && |w.queued| == 5 && w.early == multiset{5}
      && DeliveredNumbers(w.delivered) == [1, 2, 3, 4, 5, 5]
  {
    var f5;
    actions, f5 := OvertakeRun();
    hide Run, Step, Occupied;
    actions := ReceiveHeld(actions, map[0 := 5, 1 := 2, 2 := 3, 3 := 4], 1);
    assert map[0 := 5, 1 := 2, 2 := 3, 3 := 4] - {1} == map[0 := 5, 2 := 3, 3 := 4];
    actions := ReceiveHeld(actions, map[0 := 5, 2 := 3, 3 := 4], 2);
    assert map[0 := 5, 2 := 3, 3 := 4] - {2} == map[0 := 5, 3 := 4];
    actions := ReceiveHeld(actions, map[0 := 5, 3 := 4], 3);
    assert map[0 := 5, 3 := 4] - {3} == map[0 := 5];
    actions := ReceiveHeld(actions, map[0 := 5], 0);
    assert map[0 := 5] - {0} == map[];
    actions := AcceptAgain(actions, f5);
    actions := ReceiveHeld(actions, map[0 := 5], 0);
  }

  lemma AcceptAgain(actions: seq<Action>, f: Frame) returns (actions': seq<Action>)
    requires Run(actions).Some? && f in Run(actions).value.wire && f.seqNum == 5
    requires var b := Run(actions).value.b; Occupied(b, map[]) && b.start == 5 && b.size > 0 && b.valid[6]
    ensures Run(actions').Some?
    ensures var w, w' := Run(actions).value, Run(actions').value;
      && w' == w.(b := w'.b, ackLog := w'.ackLog)
      && Occupied(w'.b, map[0 := 5]) && w'.b.start == 6 && w'.b.size == w.b.size - 1
  {
    AcceptInto(Run(actions).value.b, f);
    Extend(actions, GetData(f));
    actions' := actions + [GetData(f)];
  }
}
