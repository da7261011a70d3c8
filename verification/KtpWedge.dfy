/** Runs that leave a transfer stuck: a receiver whose slots all hold numbers above the expected one, and a sender whose
    acknowledgements were all lost. */
module KtpWedge {
  import opened Common
  import opened KtpBase
  import opened KtpSender
  import opened KtpReceiver
  import opened KtpProtocol
  import opened KtpGuarantees
  import opened KtpStall
  import opened KtpFinish
  import opened KtpLimits

  // ---------------------------------------------------------------- the receiver's part

  /** Slots 0 to n hold 4 to 4 + n, the rest is free, and 4 is expected although it was stored early. */
  predicate Row(r: RecvSide, n: nat) {
    && RecvShape(r) && n < SLOTS
    && r.start == 4 && r.size == SLOTS - 1 - n && r.index[4] == 0
    && (forall j :: 0 <= j < SLOTS ==> (r.free[j] <==> j > n) && (j <= n ==> r.buffer[j].seqNum as int == 4 + j))
    && (forall k :: 4 <= k <= LAST_SEQ ==> r.valid[k])
  }

  /** With 1 and 2 accepted: 1 is delivered, 4 is stored early in its slot, 2 is delivered, 3 accepted and delivered. */
  lemma FirstFour(r: RecvSide, f4: Frame, f3: Frame)
    requires Filled(r, 2) && f4.seqNum == 4 && f3.seqNum == 3
    ensures var r1 := Deliver(r); var r2 := ReceiveData(r1.0, f4); var r3 := Deliver(r2.0);
      var r4 := ReceiveData(r3.0, f3); var r5 := Deliver(r4.0);
      && r1.1.Some? && r1.1.value.seqNum == 1
      && r2.1 == [] && r2.2
      && r3.1.Some? && r3.1.value.seqNum == 2
      && r4.1 == [Ack(3, 8)] && !r4.2
      && r5.1 == Some(f3)
      && Row(r5.0, 0)
  {
    FourStored(r, f4);
    ThreeTaken(ReceiveData(Deliver(r).0, f4).0, f3);
    hide Deliver, ReceiveData, Filled, Row;
  }

  // 1 is delivered, and 4 is stored in its slot.
  lemma FourStored(r: RecvSide, f4: Frame)
    requires Filled(r, 2) && f4.seqNum == 4
    ensures var r1 := Deliver(r); var r2 := ReceiveData(r1.0, f4);
      && r1.1.Some? && r1.1.value.seqNum == 1
      && r2.1 == [] && r2.2 && FourAndTwo(r2.0)
  {
    TakeLeast(r, 0);
    var r1 := Deliver(r).0;
    assert r1.valid[3] && r1.valid[4] && EarlySlot(r1, 4) == 0;
    assert StoresEarly(r1, 4);
  }

  // The first two slots hold 4 and 2, and 3 is expected.
  predicate FourAndTwo(r: RecvSide) {
    && RecvShape(r)
    && r.start == 3 && r.size == 8 && r.index[4] == 0
    && !r.free[0] && !r.free[1] && (forall j :: 2 <= j < SLOTS ==> r.free[j])
    && r.buffer[0].seqNum == 4 && r.buffer[1].seqNum == 2 && (forall j :: 2 <= j < SLOTS ==> r.buffer[j].seqNum == 0)
    && (forall k :: 3 <= k <= LAST_SEQ ==> r.valid[k])
  }

  // 2 is delivered, and 3 accepted in its slot and delivered.
  lemma ThreeTaken(r2: RecvSide, f3: Frame)
    requires FourAndTwo(r2) && f3.seqNum == 3
    ensures var r3 := Deliver(r2); var r4 := ReceiveData(r3.0, f3); var r5 := Deliver(r4.0);
      && r3.1.Some? && r3.1.value.seqNum == 2
      && r4.1 == [Ack(3, 8)] && !r4.2
      && r5.1 == Some(f3)
      && Row(r5.0, 0)
  {
    TakeLeast(r2, 1);
    var r3 := Deliver(r2).0;
    assert !r3.free[0] && r3.free[1] && FirstSet(r3.free, 0) == 1;
    assert !Held(r3, 3);
    assert Advance(r3.valid[3 := false], 3, LAST_SEQ) == 4;
    var r4 := ReceiveData(r3, f3).0;
    TakeLeast(r4, 1);
  }

  lemma RowGrows(r: RecvSide, n: nat, f: Frame)
    requires Row(r, n) && n + 1 < SLOTS && f.seqNum as int == 5 + n
    ensures var (r', acks, isEarly) := ReceiveData(r, f); Row(r', n + 1) && acks == [] && isEarly
  {
    assert r.valid[4] && EarlySlot(r, 5 + n) == n + 1;
    assert StoresEarly(r, 5 + n);
  }

  /** Once 4 is delivered from a full row, 5 is stored a second time in its slot, and nothing is left to deliver. */
  lemma RowWedges(r: RecvSide, f5: Frame)
    requires Row(r, 9) && f5.seqNum == 5
    ensures var (r1, d) := Deliver(r); var (r2, acks, isEarly) := ReceiveData(r1, f5);
      d.Some? && d.value.seqNum == 4 && isEarly && Wedged(r2)
  {
    TakeLeast(r, 0);
    var r1 := Deliver(r).0;
    assert r1.valid[4] && r1.valid[5] && EarlySlot(r1, 5) == 0;
    assert StoresEarly(r1, 5);
  }

  // ---------------------------------------------------------------- the run

  lemma Feed(actions: seq<Action>, f: Frame) returns (actions': seq<Action>)
    requires Run(actions).Some? && f in Run(actions).value.wire
    ensures Run(actions').Some?
    ensures var w, w' := Run(actions).value, Run(actions').value;
      w' == w.(b := ReceiveData(w.b, f).0, ackLog := w.ackLog + ReceiveData(w.b, f).1, early := w'.early)
  {
    hide Run, ReceiveData;
    Extend(actions, GetData(f));
    actions' := actions + [GetData(f)];
  }

  lemma Hand(actions: seq<Action>) returns (actions': seq<Action>)
    requires Run(actions).Some? && Deliver(Run(actions).value.b).1.Some?
    ensures Run(actions').Some?
    ensures var w, w' := Run(actions).value, Run(actions').value;
      && w' == w.(b := Deliver(w.b).0, delivered := w'.delivered)
      && DeliveredNumbers(w'.delivered) == DeliveredNumbers(w.delivered) + [Deliver(w.b).1.value.seqNum as int]
  {
    hide Run, Deliver;
    Extend(actions, Receive);
    actions' := actions + [Receive];
  }

  lemma HandFourSteps(actions: seq<Action>, f3: Frame, f4: Frame) returns (actions': seq<Action>)
    requires Run(actions).Some? && Filled(Run(actions).value.b, 2)
    requires f3 in Run(actions).value.wire && f4 in Run(actions).value.wire && f4.seqNum == 4 && f3.seqNum == 3
    ensures Run(actions').Some?
    ensures var w, w' := Run(actions).value, Run(actions').value;
      && w' == w.(b := w'.b, ackLog := w.ackLog + [Ack(3, 8)], delivered := w'.delivered, early := w'.early)
      && DeliveredNumbers(w'.delivered) == DeliveredNumbers(w.delivered) + [1] + [2] + [3]
      && Row(w'.b, 0)
  {
    hide Run, Filled, Row, ReceiveData, Deliver;
    FirstFour(Run(actions).value.b, f4, f3);
    actions' := Hand(actions);
    actions' := Feed(actions', f4);
    actions' := Hand(actions');
    actions' := Feed(actions', f3);
    actions' := Hand(actions');
  }

  // Ten messages are queued and sent, the first three accepted and delivered, and the fourth is stored early.
  lemma ThreeHanded() returns (actions: seq<Action>)
    ensures Run(actions).Some?
    ensures var w := Run(actions).value;
      && |w.queued| == 10 && DeliveredNumbers(w.delivered) == [1, 2, 3]
      && SendInv(w.a, w.queued, 11) && w.a.start == 1
      && w.ackLog == [Ack(1, 9), Ack(2, 8), Ack(3, 8)]
      && Row(w.b, 0)
  {
    hide Run, Filled, Row, SendInv, ReceiveData, Deliver;
    var filled := FillMany(SLOTS, 2);
    var w := Run(filled).value;
    assert OnWire(w, 3) && OnWire(w, 4);
    var f3 :| f3 in w.wire && f3.seqNum == 3;
    var f4 :| f4 in w.wire && f4.seqNum == 4;
    actions := HandFourSteps(filled, f3, f4);
  }

  lemma TwoAcks(a: SendSide, queued: seq<Message>)
    requires SendInv(a, queued, 11) && |queued| == 10 && a.start == 1
    ensures ProcessAck(a, Ack(3, 8)).Some?
    ensures var a' := ProcessAck(a, Ack(3, 8)).value;
      && ProcessAck(a', Ack(1, 9)).Some?
      && var a'' := ProcessAck(a', Ack(1, 9)).value;
      SendInv(a'', queued, 11) && a''.start == 4 && a''.size == 9
  {
    hide Slots, Marks, ProcessAck, Outstanding;
    NextAboveStart(a, queued, 11);
    ProcessAckDrops(a, queued, 11, Ack(3, 8));
    var a' := ProcessAck(a, Ack(3, 8)).value;
    NextAboveStart(a', queued, 11);
    ProcessAckDrops(a', queued, 11, Ack(1, 9));
  }

  // The sender learns that three messages arrived, then reads a stale, larger window.
  lemma WindowOfNine(actions: seq<Action>) returns (actions': seq<Action>)
    requires Run(actions).Some?
    requires var w := Run(actions).value;
      && |w.queued| == 10 && SendInv(w.a, w.queued, 11) && w.a.start == 1
      && w.ackLog == [Ack(1, 9), Ack(2, 8), Ack(3, 8)]
    ensures Run(actions').Some?
    ensures var w, w' := Run(actions).value, Run(actions').value;
      w' == w.(a := w'.a) && SendInv(w'.a, w'.queued, 11) && w'.a.start == 4 && w'.a.size == 9
  {
    hide Run, SendInv, ProcessAck;
    TwoAcks(Run(actions).value.a, Run(actions).value.queued);
    Extend(actions, GetAck(2));
    actions' := actions + [GetAck(2)];
    Extend(actions', GetAck(0));
    actions' := actions' + [GetAck(0)];
  }

  lemma SendKeepsStart(a: SendSide, message: Message, stack: seq<byte>)
    requires SendShape(a) && |stack| == BODY_SIZE
    ensures SendTo(a, message, stack).0.start == a.start && SendTo(a, message, stack).0.size == a.size
  {
  }

  lemma QueueOne(actions: seq<Action>) returns (actions': seq<Action>)
    requires Run(actions).Some?
    requires var w := Run(actions).value; SendInv(w.a, w.queued, 11) && |Outstanding(w.a)| < SLOTS && |w.queued| < 20
    ensures Run(actions').Some?
    ensures var w, w' := Run(actions).value, Run(actions').value;
      && w' == w.(a := w'.a, queued := w'.queued) && |w'.queued| == |w.queued| + 1
      && SendInv(w'.a, w'.queued, 11) && w'.a.start == w.a.start && w'.a.size == w.a.size
      && |Outstanding(w'.a)| == |Outstanding(w.a)| + 1
  {
    hide Run, SendInv, SendTo, Outstanding;
    var w := Run(actions).value;
    SendToKeeps(w.a, w.queued, 11, [66], Stack());
    SendKeepsStart(w.a, [66], Stack());
    Extend(actions, Send([66], Stack()));
    actions' := actions + [Send([66], Stack())];
  }

  lemma OutstandingCount(a: SendSide, queued: seq<Message>, sent: int)
    requires SendInv(a, queued, sent)
    ensures a.nextSeq == |queued| + 1 && |Outstanding(a)| == a.nextSeq - a.start
  {
  }

  lemma SentAt(a: SendSide, queued: seq<Message>, sent: int, k: int)
    requires SendInv(a, queued, sent) && a.start <= k < a.nextSeq
    ensures 0 <= a.index[k] && (a.sendTime[a.index[k]] != -1 <==> k < sent)
  {
    assert Live(a, k, queued);
  }

  // What was ever sent is determined by the sender's time stamps.
  lemma SentUnique(a: SendSide, queued: seq<Message>, x: int, y: int)
    requires SendInv(a, queued, x) && SendInv(a, queued, y)
    ensures x == y
  {
    var k := Min(x, y);
    if k < a.nextSeq {
      SentAt(a, queued, x, k);
      SentAt(a, queued, y, k);
    }
  }

  lemma AllOnWire(actions: seq<Action>, sent: int)
    requires Run(actions).Some? && |Run(actions).value.queued| < LAST_SEQ
    requires SendInv(Run(actions).value.a, Run(actions).value.queued, sent)
    ensures forall k :: 1 <= k < sent ==> OnWire(Run(actions).value, k)
  {
    hide Run, SendInv, RecvInv, NetInv, Conserved, OnWire;
    Reachable(actions);
    var w := Run(actions).value;
    var x :| SenderInv(w, x);
    SentUnique(w.a, w.queued, x, sent);
  }

  lemma SendThree(actions: seq<Action>) returns (actions': seq<Action>)
    requires Run(actions).Some?
    requires var w := Run(actions).value;
      |w.queued| == 10 && SendInv(w.a, w.queued, 11) && w.a.start == 4 && w.a.size == 9
    ensures Run(actions').Some?
    ensures var w, w' := Run(actions).value, Run(actions').value;
      && w' == w.(a := w'.a, queued := w'.queued, wire := w'.wire) && |w'.queued| == 13
      && forall k :: 1 <= k <= 13 ==> OnWire(w', k)
  {
    hide Run, SendInv, KtpSender.Tick, Outstanding, Expired, OnWire;
    OutstandingCount(Run(actions).value.a, Run(actions).value.queued, 11);
    actions' := QueueOne(actions);
    actions' := QueueOne(actions');
    actions' := QueueOne(actions');
    var w := Run(actions').value;
    NeverExpiredAtZero(actions');
    TickKeeps(w.a, w.queued, 11, 0);
    NextAboveStart(w.a, w.queued, 11);
    OutstandingCount(w.a, w.queued, 11);
    assert TickMark(w.a, 11, 0) == 14;
    Extend(actions', Action.Tick(0));
    actions' := actions' + [Action.Tick(0)];
    AllOnWire(actions', 14);
  }

  lemma {:induction false} FillRow(actions: seq<Action>, n: nat) returns (actions': seq<Action>)
    requires Run(actions).Some? && n < SLOTS && Row(Run(actions).value.b, 0)
    requires forall k :: 5 <= k <= 4 + n ==> OnWire(Run(actions).value, k)
    ensures Run(actions').Some?
    ensures var w, w' := Run(actions).value, Run(actions').value;
      Row(w'.b, n) && w' == w.(b := w'.b, early := w'.early)
  {
    hide Run, Row, ReceiveData;
    if n == 0 {
      actions' := actions;
    } else {
      actions' := FillRow(actions, n - 1);
      var w := Run(actions').value;
      assert OnWire(Run(actions).value, 4 + n);
      var f :| f in w.wire && f.seqNum as int == 4 + n;
      RowGrows(w.b, n - 1, f);
      actions' := Feed(actions', f);
    }
  }

  /** Thirteen messages, nothing lost: the fourth and all later frames overtake, a stale window lets the sender run
      ahead, and the receiver ends with ten slots full of numbers above 4, the one it still expects. */
  lemma WedgeReachable() returns (actions: seq<Action>)
    ensures Run(actions).Some?
    ensures var w := Run(actions).value;
      |w.queued| == 13 && Wedged(w.b) && w.b.start == 4 && DeliveredNumbers(w.delivered) == [1, 2, 3, 4]
  {
    hide Run, Row, Wedged, ReceiveData, Deliver, SendInv;
    actions := ThreeHanded();
    actions := WindowOfNine(actions);
    actions := SendThree(actions);
    assert OnWire(Run(actions).value, 5);
    actions := FillRow(actions, 9);
    var w := Run(actions).value;
    var f5 :| f5 in w.wire && f5.seqNum == 5;
    RowWedges(w.b, f5);
    WedgeStart(w.b, f5);
    actions := Hand(actions);
    actions := Feed(actions, f5);
  }

  lemma WedgeStart(r: RecvSide, f5: Frame)
    requires Row(r, 9) && f5.seqNum == 5
    ensures ReceiveData(Deliver(r).0, f5).0.start == 4
  {
    TakeLeast(r, 0);
  }

  // ---------------------------------------------------------------- lost acknowledgements

  lemma EightLeft(a: SendSide, queued: seq<Message>)
    requires SendInv(a, queued, 11) && |queued| == 10 && a.start == 1
    ensures ProcessAck(a, Ack(2, 8)).Some?
    ensures var a' := ProcessAck(a, Ack(2, 8)).value; SendInv(a', queued, 11) && a'.start == 3 && a'.size == 8
  {
    hide Slots, Marks, ProcessAck, Outstanding;
    NextAboveStart(a, queued, 11);
    ProcessAckDrops(a, queued, 11, Ack(2, 8));
  }

  // Twelve messages are queued, two acknowledged, and the sender runs one past the window of eight it was given.
  lemma EightSent() returns (actions: seq<Action>)
    ensures Run(actions).Some?
    ensures var w := Run(actions).value;
      && |w.queued| == 12 && SendInv(w.a, w.queued, 12) && w.a.start == 3 && w.a.size == 8
      && w.b.start == 3 && w.b.size == 8 && w.early == multiset{}
  {
    hide Run, SendInv, KtpSender.Tick, Outstanding, Expired, OnWire, ProcessAck;
    actions := FillMany(SLOTS, 2);
    hide Filled;
    var w := Run(actions).value;
    EightLeft(w.a, w.queued);
    Extend(actions, GetAck(1));
    actions := actions + [GetAck(1)];
    OutstandingCount(Run(actions).value.a, Run(actions).value.queued, 11);
    actions := QueueOne(actions);
    actions := QueueOne(actions);
    w := Run(actions).value;
    NeverExpiredAtZero(actions);
    TickKeeps(w.a, w.queued, 11, 0);
    NextAboveStart(w.a, w.queued, 11);
    OutstandingCount(w.a, w.queued, 11);
    assert TickMark(w.a, 11, 0) == 12;
    Extend(actions, Action.Tick(0));
    actions := actions + [Action.Tick(0)];
  }

  // Everything sent is accepted, and the sender hears nothing of it.
  lemma {:induction false} AcceptTo(actions: seq<Action>, rest: seq<Action>, k: int) returns (rest': seq<Action>)
    requires Leads(actions, rest) && At(actions, rest).b.start <= k
    requires forall i :: 1 <= i < k ==> OnWire(At(actions, rest), i)
    ensures Leads(actions, rest')
    ensures var w, w' := At(actions, rest), At(actions, rest');
      w'.b.start == k && w'.a == w.a && w'.wire == w.wire && w'.early == w.early
    decreases k - At(actions, rest).b.start
  {
    hide Run, Wedged, OnlyFreshAcks;
    rest' := rest;
    if At(actions, rest).b.start < k {
      rest' := AcceptNext(actions, rest');
      forall i | 1 <= i < k ensures OnWire(At(actions, rest'), i) {
        assert OnWire(At(actions, rest), i);
      }
      rest' := AcceptTo(actions, rest', k);
    }
  }

  lemma NothingAbove(w: World, sent: int)
    requires Inv(w) && SendInv(w.a, w.queued, sent)
    ensures forall f :: f in w.wire ==> f.seqNum as int < sent
  {
    hide SendInv, RecvInv, NetInv, Conserved, OnWire;
    var x :| SenderInv(w, x);
    SentUnique(w.a, w.queued, x, sent);
  }

  /** Twelve messages, every frame received at once: when the acknowledgements of one window are all lost, the sender
      waits with that window open and the twelfth message unsent, and the receiver, which acknowledges no frame twice,
      has nothing more to say. */
  lemma StarvedReachable() returns (actions: seq<Action>)
    ensures Run(actions).Some?
    ensures var w := Run(actions).value;
      |w.queued| == 12 && Starved(w, 12) && !Wedged(w.b) && w.a.size == 8 && w.early == multiset{}
  {
    var sent := EightSent();
    assert sent + [] == sent;
    assert Leads(sent, []);
    hide Run, Wedged, SendInv, Inv, OnlyFreshAcks;
    AllOnWire(sent, 12);
    var rest := AcceptTo(sent, [], 12);
    if At(sent, rest).b.noSpace {
      rest := ClearFlag(sent, rest);
    }
    actions := sent + rest;
    Reachable(actions);
    NothingAbove(Run(actions).value, 12);
  }
}
