/** The sequence space is good for 254 messages and no more: after a full lap an old frame passes for a new one. */
module KtpLap {
  import opened Common
  import opened KtpBase
  import opened KtpSender
  import opened KtpReceiver
  import opened KtpProtocol
  import opened KtpGuarantees
  import opened Stutter
  import KtpLimits

  // The first message differs from all others, so that a confusion of the two shows in the text.
  function Msg(k: nat): Message {
    if k == 0 then [65] else [66]
  }

  /** Both entries after k messages were queued, sent, accepted, delivered and acknowledged one at a time. */
  function CleanSend(k: nat): (s: SendSide)
    requires k < LAST_SEQ
    ensures SendShape(s)
  {
    InitSend().(size := if k == 0 then SLOTS else SLOTS - 1, start := k + 1, nextSeq := k + 1, lastAck := k)
  }

  function CleanRecv(k: nat): (r: RecvSide)
    requires k < LAST_SEQ
    ensures RecvShape(r)
  {
    InitRecv().(start := k + 1, lastAck := k)
  }

  function LapFrame(k: nat): (f: Frame)
    requires k < LAST_SEQ
    ensures f.seqNum as int == k + 1 && Carries(f.body, Msg(k))
  {
    MakeFrame(k + 1, 0, Msg(k), Stack())
  }

  // The sender with message k + 1 in slot 0, before and after its first transmission.
  function Loaded(k: nat): (s: SendSide)
    requires k < LAST_SEQ
    ensures SendShape(s)
  {
    Enqueue(CleanSend(k), 0, LapFrame(k))
  }

  function Sent(k: nat): (s: SendSide)
    requires k < LAST_SEQ
    ensures SendShape(s)
  {
    Loaded(k).(sendTime := Loaded(k).sendTime[0 := 0])
  }

  lemma LapSend(k: nat)
    requires k < LAST_SEQ
    ensures SendTo(CleanSend(k), Msg(k), Stack()) == (Loaded(k), 1)
  {
    assert CleanSend(k).free[0];
  }

  lemma LapTick(k: nat)
    requires k < LAST_SEQ
    ensures KtpSender.Tick(Loaded(k), 0) == Some((Sent(k), [LapFrame(k)]))
  {
    var s := Loaded(k);
    var stop := Succ(s.start + s.size);
    var times := s.sendTime[0 := 0];
    assert s.index[k + 1] == 0 && s.sendTime[0] == -1;
    assert forall p :: 0 <= p <= LAST_SEQ && p != k + 1 ==> s.index[p] == -1;
    FirstSendNothing(s, times, Succ(k + 1), stop, 1, 0);
    assert [LapFrame(k)] + [] == [LapFrame(k)];
    assert FirstSend(s, s.sendTime, k + 1, stop, 0, 0) == (times, [LapFrame(k)]);
    hide FirstSend;
  }

  // The receiver holding message k + 1 in slot 0.
  function Holding(k: nat): (r: RecvSide)
    requires k + 1 < LAST_SEQ
    ensures RecvShape(r)
  {
    Store(CleanRecv(k), 0, LapFrame(k)).(lastAck := k + 1, valid := CleanRecv(k).valid[k + 1 := false], start := k + 2)
  }

  lemma LapAccept(k: nat)
    requires k + 1 < LAST_SEQ
    ensures ReceiveData(CleanRecv(k), LapFrame(k)) == (Holding(k), [Ack(k + 1, SLOTS - 1)], false)
  {
    var r := CleanRecv(k);
    assert r.free[0] && !Held(r, k + 1);
    assert Advance(r.valid[k + 1 := false], k + 1, LAST_SEQ) == k + 2;
    assert AcceptAcks(r, LapFrame(k)) == [Ack(k + 1, SLOTS - 1)];
    assert Accept(r, LapFrame(k)) == Holding(k);
  }

  lemma LapTake(k: nat)
    requires k + 1 < LAST_SEQ
    ensures Deliver(Holding(k)) == (CleanRecv(k + 1), Some(LapFrame(k)))
  {
    var r, z := Holding(k), CleanRecv(k + 1);
    assert !r.free[0] && forall j :: 0 < j < SLOTS ==> r.free[j];
    KtpLimits.TakeLeast(r, 0);
    hide Deliver, MinSlot;
    var r' := Take(r, 0);
    assert r'.buffer == z.buffer && r'.free == z.free && r'.index == z.index && r'.valid == z.valid;
  }

  lemma LapAck(k: nat)
    requires k + 1 < LAST_SEQ
    ensures ProcessAck(Sent(k), Ack(k + 1, SLOTS - 1)) == Some(CleanSend(k + 1))
  {
    var s, z := Sent(k).(size := SLOTS - 1, lastAck := k + 1), CleanSend(k + 1);
    assert s.index[k + 1] == 0;
    var s' := DropOne(s);
    assert s'.buffer == z.buffer && s'.free == z.free && s'.index == z.index && s'.sendTime == z.sendTime;
    assert Release(s', k + 2) == Some(s');
  }

  /** The world after k clean rounds; the very first frame is still somewhere on the wire. */
  ghost predicate Lapped(w: World, k: nat)
  {
    && k < LAST_SEQ
    && w.a == CleanSend(k) && w.b == CleanRecv(k)
    && |w.queued| == k && |w.delivered| == k && Last(w.delivered) == k && |w.ackLog| == k
    && (forall i :: 0 <= i < k ==> w.queued[i] == Msg(i))
    && (k > 0 ==> LapFrame(0) in w.wire)
  }

  lemma Transmit(actions: seq<Action>, k: nat) returns (actions': seq<Action>)
    requires Run(actions).Some? && Lapped(Run(actions).value, k)
    ensures Run(actions').Some? && InFlight(Run(actions').value, k)
  {
    var w := Run(actions).value;
    LapSend(k);
    LapTick(k);
    var stack := Stack();
    Extend(actions, Send(Msg(k), stack));
    var actions1 := actions + [Send(Msg(k), stack)];
    assert Run(actions1) == Some(w.(a := Loaded(k), queued := w.queued + [Msg(k)]));
    Extend(actions1, Action.Tick(0));
    actions' := actions1 + [Action.Tick(0)];
  }

  // The world between the transmission of message k + 1 and its arrival.
  ghost predicate InFlight(w: World, k: nat) {
    && k < LAST_SEQ
    && w.a == Sent(k) && w.b == CleanRecv(k)
    && |w.queued| == k + 1 && |w.delivered| == k && Last(w.delivered) == k && |w.ackLog| == k
    && (forall i :: 0 <= i <= k ==> w.queued[i] == Msg(i))
    && LapFrame(0) in w.wire && LapFrame(k) in w.wire
  }

  lemma RoundSteps(w: World, k: nat) returns (w1: World, w2: World, w3: World)
    requires k + 1 < LAST_SEQ && InFlight(w, k)
    ensures Step(w, GetData(LapFrame(k))) == Some(w1)
    ensures Shape(w1) && Step(w1, Receive) == Some(w2)
    ensures Shape(w2) && Step(w2, GetAck(k)) == Some(w3)
    ensures Lapped(w3, k + 1)
  {
    LapAccept(k);
    LapTake(k);
    LapAck(k);
    hide CleanSend, CleanRecv, Holding, Sent, ReceiveData, Deliver, ProcessAck, Step, SendShape, RecvShape;
    w1 := DataStep(w, LapFrame(k));
    w2 := ReceiveStep(w1, LapFrame(k));
    w3 := AckStep(w2, k);
  }

  lemma Round(actions: seq<Action>, k: nat) returns (actions': seq<Action>)
    requires k + 1 < LAST_SEQ && Run(actions).Some? && Lapped(Run(actions).value, k)
    ensures Run(actions').Some? && Lapped(Run(actions').value, k + 1)
  {
    var actions1 := Transmit(actions, k);
    var w1, w2, w3 := RoundSteps(Run(actions1).value, k);
    hide Run, Step, Lapped;
    Extend(actions1, GetData(LapFrame(k)));
    Extend(actions1 + [GetData(LapFrame(k))], Receive);
    Extend(actions1 + [GetData(LapFrame(k))] + [Receive], GetAck(k));
    actions' := actions1 + [GetData(LapFrame(k))] + [Receive] + [GetAck(k)];
  }

  lemma {:induction false} Rounds(k: nat) returns (actions: seq<Action>)
    requires k < LAST_SEQ
    ensures Run(actions).Some? && Lapped(Run(actions).value, k)
  {
    if k == 0 {
      actions := [];
    } else {
      actions := Rounds(k - 1);
      actions := Round(actions, k - 1);
    }
  }

  /** After 255 is accepted the receiver expects 1 again, and takes the old first frame for message 256. */
  lemma OldFrameAccepted(r: RecvSide, last: Frame, stale: Frame)
    requires r == CleanRecv(254) && last.seqNum == 255 && stale.seqNum == 1
    ensures var r1 := ReceiveData(r, last).0; var r2 := ReceiveData(r1, stale).0;
      Deliver(r2).1 == Some(stale)
  {
    assert r.free[0];
    assert Advance(r.valid[255 := false], 255, LAST_SEQ) == 1;
    var r1 := ReceiveData(r, last).0;
    assert !r1.free[0] && r1.free[1];
    assert FirstSet(r1.free, 0) == 1;
    assert Advance(r1.valid[1 := false], 1, LAST_SEQ) == 2;
    var r2 := ReceiveData(r1, stale).0;
    assert !r2.free[1] && r2.buffer[1] == stale && r2.start == 2;
    KtpLimits.TakeLeast(r2, 1);
  }

  lemma LastSteps(w: World) returns (w1: World, w2: World, w3: World)
    requires InFlight(w, 254)
    ensures Step(w, GetData(LapFrame(254))) == Some(w1)
    ensures Shape(w1) && Step(w1, GetData(LapFrame(0))) == Some(w2)
    ensures Shape(w2) && Step(w2, Receive) == Some(w3)
    ensures w3.queued == w.queued && w3.delivered == w.delivered + [Delivery(1, [65])]
  {
    var last, stale := LapFrame(254), LapFrame(0);
    OldFrameAccepted(w.b, last, stale);
    TextOfCarried(stale.body, Msg(0));
    TextOfNulFree(Msg(0));
    hide CleanSend, CleanRecv, Sent, ReceiveData, Deliver, Step, SendShape, RecvShape;
    w1 := DataStep(w, last);
    w2 := DataStep(w1, stale);
    w3 := ReceiveStep(w2, stale);
  }

  /** With 255 messages queued, the network can make k_recvfrom return the first message again after the 254th. */
  lemma LapBreaksOrder() returns (actions: seq<Action>)
    ensures Run(actions).Some?
    ensures var w := Run(actions).value;
      && |w.queued| == LAST_SEQ
      && |w.delivered| == LAST_SEQ
      && w.delivered[254] == Delivery(1, [65]) && w.queued[254] == [66]
      && !InOrder(w.delivered, Texts(w.queued))
  {
    var rounds := Rounds(254);
    var sent := Transmit(rounds, 254);
    var w := Run(sent).value;
    var w1, w2, w3 := LastSteps(w);
    hide Run, Step, Sent, CleanRecv;
    Extend(sent, GetData(LapFrame(254)));
    Extend(sent + [GetData(LapFrame(254))], GetData(LapFrame(0)));
    Extend(sent + [GetData(LapFrame(254))] + [GetData(LapFrame(0))], Receive);
    actions := sent + [GetData(LapFrame(254))] + [GetData(LapFrame(0))] + [Receive];
    assert w.delivered[253].number == 254;
    assert !Follows(w3.delivered, Texts(w3.queued), 254);
  }

  ghost predicate SafeUpTo(n: nat) {
    forall actions :: Run(actions).Some? && |Run(actions).value.queued| <= n ==>
      InOrder(Run(actions).value.delivered, Texts(Run(actions).value.queued))
  }

  /** Ordered delivery holds over every run that queues at most n messages exactly when n is at most 254. */
  lemma SafeExactlyUpTo254(n: nat)
    ensures SafeUpTo(n) <==> n <= 254
  {
    if n <= 254 {
      forall actions | Run(actions).Some? && |Run(actions).value.queued| <= n
        ensures InOrder(Run(actions).value.delivered, Texts(Run(actions).value.queued))
      {
        DeliveredInOrder(actions);
      }
    } else {
      var actions := LapBreaksOrder();
      assert Run(actions).Some? && |Run(actions).value.queued| <= n;
    }
  }
}
