/** What every run of the KTP transport guarantees, as long as at most 254 messages are queued. */
module KtpGuarantees {
  import opened Common
  import opened KtpBase
  import opened KtpSender
  import opened KtpReceiver
  import opened KtpProtocol
  import opened Stutter

  lemma QueueOnlyGrows(w: World, action: Action)
    requires Shape(w) && Step(w, action).Some?
    ensures |w.queued| <= |Step(w, action).value.queued|
  {
  }

  lemma InitInv()
    ensures Inv(Init())
  {
    hide SendInv, RecvInv, Copies;
    InitSendInv();
    InitRecvInv();
    assert SenderInv(Init(), 1);
    forall v | v > 0 ensures Conserved(Init(), v) {
    }
  }

  lemma {:induction false} Reachable(actions: seq<Action>)
    requires Run(actions).Some? && |Run(actions).value.queued| < LAST_SEQ
    ensures Inv(Run(actions).value)
    decreases |actions|
  {
    if actions == [] {
      InitInv();
    } else {
      var before, action := Run(actions[..|actions| - 1]).value, actions[|actions| - 1];
      hide Inv;
      QueueOnlyGrows(before, action);
      Reachable(actions[..|actions| - 1]);
      StepKeepsInv(before, action);
    }
  }

  // ---------------------------------------------------------------- ordered delivery with stutter

  /** Over a network that loses, duplicates and reorders, the first message delivered is the first one queued, every
      later delivery repeats the last message or brings the next one, and dropping the repeats leaves a prefix of the
      queue. */
  lemma DeliveredInOrder(actions: seq<Action>)
    requires Run(actions).Some? && |Run(actions).value.queued| < LAST_SEQ
    ensures var w := Run(actions).value;
      && InOrder(w.delivered, Texts(w.queued))
      && Collapse(w.delivered) <= Texts(w.queued)
  {
    hide Run, SendInv, RecvInv, InOrder, Collapse;
    Reachable(actions);
    var w := Run(actions).value;
    CollapseIsPrefix(w.delivered, Texts(w.queued));
  }

  // ---------------------------------------------------------------- how often a message is delivered

  lemma NotStoredBelow(r: RecvSide, queued: seq<Message>, d: int, v: int)
    requires RecvInv(r, queued, d) && v > 0
    ensures d <= r.start && (v < d ==> Copies(r, v) == 0)
  {
    CopiesAt(r, v);
  }

  /** Every message below the last one delivered was delivered once, and once more for each time the out-of-order branch
      stored it. So a message is delivered more than once exactly when it was ever stored early. */
  lemma DeliveriesCounted(actions: seq<Action>, v: int)
    requires Run(actions).Some? && |Run(actions).value.queued| < LAST_SEQ
    requires 1 <= v <= Last(Run(actions).value.delivered)
    ensures var w := Run(actions).value;
      && 1 <= Times(w.delivered, v) <= 1 + w.early[v]
      && (v < Last(w.delivered) ==> Times(w.delivered, v) == 1 + w.early[v])
      && (v < Last(w.delivered) ==> (Times(w.delivered, v) > 1 <==> v in w.early))
  {
    hide Run, SendInv, RecvInv, InOrder, Times, Copies;
    Reachable(actions);
    var w := Run(actions).value;
    DeliveredUpToLast(w.delivered, Texts(w.queued), v);
    NotStoredBelow(w.b, w.queued, Last(w.delivered), v);
    assert Conserved(w, v);
  }

  /** While the out-of-order branch has stored nothing, the deliveries are exactly the first messages of the queue, once
      each and in order. */
  lemma DeliveredOnce(actions: seq<Action>)
    requires Run(actions).Some? && |Run(actions).value.queued| < LAST_SEQ
    requires Run(actions).value.early == multiset{}
    ensures var w := Run(actions).value;
      && |w.delivered| <= |w.queued|
      && forall i :: 0 <= i < |w.delivered| ==> w.delivered[i] == Delivery(i + 1, Text(w.queued[i]))
  {
    hide Run, SendInv, RecvInv, InOrder, Times, Copies;
    Reachable(actions);
    var w := Run(actions).value;
    forall v ensures Times(w.delivered, v) <= 1 {
      DeliveredUpToLast(w.delivered, Texts(w.queued), v);
      if v > 0 {
        assert Conserved(w, v);
      }
    }
    OnceEach(w.delivered, Texts(w.queued));
  }

  /** Go-back-N: a later frame than the expected one reaches the receiver only beyond its slots in use, where the
      out-of-order branch does not look. Old frames may arrive at any time. */
  predicate GoBackN(actions: seq<Action>) {
    actions == [] ||
    var before, action := actions[..|actions| - 1], actions[|actions| - 1];
    GoBackN(before) && (action.GetData? && Run(before).Some? ==> NotAhead(Run(before).value.b, action.f.seqNum))
  }

  lemma StoresNothingEarly(w: World, action: Action)
    requires Inv(w) && Step(w, action).Some?
    requires action.GetData? ==> NotAhead(w.b, action.f.seqNum)
    ensures Step(w, action).value.early == w.early
  {
    if action.GetData? {
      NotAheadNeverEarly(w.b, w.queued, Last(w.delivered), action.f);
    }
  }

  lemma {:induction false} NothingEarly(actions: seq<Action>)
    requires Run(actions).Some? && |Run(actions).value.queued| < LAST_SEQ && GoBackN(actions)
    ensures Run(actions).value.early == multiset{}
    decreases |actions|
  {
    hide Step, Inv;
    if actions != [] {
      var before, action := actions[..|actions| - 1], actions[|actions| - 1];
      QueueOnlyGrows(Run(before).value, action);
      NothingEarly(before);
      Reachable(before);
      StoresNothingEarly(Run(before).value, action);
    }
  }

  /** In the go-back-N regime the deliveries are exactly the first messages of the queue, once each and in order. */
  lemma DeliveredOnceInGoBackN(actions: seq<Action>)
    requires Run(actions).Some? && |Run(actions).value.queued| < LAST_SEQ && GoBackN(actions)
    ensures var w := Run(actions).value;
      && |w.delivered| <= |w.queued|
      && forall i :: 0 <= i < |w.delivered| ==> w.delivered[i] == Delivery(i + 1, Text(w.queued[i]))
  {
    hide Run, GoBackN;
    NothingEarly(actions);
    DeliveredOnce(actions);
  }

  // ---------------------------------------------------------------- nothing is lost

  /** The sender never releases what the receiver does not have: the windows stay nested, every acknowledgement on the
      wire names an accepted number, and each queued message is still whole in a send slot, or is stored at the
      receiver, or has been delivered. */
  lemma NothingLost(actions: seq<Action>)
    requires Run(actions).Some? && |Run(actions).value.queued| < LAST_SEQ
    ensures var w := Run(actions).value;
      && w.a.start <= w.b.start <= w.a.nextSeq == |w.queued| + 1
      && (forall i :: 0 <= i < |w.ackLog| ==> 1 <= w.ackLog[i].seqNum < w.b.start)
      && (forall k :: 1 <= k <= |w.queued| ==>
            || (w.a.start <= k && Live(w.a, k, w.queued))
            || (k < w.b.start && (Stored(w.b, k) || Times(w.delivered, k) > 0)))
  {
    hide Run, InOrder, Times, Copies;
    Reachable(actions);
    var w := Run(actions).value;
    assert forall i :: 0 <= i < |w.ackLog| ==> GoodAck(w.ackLog[i], w.b.start);
    forall k | 1 <= k <= |w.queued|
      ensures (w.a.start <= k && Live(w.a, k, w.queued))
              || (k < w.b.start && (Stored(w.b, k) || Times(w.delivered, k) > 0))
    {
      DeliveredUpToLast(w.delivered, Texts(w.queued), k);
    }
  }

  /** Any acknowledgement that was ever sent can be processed in any reachable state. */
  lemma AcksNeverGetStuck(actions: seq<Action>, i: nat)
    requires Run(actions).Some? && |Run(actions).value.queued| < LAST_SEQ
    requires i < |Run(actions).value.ackLog|
    ensures Run(actions + [GetAck(i)]).Some?
  {
    Reachable(actions);
    GetAckKeepsInv(Run(actions).value, i);
    Extend(actions, GetAck(i));
  }

  /** A tick of thread S is possible in a reachable state exactly when no timeout meets a window larger than the
      backlog. */
  lemma TickPossible(actions: seq<Action>, now: nat)
    requires Run(actions).Some? && |Run(actions).value.queued| < LAST_SEQ
    ensures var a := Run(actions).value.a;
      Run(actions + [Action.Tick(now)]).Some? <==> Overdue(a, now) ==> a.size <= |Outstanding(a)|
  {
    Reachable(actions);
    var w := Run(actions).value;
    var sent :| SenderInv(w, sent);
    TickKeeps(w.a, w.queued, sent, now);
    Extend(actions, Action.Tick(now));
  }

  /** What a tick in a reachable state puts on the wire. If some outstanding message was last sent five seconds ago or
      earlier, these are the first messages of the queue, as many as the window says; if not, they are messages that
      were never sent, from the first such on. */
  lemma TickSendsExactly(actions: seq<Action>, now: nat) returns (sent: int)
    requires Run(actions).Some? && |Run(actions).value.queued| < LAST_SEQ && Run(actions + [Action.Tick(now)]).Some?
    ensures var w, w' := Run(actions).value, Run(actions + [Action.Tick(now)]).value;
      var a, q := w.a, Outstanding(w.a);
      && (forall k :: a.start <= k < a.nextSeq ==> (Stamp(a, k) == -1 <==> sent <= k))
      && a.start <= sent <= a.nextSeq == a.start + |q|
      && var u := sent - a.start; var n := NewCount(a.size, |q|, u);
      && (Overdue(a, now) ==> a.size <= |q| && w'.wire == w.wire + FrameSet(q[..a.size]))
      && (!Overdue(a, now) ==> 0 <= n <= |q| - u && w'.wire == w.wire + FrameSet(q[u..u + n]))
  {
    hide Run, Inv, Step, KtpSender.Tick, Overdue, NewCount, Stamp, Outstanding;
    Reachable(actions);
    Extend(actions, Action.Tick(now));
    sent := TickOnWire(Run(actions).value, now);
  }

  lemma TickOnWire(w: World, now: nat) returns (sent: int)
    requires Inv(w) && Step(w, Action.Tick(now)).Some?
    ensures var w' := Step(w, Action.Tick(now)).value; var a, q := w.a, Outstanding(w.a);
      && (forall k :: a.start <= k < a.nextSeq ==> (Stamp(a, k) == -1 <==> sent <= k))
      && a.start <= sent <= a.nextSeq == a.start + |q|
      && var u := sent - a.start; var n := NewCount(a.size, |q|, u);
      && (Overdue(a, now) ==> a.size <= |q| && w'.wire == w.wire + FrameSet(q[..a.size]))
      && (!Overdue(a, now) ==> 0 <= n <= |q| - u && w'.wire == w.wire + FrameSet(q[u..u + n]))
  {
    hide RecvInv, NetInv, SendInv, Conserved, KtpSender.Tick, Overdue, NewCount, Stamp, Outstanding;
    sent :| SenderInv(w, sent);
    StampsSplit(w.a, w.queued, sent);
    if Overdue(w.a, now) {
      TickOverdue(w.a, w.queued, sent, now);
    } else {
      TickNew(w.a, w.queued, sent, now);
    }
  }

  lemma StampsSplit(a: SendSide, queued: seq<Message>, sent: int)
    requires SendInv(a, queued, sent)
    ensures forall k :: a.start <= k < a.nextSeq ==> (Stamp(a, k) == -1 <==> sent <= k)
    ensures a.start <= sent <= a.nextSeq == a.start + |Outstanding(a)|
  {
    forall k | a.start <= k < a.nextSeq ensures Stamp(a, k) == -1 <==> sent <= k {
      assert Live(a, k, queued);
    }
  }

  /** Any frame on the wire can be received in any reachable state: the loop that opens the next number ends. */
  lemma ReceiveAlwaysEnds(actions: seq<Action>, f: Frame)
    requires Run(actions).Some? && |Run(actions).value.queued| < LAST_SEQ
    requires f in Run(actions).value.wire
    ensures var b := Run(actions).value.b;
      f.seqNum as int == b.start ==> SomeOpen(b.valid[f.seqNum := false])
  {
    Reachable(actions);
    var w := Run(actions).value;
    hide Run, SendInv;
    assert Genuine(f, w.queued);
    if f.seqNum as int == w.b.start {
      assert w.b.valid[f.seqNum := false][LAST_SEQ];
    }
  }

  /** What a frame from the wire does in a reachable state. The expected one is acknowledged if a slot is free: with the
      free slots that remain, and before that, exactly if its number was stored out of order and is stored still, with
      the free slots there were. No other frame is acknowledged. A later one is stored out of order exactly if it is no
      further ahead than there are slots in use, and its slot is free. */
  lemma FrameAnsweredExactly(actions: seq<Action>, f: Frame)
    requires Run(actions).Some? && |Run(actions).value.queued| < LAST_SEQ && f in Run(actions).value.wire
    ensures Run(actions + [GetData(f)]).Some?
    ensures var w, w' := Run(actions).value, Run(actions + [GetData(f)]).value;
      var v, room := f.seqNum as int, Count(w.b.free);
      var after, before := Ack(v, Count(w'.b.free)), Ack(v, room);
      var again := v in w.early && Times(w.delivered, v) < w.early[v];
      && (w'.ackLog == w.ackLog <==> !(v == w.b.start && room > 0))
      && (w'.ackLog == w.ackLog + [after] <==> v == w.b.start && room > 0 && !again)
      && (w'.ackLog == w.ackLog + [before, after] <==> v == w.b.start && room > 0 && again)
      && w'.early == w.early + (if w.b.start < v <= w.b.start + 10 - room <= 255 && w.b.free[SlotFor(w.b, v)]
                                then multiset{v} else multiset{})
  {
    hide Run, Inv, Step, Times, SlotFor;
    Reachable(actions);
    Extend(actions, GetData(f));
    DataStepExactly(Run(actions).value, f);
  }

  lemma DataStepExactly(w: World, f: Frame)
    requires Inv(w) && f in w.wire
    ensures Step(w, GetData(f)).Some?
    ensures var w' := Step(w, GetData(f)).value; var v, room := f.seqNum as int, Count(w.b.free);
      var after, before := Ack(v, Count(w'.b.free)), Ack(v, room);
      var again := v in w.early && Times(w.delivered, v) < w.early[v];
      && (w'.ackLog == w.ackLog <==> !(v == w.b.start && room > 0))
      && (w'.ackLog == w.ackLog + [after] <==> v == w.b.start && room > 0 && !again)
      && (w'.ackLog == w.ackLog + [before, after] <==> v == w.b.start && room > 0 && again)
      && w'.early == w.early + (if w.b.start < v <= w.b.start + 10 - room <= 255 && w.b.free[SlotFor(w.b, v)]
                                then multiset{v} else multiset{})
  {
    hide SendInv, RecvInv, InOrder, Copies, ReceiveData, Times, SlotFor, Stored;
    assert Genuine(f, w.queued);
    hide Genuine;
    var v := f.seqNum as int;
    TakesExactly(w.b, w.queued, Last(w.delivered), f);
    AnswersExactly(w.b, w.queued, Last(w.delivered), f);
    assert Conserved(w, v);
    CopiesAt(w.b, v);
    Appended(w.ackLog, ReceiveData(w.b, f).1);
  }

  lemma Appended(log: seq<Ack>, acks: seq<Ack>)
    ensures forall more :: log + acks == log + more <==> acks == more
    ensures log + acks == log <==> acks == []
  {
    forall more ensures log + acks == log + more <==> acks == more {
      if log + acks == log + more {
        assert (log + acks)[|log|..] == acks && (log + more)[|log|..] == more;
      }
    }
    assert log + acks == log ==> |acks| == 0;
  }

  // ---------------------------------------------------------------- zero windows

  function AcksRead(actions: seq<Action>): nat {
    if actions == [] then 0
    else AcksRead(actions[..|actions| - 1]) + if actions[|actions| - 1].GetAck? then 1 else 0
  }

  /** Acknowledgements arrive in the order sent, none lost and none twice. */
  predicate FifoAcks(actions: seq<Action>) {
    actions == [] ||
    var before, action := actions[..|actions| - 1], actions[|actions| - 1];
    FifoAcks(before) && (action.GetAck? ==> action.i == AcksRead(before))
  }

  ghost predicate WindowInv(w: World, read: nat) {
    && read <= |w.ackLog|
    && w.a.size == (if read == 0 then SLOTS else w.ackLog[read - 1].window)
    && (w.ackLog != [] && w.ackLog[|w.ackLog| - 1].window == 0 ==> w.b.noSpace)
  }

  lemma SenderKeepsWindow(w: World, action: Action, read: nat)
    requires Inv(w) && WindowInv(w, read) && Step(w, action).Some?
    requires action.Send? || action.Tick?
    ensures WindowInv(Step(w, action).value, read)
  {
    hide NetInv, RecvInv;
    var sent :| SenderInv(w, sent);
    match action
    case Tick(now) => TickKeepsSize(w.a, w.queued, sent, now);
    case Send(message, stack) => SendKeepsSize(w.a, message, stack);
  }

  lemma TickKeepsSize(a: SendSide, queued: seq<Message>, sent: int, now: nat)
    requires SendInv(a, queued, sent)
    ensures SendShape(a)
    ensures KtpSender.Tick(a, now).Some? ==> KtpSender.Tick(a, now).value.0.size == a.size
  {
    hide KtpSender.Tick;
    TickKeeps(a, queued, sent, now);
  }

  lemma SendKeepsSize(a: SendSide, message: Message, stack: seq<byte>)
    requires SendShape(a)
    ensures |stack| == BODY_SIZE ==> SendTo(a, message, stack).0.size == a.size
  {
  }

  lemma AckMovesWindow(w: World, read: nat)
    requires Inv(w) && WindowInv(w, read) && Step(w, GetAck(read)).Some?
    ensures WindowInv(Step(w, GetAck(read)).value, read + 1)
  {
    hide Inv, ProcessAck;
    GetAckKeepsInv(w, read);
  }

  lemma ReceiverKeepsWindow(w: World, action: Action, read: nat)
    requires Inv(w) && WindowInv(w, read) && Step(w, action).Some?
    requires action.GetData? || action.Announce? || action.Receive?
    ensures WindowInv(Step(w, action).value, read)
  {
    hide SendInv, RecvInv, InOrder, ReceiveData, Scan, Deliver, Copies;
    var d := Last(w.delivered);
    match action
    case GetData(f) => ReceiveDataKeeps(w.b, w.queued, d, f);
    case Announce => ScanKeeps(w.b, w.queued, d);
    case Receive => DeliverKeeps(w.b, w.queued, d);
  }

  lemma {:induction false} WindowTracked(actions: seq<Action>)
    requires Run(actions).Some? && |Run(actions).value.queued| < LAST_SEQ && FifoAcks(actions)
    ensures WindowInv(Run(actions).value, AcksRead(actions))
    decreases |actions|
  {
    if actions != [] {
      var before, action := actions[..|actions| - 1], actions[|actions| - 1];
      QueueOnlyGrows(Run(before).value, action);
      Reachable(before);
      hide Inv, Step, WindowInv;
      WindowTracked(before);
      if action.GetAck? {
        AckMovesWindow(Run(before).value, AcksRead(before));
      } else if action.Send? || action.Tick? {
        SenderKeepsWindow(Run(before).value, action, AcksRead(before));
      } else {
        ReceiverKeepsWindow(Run(before).value, action, AcksRead(before));
      }
    }
  }

  /** With acknowledgements delivered in order and without loss, a closed window is never forgotten: when the sender has
      read every acknowledgement and still sees a zero window, the receiver's reopening flag is set. */
  lemma ZeroWindowRemembered(actions: seq<Action>)
    requires Run(actions).Some? && |Run(actions).value.queued| < LAST_SEQ && FifoAcks(actions)
    ensures var w := Run(actions).value;
      && AcksRead(actions) <= |w.ackLog|
      && (w.a.size == 0 && AcksRead(actions) == |w.ackLog| ==> w.b.noSpace)
  {
    WindowTracked(actions);
    hide Run, AcksRead;
  }

  /** The flag is cleared by nothing but an acknowledgement that advertises a positive window. */
  lemma FlagClearedOnlyByAnnouncing(w: World, action: Action)
    requires Inv(w) && w.b.noSpace && Step(w, action).Some? && !Step(w, action).value.b.noSpace
    ensures action == Announce && w.b.size > 0
    ensures Step(w, action).value.ackLog == w.ackLog + [Ack(w.b.start - 1, Count(w.b.free))]
  {
    var d := Last(w.delivered);
    match action
    case GetData(f) => ReceiveDataKeeps(w.b, w.queued, d, f);
    case Receive => DeliverKeeps(w.b, w.queued, d);
    case _ =>
  }
}
