/** When a KTP transfer can still be finished: from which states everything queued can still be delivered. */
module KtpFinish {
  import opened KtpBase
  import opened KtpSender
  import opened KtpReceiver
  import opened KtpProtocol
  import opened KtpGuarantees
  import opened KtpStall
  import opened Stutter

  // ---------------------------------------------------------------- time stamps

  // With such time stamps nothing is expired at time 0.
  predicate NoneBefore(times: seq<int>) {
    forall j :: 0 <= j < |times| ==> times[j] >= -1
  }

  lemma {:induction false} ReleaseTimes(s: SendSide, stop: int)
    requires SendShape(s) && 1 <= stop <= LAST_SEQ && NoneBefore(s.sendTime)
    ensures Release(s, stop).Some? ==> NoneBefore(Release(s, stop).value.sendTime)
    decreases Distance(s.start, stop)
  {
    if s.start != stop && s.index[s.start] >= 0 {
      ReleaseTimes(DropOne(s), stop);
    }
  }

  lemma {:induction false} RetransmitTimes(s: SendSide, times: seq<int>, k: int, n: nat, now: nat)
    requires SendShape(s) && |times| == SLOTS && 1 <= k <= LAST_SEQ && NoneBefore(times)
    ensures var r := Retransmit(s, times, k, n, now); r.Some? ==> NoneBefore(r.value.0)
    decreases n
  {
    if n > 0 && s.index[k] >= 0 {
      RetransmitTimes(s, times[s.index[k] := now], Succ(k), n - 1, now);
    }
  }

  lemma {:induction false} FirstSendTimes(s: SendSide, times: seq<int>, k: int, stop: int, cnt: int, now: nat)
    requires SendShape(s) && |times| == SLOTS && 1 <= k <= LAST_SEQ && 1 <= stop <= LAST_SEQ && NoneBefore(times)
    ensures NoneBefore(FirstSend(s, times, k, stop, cnt, now).0)
    decreases Distance(k, stop)
  {
    if k != stop && cnt != s.size {
      if s.index[k] >= 0 && times[s.index[k]] == -1 {
        FirstSendTimes(s, times[s.index[k] := now], Succ(k), stop, cnt + 1, now);
      } else {
        FirstSendTimes(s, times, Succ(k), stop, cnt, now);
      }
    }
  }

  lemma StepTimes(w: World, action: Action)
    requires Shape(w) && NoneBefore(w.a.sendTime) && Step(w, action).Some?
    ensures NoneBefore(Step(w, action).value.a.sendTime)
  {
    hide Retransmit, FirstSend, Release, ReceiveData, Deliver, Expired, NoneBefore;
    var a := w.a;
    match action
    case Tick(now) =>
      if a.size != 0 {
        RetransmitTimes(a, a.sendTime, a.start, a.size, now);
        FirstSendTimes(a, a.sendTime, a.start, Succ(a.start + a.size), 0, now);
      }
    case GetAck(i) =>
      var ack := w.ackLog[i];
      if 0 < ack.seqNum <= LAST_SEQ && 0 <= ack.window <= SLOTS {
        var last := Max(ack.seqNum, a.lastAck);
        ReleaseTimes(a.(size := ack.window, lastAck := last), Succ(last));
      }
    case _ =>
  }

  lemma {:induction false} NeverExpiredAtZero(actions: seq<Action>)
    requires Run(actions).Some?
    ensures NoneBefore(Run(actions).value.a.sendTime) && !Expired(Run(actions).value.a, 0)
    decreases |actions|
  {
    if actions != [] {
      NeverExpiredAtZero(actions[..|actions| - 1]);
      hide Step;
      StepTimes(Run(actions[..|actions| - 1]).value, actions[|actions| - 1]);
    }
  }

  // ---------------------------------------------------------------- what the acknowledgements say

  /** The first acknowledgement ever sent advertises at least nine free slots; the latest names the last accepted
      number, and if it closes the window the receiver remembers to reopen it. Nothing was stored early but what was
      sent. */
  ghost predicate AckInv(w: World) {
    && (w.ackLog == [] ==> w.b.start == 1 && w.a.size == SLOTS)
    && (w.ackLog != [] ==>
          var last := w.ackLog[|w.ackLog| - 1];
          && w.ackLog[0].window >= SLOTS - 1
          && last.seqNum == w.b.start - 1
          && (last.window == 0 ==> w.b.noSpace))
    && forall v :: v in w.early ==> OnWire(w, v)
  }

  lemma FirstAccept(r: RecvSide, queued: seq<Message>, d: int, f: Frame)
    requires RecvInv(r, queued, d) && Genuine(f, queued) && r.start == 1
    ensures var (r', acks, isEarly) := ReceiveData(r, f);
      acks != [] ==> acks[0].window >= SLOTS - 1
  {
  }

  lemma DataKeepsAckInv(w: World, f: Frame)
    requires Inv(w) && AckInv(w) && f in w.wire
    ensures Step(w, GetData(f)).Some? && AckInv(Step(w, GetData(f)).value)
  {
    hide SendInv, RecvInv, InOrder, Copies, Conserved, ReceiveData;
    assert Genuine(f, w.queued);
    hide Genuine;
    var d := Last(w.delivered);
    ReceiveDataKeeps(w.b, w.queued, d, f);
    if w.ackLog == [] {
      FirstAccept(w.b, w.queued, d, f);
    }
    var w' := Step(w, GetData(f)).value;
    forall v | v in w'.early ensures OnWire(w', v) {
      assert v in w.early ==> OnWire(w, v);
    }
  }

  lemma StepKeepsAckInv(w: World, action: Action)
    requires Inv(w) && AckInv(w) && Step(w, action).Some?
    ensures AckInv(Step(w, action).value)
  {
    hide SendInv, RecvInv, InOrder, Copies, Conserved, SendTo, KtpSender.Tick, ReceiveData, Scan, Deliver;
    var w', d := Step(w, action).value, Last(w.delivered);
    match action
    case GetData(f) => DataKeepsAckInv(w, f);
    case Announce => ScanKeeps(w.b, w.queued, d); KeepsEarly(w, w');
    case Receive => DeliverKeeps(w.b, w.queued, d); KeepsEarly(w, w');
    case Send(message, stack) => SendKeepsSize(w.a, message, stack); KeepsEarly(w, w');
    case Tick(now) =>
      var sent :| SenderInv(w, sent);
      TickKeepsSize(w.a, w.queued, sent, now);
      KeepsEarly(w, w');
    case GetAck(i) => KeepsEarly(w, w');
  }

  lemma KeepsEarly(w: World, w': World)
    requires forall v :: v in w.early ==> OnWire(w, v)
    requires w.wire <= w'.wire && w'.early == w.early
    ensures forall v :: v in w'.early ==> OnWire(w', v)
  {
    forall v | v in w'.early ensures OnWire(w', v) {
      assert OnWire(w, v);
    }
  }

  lemma {:induction false} AlwaysAckInv(actions: seq<Action>)
    requires Run(actions).Some? && |Run(actions).value.queued| < LAST_SEQ
    ensures Inv(Run(actions).value) && AckInv(Run(actions).value)
    decreases |actions|
  {
    Reachable(actions);
    if actions != [] {
      var before, action := Run(actions[..|actions| - 1]).value, actions[|actions| - 1];
      hide Inv, AckInv;
      QueueOnlyGrows(before, action);
      AlwaysAckInv(actions[..|actions| - 1]);
      StepKeepsAckInv(before, action);
    }
  }

  // ---------------------------------------------------------------- two ways of never finishing

  /** After these further steps everything queued before them has been delivered. */
  ghost predicate Finishes(actions: seq<Action>, rest: seq<Action>)
    requires Run(actions).Some?
  {
    && Run(actions + rest).Some? && |Run(actions + rest).value.queued| < LAST_SEQ
    && Texts(Run(actions).value.queued) <= Collapse(Run(actions + rest).value.delivered)
  }

  ghost predicate CanFinish(actions: seq<Action>)
    requires Run(actions).Some?
  {
    exists rest :: Finishes(actions, rest)
  }

  // The same without hearing again any acknowledgement sent so far.
  ghost predicate CanFinishAfresh(actions: seq<Action>)
    requires Run(actions).Some?
  {
    exists rest :: Finishes(actions, rest) && OnlyFreshAcks(rest, |Run(actions).value.ackLog|)
  }

  /** The receiver waits for message n or an earlier one and has nothing to announce; every frame on the wire is old,
      so none will be acknowledged; and the sender's window, open or not, ends before the awaited number. */
  predicate Starved(w: World, n: int)
    requires Shape(w)
  {
    && w.b.start <= n && !w.b.noSpace
    && (forall f :: f in w.wire ==> f.seqNum as int < w.b.start)
    && (w.a.size == 0 || w.a.start + w.a.size < w.b.start)
  }

  // ---------------------------------------------------------------- they are for ever

  lemma QueueGrowsOnly(w: World, action: Action)
    requires Shape(w) && Step(w, action).Some?
    ensures w.queued <= Step(w, action).value.queued
  {
  }

  lemma {:induction false} QueueKept(actions: seq<Action>, rest: seq<Action>)
    requires Run(actions).Some? && Run(actions + rest).Some?
    ensures Run(actions).value.queued <= Run(actions + rest).value.queued
    decreases |rest|
  {
    if rest == [] {
      assert actions + rest == actions;
    } else {
      hide Step;
      RunSplit(actions, rest);
      QueueKept(actions, rest[..|rest| - 1]);
      QueueGrowsOnly(Run(actions + rest[..|rest| - 1]).value, rest[|rest| - 1]);
    }
  }

  /** Everything queued is delivered exactly when its last number is. */
  lemma FinishedAt(actions: seq<Action>, rest: seq<Action>)
    requires Run(actions).Some? && Run(actions + rest).Some? && |Run(actions + rest).value.queued| < LAST_SEQ
    ensures Finishes(actions, rest) <==> Last(Run(actions + rest).value.delivered) >= |Run(actions).value.queued|
  {
    hide Run, InOrder, Collapse, SendInv, RecvInv, Conserved;
    Reachable(actions + rest);
    QueueKept(actions, rest);
    var w, w' := Run(actions).value, Run(actions + rest).value;
    CollapseIsPrefix(w'.delivered, Texts(w'.queued));
    assert Texts(w.queued) == Texts(w'.queued)[..|w.queued|];
    assert |Collapse(w'.delivered)| == Last(w'.delivered);
  }

  // An old frame does nothing to a receiver that waits for a later one.
  lemma OldFrameIgnored(r: RecvSide, f: Frame)
    requires RecvShape(r) && f.seqNum as int < r.start
    ensures ReceiveData(r, f) == (r, [], false)
  {
  }

  lemma StarvedTick(w: World, n: int, now: nat)
    requires Inv(w) && Starved(w, n) && Step(w, Action.Tick(now)).Some? && n <= |w.queued|
    ensures Starved(Step(w, Action.Tick(now)).value, n)
    ensures Step(w, Action.Tick(now)).value.ackLog == w.ackLog
  {
    hide RecvInv, SendInv, NetInv, Conserved, KtpSender.Tick, Expired;
    var sent :| SenderInv(w, sent);
    NextAboveStart(w.a, w.queued, sent);
    TickKeeps(w.a, w.queued, sent, now);
    TickFrames(w.a, w.queued, sent, now);
    MarkAt(w, sent);
    assert TickMark(w.a, sent, now) == sent;
  }

  lemma MarkAt(w: World, sent: int)
    requires Shape(w) && Transmitted(w, sent) && forall f :: f in w.wire ==> f.seqNum as int < w.b.start
    ensures sent == w.b.start
  {
    assert w.b.start < sent ==> OnWire(w, w.b.start);
  }

  lemma StarvedStep(w: World, n: int, action: Action)
    requires Inv(w) && Starved(w, n) && n <= |w.queued| && !action.GetAck? && Step(w, action).Some?
    ensures Starved(Step(w, action).value, n) && Step(w, action).value.ackLog == w.ackLog
  {
    match action
    case Tick(now) => StarvedTick(w, n, now);
    case GetData(f) => OldFrameIgnored(w.b, f);
    case _ => hide Inv, Deliver;
  }

  lemma {:induction false} StarvedForEver(actions: seq<Action>, rest: seq<Action>, n: int)
    requires Run(actions).Some? && Starved(Run(actions).value, n) && n <= |Run(actions).value.queued|
    requires OnlyFreshAcks(rest, |Run(actions).value.ackLog|)
    requires Run(actions + rest).Some? && |Run(actions + rest).value.queued| < LAST_SEQ
    ensures Starved(Run(actions + rest).value, n)
    ensures Run(actions + rest).value.ackLog == Run(actions).value.ackLog
    decreases |rest|
  {
    if rest == [] {
      assert actions + rest == actions;
    } else {
      var before, action := rest[..|rest| - 1], rest[|rest| - 1];
      RunSplit(actions, rest);
      hide Starved, Inv, Run;
      QueueGrowsOnly(Run(actions + before).value, action);
      QueueKept(actions, before);
      StarvedForEver(actions, before, n);
      Reachable(actions + before);
      StarvedReadsNothing(Run(actions + before).value, action);
      StarvedStep(Run(actions + before).value, n, action);
    }
  }

  lemma StarvedReadsNothing(w: World, action: Action)
    requires Shape(w) && Step(w, action).Some? && (action.GetAck? ==> action.i >= |w.ackLog|)
    ensures !action.GetAck?
  {
  }

  // A starved receiver never had the number it waits for.
  lemma StarvedShort(w: World, n: int)
    requires Inv(w) && AckInv(w) && Starved(w, n)
    ensures Last(w.delivered) < n
  {
    hide RecvInv, SendInv, InOrder, Times, Copies;
    var v := w.b.start;
    assert v in w.early ==> OnWire(w, v);
    assert Conserved(w, v);
    DeliveredUpToLast(w.delivered, Texts(w.queued), v);
  }

  lemma WedgedShort(w: World)
    requires Inv(w) && Wedged(w.b)
    ensures Last(w.delivered) < |w.queued|
  {
    hide SendInv, NetInv, Conserved;
    assert Genuine(w.b.buffer[0], w.queued);
  }

  // ---------------------------------------------------------------- leading a transfer to its end

  /** What a continuation is built from: a run and further steps that read no acknowledgement sent before them, queue
      nothing, and leave a receiver that is not wedged. */
  ghost predicate Leads(actions: seq<Action>, rest: seq<Action>) {
    && Run(actions).Some? && Run(actions + rest).Some? && OnlyFreshAcks(rest, |Run(actions).value.ackLog|)
    && var w, w' := Run(actions).value, Run(actions + rest).value;
    && |w'.queued| < LAST_SEQ && w'.queued == w.queued && |w.ackLog| <= |w'.ackLog|
    && !Wedged(w'.b)
  }

  function At(actions: seq<Action>, rest: seq<Action>): (w: World)
    requires Run(actions + rest).Some?
    ensures Shape(w)
  {
    Run(actions + rest).value
  }

  // Something was acknowledged, or announced, since.
  ghost predicate Fresh(actions: seq<Action>, rest: seq<Action>)
    requires Leads(actions, rest)
  {
    |At(actions, rest).ackLog| > |Run(actions).value.ackLog|
  }

  lemma Onward(actions: seq<Action>, rest: seq<Action>, action: Action)
    requires Leads(actions, rest) && !action.Send?
    requires action.GetAck? ==> action.i >= |Run(actions).value.ackLog|
    requires Step(At(actions, rest), action).Some? && !Wedged(Step(At(actions, rest), action).value.b)
    ensures Leads(actions, rest + [action]) && At(actions, rest + [action]) == Step(At(actions, rest), action).value
  {
    hide Run, Step, Wedged, OnlyFreshAcks;
    Then(actions, rest, action);
    StepQueuesNothing(At(actions, rest), action);
  }

  lemma StepQueuesNothing(w: World, action: Action)
    requires Shape(w) && !action.Send? && Step(w, action).Some?
    ensures Step(w, action).value.queued == w.queued && |w.ackLog| <= |Step(w, action).value.ackLog|
  {
  }

  // With no slot free the receiver delivers something.
  lemma MakeRoom(actions: seq<Action>, rest: seq<Action>) returns (rest': seq<Action>)
    requires Leads(actions, rest)
    ensures Leads(actions, rest')
    ensures var w, w' := At(actions, rest), At(actions, rest');
      w' == w.(b := w'.b, delivered := w'.delivered) && w'.b.start == w.b.start && w'.b.noSpace == w.b.noSpace
      && w'.b.size > 0
  {
    rest' := rest;
    hide Run, Wedged, OnlyFreshAcks, Step;
    var w := At(actions, rest);
    Reachable(actions + rest);
    if w.b.size <= 0 {
      RoomMade(w);
      Onward(actions, rest, Receive);
      rest' := rest + [Receive];
    }
  }

  lemma RoomMade(w: World)
    requires Inv(w) && w.b.size <= 0 && !Wedged(w.b)
    ensures Step(w, Receive).Some?
    ensures var w' := Step(w, Receive).value;
      && w' == w.(b := w'.b, delivered := w'.delivered) && w'.b.start == w.b.start && w'.b.noSpace == w.b.noSpace
      && w'.b.size > 0 && !Wedged(w'.b)
  {
    hide RecvInv, SendInv, NetInv, Deliver, Copies, Conserved;
    DeliverKeeps(w.b, w.queued, Last(w.delivered));
    NoFreeSlot(w.b, w.queued, Last(w.delivered));
  }

  // The expected frame, once on the wire, is accepted and acknowledged.
  lemma AcceptNext(actions: seq<Action>, rest: seq<Action>) returns (rest': seq<Action>)
    requires Leads(actions, rest) && OnWire(At(actions, rest), At(actions, rest).b.start)
    ensures Leads(actions, rest') && Fresh(actions, rest')
    ensures var w, w' := At(actions, rest), At(actions, rest');
      w'.b.start == w.b.start + 1 && w'.a == w.a && w'.wire == w.wire && w'.early == w.early
  {
    hide Run, Wedged, OnlyFreshAcks, Step;
    rest' := MakeRoom(actions, rest);
    var w := At(actions, rest');
    assert OnWire(At(actions, rest), w.b.start);
    var f :| f in w.wire && f.seqNum as int == w.b.start;
    Reachable(actions + rest');
    NextAccepted(w, f);
    Onward(actions, rest', GetData(f));
    rest' := rest' + [GetData(f)];
  }

  lemma NextAccepted(w: World, f: Frame)
    requires Inv(w) && f in w.wire && f.seqNum as int == w.b.start && w.b.size > 0
    ensures Step(w, GetData(f)).Some?
    ensures var w' := Step(w, GetData(f)).value;
      && w' == w.(b := w'.b, ackLog := w'.ackLog) && |w'.ackLog| > |w.ackLog|
      && w'.b.start == w.b.start + 1 && !Wedged(w'.b)
  {
    hide RecvInv, SendInv, InOrder, Copies, Conserved, Accept, Held;
    assert Genuine(f, w.queued);
    hide Genuine;
    ReceiveDataKeeps(w.b, w.queued, Last(w.delivered), f);
    AcceptStored(w.b, w.queued, Last(w.delivered), f);
    NotWedgedBelow(Accept(w.b, f), w.b.start);
  }

  lemma NotWedgedBelow(r: RecvSide, k: int)
    requires RecvShape(r) && Stored(r, k) && k <= r.start
    ensures !Wedged(r)
  {
  }

  // What the receiver has to announce is announced.
  lemma ClearFlag(actions: seq<Action>, rest: seq<Action>) returns (rest': seq<Action>)
    requires Leads(actions, rest) && At(actions, rest).b.noSpace
    ensures Leads(actions, rest') && Fresh(actions, rest')
    ensures var w, w' := At(actions, rest), At(actions, rest');
      && w' == w.(b := w'.b, ackLog := w'.ackLog, delivered := w'.delivered)
      && w'.b.start == w.b.start && !w'.b.noSpace
      && w'.ackLog[|w'.ackLog| - 1].window > 0
  {
    hide Run, Wedged, OnlyFreshAcks, Step;
    rest' := MakeRoom(actions, rest);
    var w := At(actions, rest');
    FlagCleared(w);
    Onward(actions, rest', Announce);
    rest' := rest' + [Announce];
  }

  lemma FlagCleared(w: World)
    requires Shape(w) && w.b.noSpace && w.b.size > 0
    ensures Step(w, Announce).Some?
    ensures var w' := Step(w, Announce).value;
      && w' == w.(b := w'.b, ackLog := w'.ackLog) && |w'.ackLog| == |w.ackLog| + 1
      && w'.b.start == w.b.start && !w'.b.noSpace && !Wedged(w'.b)
      && w'.ackLog[|w.ackLog|].window > 0
  {
  }

  // The sender catches up with the receiver and sees an open window.
  lemma CatchUp(actions: seq<Action>, rest: seq<Action>) returns (rest': seq<Action>)
    requires Leads(actions, rest) && (Fresh(actions, rest) || At(actions, rest).b.noSpace)
    ensures Leads(actions, rest')
    ensures var w, w' := At(actions, rest), At(actions, rest');
      w'.wire == w.wire && w'.b.start == w.b.start && w'.a.start == w.b.start && w'.a.size > 0
  {
    hide Run, Wedged, OnlyFreshAcks, Step;
    rest' := rest;
    if At(actions, rest').b.noSpace {
      rest' := ClearFlag(actions, rest');
    }
    var w := At(actions, rest');
    AlwaysAckInv(actions + rest');
    LatestRead(w);
    Onward(actions, rest', GetAck(|w.ackLog| - 1));
    rest' := rest' + [GetAck(|w.ackLog| - 1)];
  }

  lemma LatestRead(w: World)
    requires Inv(w) && AckInv(w) && w.ackLog != []
    ensures Step(w, GetAck(|w.ackLog| - 1)).Some?
    ensures var w' := Step(w, GetAck(|w.ackLog| - 1)).value;
      && w' == w.(a := w'.a) && w'.a.start == w.b.start && w'.a.size == w.ackLog[|w.ackLog| - 1].window
  {
    hide RecvInv, SendInv, InOrder, Genuine, Conserved, ProcessAck;
    var sent :| SenderInv(w, sent);
    var last := w.ackLog[|w.ackLog| - 1];
    assert GoodAck(last, w.b.start);
    NextAboveStart(w.a, w.queued, sent);
    ProcessAckDrops(w.a, w.queued, sent, last);
  }

  // The sender's window holds the awaited number.
  predicate InReach(w: World)
    requires Shape(w)
  {
    w.a.size > 0 && w.b.start <= w.a.start + w.a.size
  }

  lemma TransmitNext(actions: seq<Action>, rest: seq<Action>) returns (rest': seq<Action>)
    requires Leads(actions, rest) && InReach(At(actions, rest))
    requires At(actions, rest).b.start <= |At(actions, rest).queued|
    ensures Leads(actions, rest')
    ensures var w, w' := At(actions, rest), At(actions, rest');
      w'.b == w.b && OnWire(w', w.b.start)
  {
    hide Run, Wedged, OnlyFreshAcks, Step;
    var w := At(actions, rest);
    Reachable(actions + rest);
    NeverExpiredAtZero(actions + rest);
    NextTransmitted(w);
    Onward(actions, rest, Action.Tick(0));
    rest' := rest + [Action.Tick(0)];
  }

  lemma NextTransmitted(w: World)
    requires Inv(w) && InReach(w) && w.b.start <= |w.queued| && !Expired(w.a, 0)
    ensures Step(w, Action.Tick(0)).Some?
    ensures var w' := Step(w, Action.Tick(0)).value;
      w' == w.(a := w'.a, wire := w'.wire) && OnWire(w', w.b.start)
  {
    hide RecvInv, SendInv, NetInv, Conserved, KtpSender.Tick, Expired;
    var sent :| SenderInv(w, sent);
    NextNumber(w.a, w.queued, sent);
    TickKeeps(w.a, w.queued, sent, 0);
    TickFrames(w.a, w.queued, sent, 0);
    var w', k := Step(w, Action.Tick(0)).value, w.b.start;
    if k < sent {
      assert OnWire(w, k);
    } else {
      assert Includes(FrameSet(KtpSender.Tick(w.a, 0).value.1), k);
    }
    assert OnWire(w', k);
  }

  lemma NextNumber(s: SendSide, queued: seq<Message>, sent: int)
    requires SendInv(s, queued, sent)
    ensures SendShape(s) && s.start <= sent <= s.nextSeq == |queued| + 1
  {
  }

  // Some step towards accepting the awaited number is possible.
  ghost predicate Primed(actions: seq<Action>, rest: seq<Action>)
    requires Leads(actions, rest)
  {
    var w := At(actions, rest);
    OnWire(w, w.b.start) || w.b.noSpace || InReach(w) || Fresh(actions, rest)
  }

  lemma AcceptOne(actions: seq<Action>, rest: seq<Action>) returns (rest': seq<Action>)
    requires Leads(actions, rest) && Primed(actions, rest) && At(actions, rest).b.start <= |At(actions, rest).queued|
    ensures Leads(actions, rest') && Fresh(actions, rest')
    ensures At(actions, rest').b.start == At(actions, rest).b.start + 1
  {
    hide Run, Wedged, OnlyFreshAcks, OnWire;
    rest' := rest;
    if !OnWire(At(actions, rest), At(actions, rest).b.start) {
      if !InReach(At(actions, rest)) {
        rest' := CatchUp(actions, rest');
      }
      rest' := TransmitNext(actions, rest');
    }
    rest' := AcceptNext(actions, rest');
  }

  lemma {:induction false} AcceptAll(actions: seq<Action>, rest: seq<Action>) returns (rest': seq<Action>)
    requires Leads(actions, rest) && Primed(actions, rest)
    ensures Leads(actions, rest') && At(actions, rest').b.start == |At(actions, rest).queued| + 1
    decreases |At(actions, rest).queued| + 1 - At(actions, rest).b.start
  {
    hide Run, Wedged, OnlyFreshAcks, OnWire;
    rest' := rest;
    Reachable(actions + rest);
    StartBound(At(actions, rest));
    if At(actions, rest).b.start <= |At(actions, rest).queued| {
      rest' := AcceptOne(actions, rest');
      rest' := AcceptAll(actions, rest');
    }
  }

  lemma StartBound(w: World)
    requires Inv(w)
    ensures w.b.start <= |w.queued| + 1 && 0 <= w.b.size <= SLOTS
  {
    NoFreeSlot(w.b, w.queued, Last(w.delivered));
  }

  lemma {:induction false} DeliverAll(actions: seq<Action>, rest: seq<Action>) returns (rest': seq<Action>)
    requires Leads(actions, rest) && At(actions, rest).b.start == |At(actions, rest).queued| + 1
    ensures Leads(actions, rest') && Last(At(actions, rest').delivered) == |At(actions, rest).queued|
    decreases SLOTS - At(actions, rest).b.size
  {
    hide Run, Wedged, OnlyFreshAcks, Step;
    rest' := rest;
    var w := At(actions, rest);
    Reachable(actions + rest);
    StartBound(w);
    OneDelivered(w);
    if Last(w.delivered) < |w.queued| {
      Onward(actions, rest', Receive);
      var w' := At(actions, rest' + [Receive]);
      Reachable(actions + (rest' + [Receive]));
      StartBound(w');
      rest' := DeliverAll(actions, rest' + [Receive]);
    }
  }

  lemma OneDelivered(w: World)
    requires Inv(w) && w.b.start == |w.queued| + 1
    ensures Last(w.delivered) <= |w.queued|
    ensures Last(w.delivered) < |w.queued| ==>
      && Step(w, Receive).Some?
      && var w' := Step(w, Receive).value;
      && w'.b.start == w.b.start && w'.b.size == w.b.size + 1 && w'.queued == w.queued && !Wedged(w'.b)
  {
    hide SendInv, InOrder, Texts, Copies, Conserved, Deliver, Genuine;
    var d := Last(w.delivered);
    DeliverKeeps(w.b, w.queued, d);
    StartBound(w);
    if d < |w.queued| {
      assert Stored(w.b, d + 1);
    }
  }

  lemma LeadToEnd(actions: seq<Action>, rest: seq<Action>) returns (rest': seq<Action>)
    requires Leads(actions, rest) && (Primed(actions, rest) || At(actions, rest).b.start > |At(actions, rest).queued|)
    ensures Leads(actions, rest') && Last(At(actions, rest').delivered) == |At(actions, rest).queued|
  {
    hide Run, Wedged, OnlyFreshAcks, Primed;
    rest' := rest;
    if Primed(actions, rest) {
      rest' := AcceptAll(actions, rest');
    } else {
      Reachable(actions + rest);
      StartBound(At(actions, rest));
    }
    rest' := DeliverAll(actions, rest');
  }

  // ---------------------------------------------------------------- the main theorems

  /** From a reachable state everything queued can still be delivered, without hearing an earlier acknowledgement again,
      exactly when the receiver is not wedged and the transfer not starved. */
  lemma FinishesUnlessStuck(actions: seq<Action>)
    requires Run(actions).Some? && |Run(actions).value.queued| < LAST_SEQ
    ensures var w := Run(actions).value;
      CanFinishAfresh(actions) <==> !Wedged(w.b) && !Starved(w, |w.queued|)
  {
    var w := Run(actions).value;
    hide Run, Wedged, Starved;
    if Wedged(w.b) || Starved(w, |w.queued|) {
      forall rest ensures !(Finishes(actions, rest) && OnlyFreshAcks(rest, |w.ackLog|)) {
        if Wedged(w.b) || OnlyFreshAcks(rest, |w.ackLog|) {
          StuckShort(actions, rest);
        }
      }
    } else {
      var rest := Finishing(actions);
      assert Finishes(actions, rest) && OnlyFreshAcks(rest, |w.ackLog|);
    }
  }

  lemma StuckShort(actions: seq<Action>, rest: seq<Action>)
    requires Run(actions).Some? && |Run(actions).value.queued| < LAST_SEQ
    requires var w := Run(actions).value;
      Wedged(w.b) || (Starved(w, |w.queued|) && OnlyFreshAcks(rest, |w.ackLog|))
    ensures !Finishes(actions, rest)
  {
    var w := Run(actions).value;
    hide Run, Wedged, Starved, OnlyFreshAcks, Texts, Collapse;
    if Run(actions + rest).Some? && |Run(actions + rest).value.queued| < LAST_SEQ {
      FinishedAt(actions, rest);
      if Wedged(w.b) {
        Reachable(actions);
        WedgedShort(w);
        WedgeIsForever(actions, rest);
      } else {
        StarvedForEver(actions, rest, |w.queued|);
        AlwaysAckInv(actions + rest);
        StarvedShort(Run(actions + rest).value, |w.queued|);
      }
    }
  }

  lemma Finishing(actions: seq<Action>) returns (rest: seq<Action>)
    requires Run(actions).Some? && |Run(actions).value.queued| < LAST_SEQ
    requires var w := Run(actions).value; !Wedged(w.b) && !Starved(w, |w.queued|)
    ensures Finishes(actions, rest) && OnlyFreshAcks(rest, |Run(actions).value.ackLog|)
  {
    var w := Run(actions).value;
    assert actions + [] == actions;
    hide Run, Wedged, Finishes;
    assert Leads(actions, []);
    Reachable(actions);
    AwaitedOnWire(w);
    rest := LeadToEnd(actions, []);
    FinishedAt(actions, rest);
  }

  // Frames at or above the awaited number come with the awaited one.
  lemma AwaitedOnWire(w: World)
    requires Inv(w)
    ensures (exists f :: f in w.wire && f.seqNum as int >= w.b.start) ==> OnWire(w, w.b.start)
  {
    hide SendInv, RecvInv, NetInv, Conserved;
    if exists f :: f in w.wire && f.seqNum as int >= w.b.start {
      ExpectedOnWire(w);
    }
  }

  /** From a reachable state everything queued can still be delivered exactly when the receiver is not wedged. */
  lemma FinishesUnlessWedged(actions: seq<Action>)
    requires Run(actions).Some? && |Run(actions).value.queued| < LAST_SEQ
    ensures CanFinish(actions) <==> !Wedged(Run(actions).value.b)
  {
    var w := Run(actions).value;
    hide Run, Wedged, Starved, Finishes;
    if Wedged(w.b) {
      forall rest ensures !Finishes(actions, rest) {
        StuckShort(actions, rest);
      }
    } else if Starved(w, |w.queued|) {
      var rest := Rescue(actions);
      assert Finishes(actions, rest);
    } else {
      FinishesUnlessStuck(actions);
    }
  }

  // A starved transfer lacks nothing but its acknowledgements: the latest, then the first, are read again.
  lemma Rescue(actions: seq<Action>) returns (rest: seq<Action>)
    requires Run(actions).Some? && |Run(actions).value.queued| < LAST_SEQ
    requires !Wedged(Run(actions).value.b) && Starved(Run(actions).value, |Run(actions).value.queued|)
    ensures Finishes(actions, rest)
  {
    hide Run, Wedged, OnlyFreshAcks, Starved, Inv, AckInv, InReach, Step;
    var w := Run(actions).value;
    AlwaysAckInv(actions);
    var again := TwoRead(actions);
    var here := actions + again;
    NotStarved(Run(here).value);
    var more := Finishing(here);
    FinishedAt(here, more);
    assert actions + (again + more) == here + more;
    FinishedAt(actions, again + more);
    rest := again + more;
  }

  lemma NotStarved(w: World)
    requires Shape(w) && InReach(w)
    ensures !Starved(w, |w.queued|)
  {
  }

  lemma TwoRead(actions: seq<Action>) returns (again: seq<Action>)
    requires Run(actions).Some? && |Run(actions).value.queued| < LAST_SEQ
    requires var w := Run(actions).value; Inv(w) && AckInv(w) && Starved(w, |w.queued|)
    ensures Run(actions + again).Some?
    ensures var w, w' := Run(actions).value, Run(actions + again).value; w' == w.(a := w'.a) && InReach(w')
  {
    hide Run, Inv, Step;
    var w := Run(actions).value;
    StarvedHasAcks(w);
    var latest: Action := GetAck(|w.ackLog| - 1);
    LatestRead(w);
    Extend(actions, latest);
    AlwaysAckInv(actions + [latest]);
    FirstRead(Run(actions + [latest]).value);
    Extend(actions + [latest], GetAck(0));
    again := [latest] + [GetAck(0)];
    assert actions + again == (actions + [latest]) + [GetAck(0)];
  }

  lemma StarvedHasAcks(w: World)
    requires Inv(w) && AckInv(w) && Starved(w, |w.queued|)
    ensures w.ackLog != []
  {
    var sent :| SenderInv(w, sent);
  }

  lemma FirstRead(w: World)
    requires Inv(w) && AckInv(w) && w.ackLog != [] && w.a.start == w.b.start
    ensures Step(w, GetAck(0)).Some?
    ensures var w' := Step(w, GetAck(0)).value; w' == w.(a := w'.a) && InReach(w')
  {
    hide RecvInv, SendInv, InOrder, Genuine, Conserved, ProcessAck;
    var sent :| SenderInv(w, sent);
    assert GoodAck(w.ackLog[0], w.b.start);
    NextAboveStart(w.a, w.queued, sent);
    ProcessAckDrops(w.a, w.queued, sent, w.ackLog[0]);
  }
}
