/** When a closed window can still reopen: the two ways in which a KTP transfer is stuck for good. */
module KtpStall {
  import opened KtpBase
  import opened KtpSender
  import opened KtpReceiver
  import opened KtpProtocol
  import opened KtpGuarantees
  import opened Stutter

  /** The sender sees a closed window, the receiver has forgotten to reopen it, and every frame on the wire is old. */
  predicate Stalled(w: World)
    requires Shape(w)
  {
    w.a.size == 0 && !w.b.noSpace && forall f :: f in w.wire ==> f.seqNum as int < w.b.start
  }

  /** Every slot of the receiver holds a number above the expected one: nothing can be delivered, and the expected
      frame is refused for want of space. */
  predicate Wedged(b: RecvSide)
    requires RecvShape(b)
  {
    b.size == 0 && forall j :: 0 <= j < SLOTS ==> !b.free[j] && b.buffer[j].seqNum as int > b.start
  }

  lemma StallStep(w: World, action: Action)
    requires Shape(w) && Stalled(w) && !action.GetAck? && Step(w, action).Some?
    ensures var w' := Step(w, action).value; Stalled(w') && w'.wire == w.wire && w'.ackLog == w.ackLog
  {
  }

  /** While no further acknowledgement gets through, a stalled transfer puts nothing on the wire, whatever else
      happens. */
  lemma {:induction false} StallIsForever(actions: seq<Action>, rest: seq<Action>)
    requires Run(actions).Some? && Stalled(Run(actions).value)
    requires forall i :: 0 <= i < |rest| && rest[i].GetAck? ==> rest[i].i >= |Run(actions).value.ackLog|
    requires Run(actions + rest).Some?
    ensures Stalled(Run(actions + rest).value)
    ensures Run(actions + rest).value.wire == Run(actions).value.wire
    ensures Run(actions + rest).value.ackLog == Run(actions).value.ackLog
    decreases |rest|
  {
    hide Stalled;
    if rest == [] {
      assert actions + rest == actions;
    } else {
      var before, action := rest[..|rest| - 1], rest[|rest| - 1];
      RunSplit(actions, rest);
      StallIsForever(actions, before);
      StallStep(Run(actions + before).value, action);
    }
  }

  lemma RunSplit(actions: seq<Action>, rest: seq<Action>)
    requires rest != [] && Run(actions + rest).Some?
    ensures var before, action := rest[..|rest| - 1], rest[|rest| - 1];
      && Run(actions + before).Some?
      && Run(actions + rest) == Step(Run(actions + before).value, action)
  {
    hide Step;
    assert (actions + rest)[..|actions + rest| - 1] == actions + rest[..|rest| - 1];
  }

  lemma WedgeStep(w: World, action: Action)
    requires Shape(w) && Wedged(w.b) && Step(w, action).Some?
    ensures Step(w, action).value.b == w.b && Step(w, action).value.delivered == w.delivered
    ensures Step(w, action).value.ackLog == w.ackLog
  {
    hide SendTo, KtpSender.Tick, ProcessAck, Accept, Store, Take, MinSlot;
    LeastAbove(w.b);
  }

  lemma LeastAbove(b: RecvSide)
    requires RecvShape(b) && Wedged(b)
    ensures MinSlot(b, SLOTS) >= 0 && b.buffer[MinSlot(b, SLOTS)].seqNum as int > b.start
  {
  }

  /** A wedged receiver never delivers, stores or acknowledges anything again, in any continuation. */
  lemma {:induction false} WedgeIsForever(actions: seq<Action>, rest: seq<Action>)
    requires Run(actions).Some? && Wedged(Run(actions).value.b)
    requires Run(actions + rest).Some?
    ensures Run(actions + rest).value.b == Run(actions).value.b
    ensures Run(actions + rest).value.delivered == Run(actions).value.delivered
    ensures Run(actions + rest).value.ackLog == Run(actions).value.ackLog
    decreases |rest|
  {
    hide Wedged;
    if rest == [] {
      assert actions + rest == actions;
    } else {
      RunSplit(actions, rest);
      WedgeIsForever(actions, rest[..|rest| - 1]);
      WedgeStep(Run(actions + rest[..|rest| - 1]).value, rest[|rest| - 1]);
    }
  }

  /** A wedged receiver holds nothing but numbers that were stored early: without early stores it is never wedged. */
  lemma WedgeNeedsEarly(actions: seq<Action>)
    requires Run(actions).Some? && |Run(actions).value.queued| < LAST_SEQ
    ensures var w := Run(actions).value;
      Wedged(w.b) ==>
        && (forall j :: 0 <= j < SLOTS ==> w.b.buffer[j].seqNum as int in w.early)
        && w.early != multiset{}
  {
    hide Run, SendInv, RecvInv, InOrder, Times, Copies;
    Reachable(actions);
    var w := Run(actions).value;
    forall j | Wedged(w.b) && 0 <= j < SLOTS ensures w.b.buffer[j].seqNum as int in w.early {
      var v := w.b.buffer[j].seqNum as int;
      assert Stored(w.b, v);
      CopiesAt(w.b, v);
      assert Conserved(w, v);
    }
    assert Wedged(w.b) ==> w.b.buffer[0].seqNum as int in w.early;
  }

  // ---------------------------------------------------------------- reopening the window

  /** A continuation that reads none of the acknowledgements sent so far. */
  predicate OnlyFreshAcks(rest: seq<Action>, sent: nat) {
    forall i :: 0 <= i < |rest| && rest[i].GetAck? ==> rest[i].i >= sent
  }

  ghost predicate Reopens(actions: seq<Action>, rest: seq<Action>)
    requires Run(actions).Some?
  {
    && OnlyFreshAcks(rest, |Run(actions).value.ackLog|)
    && Run(actions + rest).Some? && Run(actions + rest).value.a.size > 0
  }

  ghost predicate CanReopen(actions: seq<Action>)
    requires Run(actions).Some?
  {
    exists rest :: Reopens(actions, rest)
  }

  // With the window closed and nothing fresh to read, the sender's window stays closed.
  lemma ClosedStep(w: World, action: Action)
    requires Shape(w) && w.a.size == 0 && !action.GetAck? && Step(w, action).Some?
    ensures Step(w, action).value.a.size == 0
  {
  }

  lemma {:induction false} WedgeStaysClosed(actions: seq<Action>, rest: seq<Action>)
    requires Run(actions).Some? && Wedged(Run(actions).value.b) && Run(actions).value.a.size == 0
    requires OnlyFreshAcks(rest, |Run(actions).value.ackLog|) && Run(actions + rest).Some?
    ensures Run(actions + rest).value.a.size == 0
    decreases |rest|
  {
    hide Wedged;
    if rest == [] {
      assert actions + rest == actions;
    } else {
      var before, action := rest[..|rest| - 1], rest[|rest| - 1];
      RunSplit(actions, rest);
      WedgeStaysClosed(actions, before);
      WedgeIsForever(actions, before);
      ClosedStep(Run(actions + before).value, action);
    }
  }

  lemma LastReopens(w: World)
    requires Inv(w) && w.ackLog != [] && w.ackLog[|w.ackLog| - 1].window > 0
    ensures Step(w, GetAck(|w.ackLog| - 1)).Some? && Step(w, GetAck(|w.ackLog| - 1)).value.a.size > 0
  {
    hide Step, Inv;
    GetAckKeepsInv(w, |w.ackLog| - 1);
  }

  // One more step of a continuation.
  lemma Then(actions: seq<Action>, rest: seq<Action>, action: Action)
    requires Run(actions).Some? && Run(actions + rest).Some? && OnlyFreshAcks(rest, |Run(actions).value.ackLog|)
    requires action.GetAck? ==> action.i >= |Run(actions).value.ackLog|
    ensures Run(actions + (rest + [action])) == Step(Run(actions + rest).value, action)
    ensures OnlyFreshAcks(rest + [action], |Run(actions).value.ackLog|)
  {
    hide Run, Step;
    assert actions + (rest + [action]) == (actions + rest) + [action];
    Extend(actions + rest, action);
  }

  // The receiver's last acknowledgement is fresh and reopens the window.
  lemma ReadLast(actions: seq<Action>, rest: seq<Action>) returns (rest': seq<Action>)
    requires Run(actions).Some? && Run(actions + rest).Some? && OnlyFreshAcks(rest, |Run(actions).value.ackLog|)
    requires Inv(Run(actions + rest).value)
    requires |Run(actions + rest).value.ackLog| > |Run(actions).value.ackLog|
    requires var acks := Run(actions + rest).value.ackLog; acks[|acks| - 1].window > 0
    ensures Reopens(actions, rest')
  {
    hide Inv, Run, Step, OnlyFreshAcks;
    var i: nat := |Run(actions + rest).value.ackLog| - 1;
    LastReopens(Run(actions + rest).value);
    Then(actions, rest, GetAck(i));
    rest' := rest + [GetAck(i)];
  }

  // With the flag set and a free slot, the announcement reopens the window.
  lemma AnnounceReopens(actions: seq<Action>, rest: seq<Action>) returns (rest': seq<Action>)
    requires Run(actions).Some? && Run(actions + rest).Some? && OnlyFreshAcks(rest, |Run(actions).value.ackLog|)
    requires var w, w' := Run(actions).value, Run(actions + rest).value;
      Inv(w') && |w'.ackLog| >= |w.ackLog| && w'.b.noSpace && w'.b.size > 0
    ensures Reopens(actions, rest')
  {
    hide Inv, Run, Step, OnlyFreshAcks;
    var w' := Run(actions + rest).value;
    AnnounceKeepsInv(w');
    Then(actions, rest, Announce);
    AnnounceStep(w');
    rest' := ReadLast(actions, rest + [Announce]);
  }

  lemma AnnounceStep(w: World)
    requires Shape(w) && w.b.noSpace && w.b.size > 0
    ensures var w' := Step(w, Announce).value;
      |w'.ackLog| == |w.ackLog| + 1 && w'.ackLog[|w.ackLog|].window > 0
  {
  }

  // With the flag set and something deliverable, or a free slot, one delivery and the announcement reopen the window.
  lemma FlagReopens(actions: seq<Action>, rest: seq<Action>) returns (rest': seq<Action>)
    requires Run(actions).Some? && Run(actions + rest).Some? && OnlyFreshAcks(rest, |Run(actions).value.ackLog|)
    requires var w, w' := Run(actions).value, Run(actions + rest).value;
      Inv(w') && |w'.ackLog| >= |w.ackLog| && w'.b.noSpace && !Wedged(w'.b)
    ensures Reopens(actions, rest')
  {
    var w' := Run(actions + rest).value;
    hide Inv, Run, Wedged, Step, OnlyFreshAcks;
    if w'.b.size > 0 {
      rest' := AnnounceReopens(actions, rest);
    } else {
      ReceiveKeepsInv(w');
      Then(actions, rest, Receive);
      ReceiveFrees(w');
      rest' := AnnounceReopens(actions, rest + [Receive]);
    }
  }

  lemma ReceiveFrees(w: World)
    requires Inv(w) && w.b.size <= 0 && w.b.noSpace && !Wedged(w.b)
    ensures var w' := Step(w, Receive).value; w'.b.size > 0 && w'.b.noSpace && w'.ackLog == w.ackLog
  {
    hide RecvInv, SendInv, NetInv, Deliver, Copies, Conserved;
    DeliverKeeps(w.b, w.queued, Last(w.delivered));
    NoFreeSlot(w.b, w.queued, Last(w.delivered));
  }

  lemma NoFreeSlot(r: RecvSide, queued: seq<Message>, d: int)
    requires RecvInv(r, queued, d)
    ensures 0 <= r.size <= SLOTS
    ensures r.size == 0 ==> forall j :: 0 <= j < SLOTS ==> !r.free[j]
  {
    CountExtremes(r.free);
  }

  // Some frame at or above the expected number is on the wire, so the expected one is; accepting it reopens the window.
  lemma ExpectedOnWire(w: World)
    requires Inv(w) && exists f :: f in w.wire && f.seqNum as int >= w.b.start
    ensures OnWire(w, w.b.start)
  {
    hide SendInv, RecvInv, NetInv, Conserved;
    var sent :| SenderInv(w, sent);
  }

  lemma AcceptReopens(actions: seq<Action>, f: Frame) returns (rest: seq<Action>)
    requires Run(actions).Some? && Inv(Run(actions).value) && f in Run(actions).value.wire
    requires var b := Run(actions).value.b; f.seqNum as int == b.start && b.size > 0
    ensures Reopens(actions, rest)
  {
    hide Inv, Run, Wedged, Step;
    var w := Run(actions).value;
    assert actions + [] == actions;
    GetDataKeepsInv(w, f);
    Then(actions, [], GetData(f));
    AcceptStep(w, f);
    var w' := Step(w, GetData(f)).value;
    if w'.b.size > 0 {
      rest := ReadLast(actions, [] + [GetData(f)]);
    } else {
      rest := FlagReopens(actions, [] + [GetData(f)]);
    }
  }

  lemma AcceptStep(w: World, f: Frame)
    requires Inv(w) && f in w.wire && f.seqNum as int == w.b.start && w.b.size > 0
    ensures var w' := Step(w, GetData(f)).value;
      && |w'.ackLog| > |w.ackLog| && w'.ackLog[|w'.ackLog| - 1].window == w'.b.size
      && (w'.b.size <= 0 ==> w'.b.noSpace && !Wedged(w'.b))
  {
    hide RecvInv, SendInv, InOrder, Copies, Conserved, Accept, Held;
    assert Genuine(f, w.queued);
    hide Genuine;
    ReceiveDataKeeps(w.b, w.queued, Last(w.delivered), f);
    AcceptKeeps(w.b, w.queued, Last(w.delivered), f);
    NoFreeSlot(Accept(w.b, f), w.queued, Last(w.delivered));
    AcceptStored(w.b, w.queued, Last(w.delivered), f);
  }

  lemma AcceptStored(r: RecvSide, queued: seq<Message>, d: int, f: Frame)
    requires RecvInv(r, queued, d) && Genuine(f, queued) && f.seqNum as int == r.start && r.size > 0
    ensures Stored(Accept(r, f), r.start) && Accept(r, f).start == r.start + 1
  {
    CountExtremes(r.free);
    AcceptKeeps(r, queued, d, f);
    var j := FirstSet(r.free, 0);
    assert !Accept(r, f).free[j] && Accept(r, f).buffer[j].seqNum as int == r.start;
  }

  /** In any reachable state with a closed window, some continuation that reads only acknowledgements still to be sent
      reopens it exactly when the transfer is neither stalled nor its receiver wedged. */
  lemma ReopensUnlessStuck(actions: seq<Action>)
    requires Run(actions).Some? && |Run(actions).value.queued| < LAST_SEQ && Run(actions).value.a.size == 0
    ensures var w := Run(actions).value;
      CanReopen(actions) <==> !Stalled(w) && !Wedged(w.b)
  {
    Reachable(actions);
    var w := Run(actions).value;
    hide Inv, Run;
    if Stalled(w) || Wedged(w.b) {
      forall rest ensures !Reopens(actions, rest) {
        StaysShut(actions, rest);
      }
    } else {
      var rest := Reopening(actions);
      assert Reopens(actions, rest);
    }
  }

  lemma StaysShut(actions: seq<Action>, rest: seq<Action>)
    requires Run(actions).Some? && Run(actions).value.a.size == 0
    requires Stalled(Run(actions).value) || Wedged(Run(actions).value.b)
    ensures !Reopens(actions, rest)
  {
    hide Run, Wedged;
    if OnlyFreshAcks(rest, |Run(actions).value.ackLog|) && Run(actions + rest).Some? {
      if Stalled(Run(actions).value) {
        StallIsForever(actions, rest);
      } else {
        WedgeStaysClosed(actions, rest);
      }
    }
  }

  lemma Reopening(actions: seq<Action>) returns (rest: seq<Action>)
    requires Run(actions).Some? && Inv(Run(actions).value) && Run(actions).value.a.size == 0
    requires !Stalled(Run(actions).value) && !Wedged(Run(actions).value.b)
    ensures Reopens(actions, rest)
  {
    hide Inv, Run, Wedged;
    var w := Run(actions).value;
    assert actions + [] == actions;
    if w.b.noSpace {
      rest := FlagReopens(actions, []);
    } else {
      ExpectedOnWire(w);
      var f :| f in w.wire && f.seqNum == w.b.start;
      SpaceUnlessFlagged(w);
      rest := AcceptReopens(actions, f);
    }
  }

  lemma SpaceUnlessFlagged(w: World)
    requires Inv(w)
    ensures w.b.noSpace || w.b.size > 0
  {
    NoFreeSlot(w.b, w.queued, Last(w.delivered));
  }

  /** Without early stores a closed window can reopen exactly when the transfer is not stalled. */
  lemma ReopensUnlessStalled(actions: seq<Action>)
    requires Run(actions).Some? && |Run(actions).value.queued| < LAST_SEQ && Run(actions).value.a.size == 0
    requires Run(actions).value.early == multiset{}
    ensures CanReopen(actions) <==> !Stalled(Run(actions).value)
  {
    hide Run, CanReopen, Stalled;
    ReopensUnlessStuck(actions);
    WedgeNeedsEarly(actions);
  }
}
