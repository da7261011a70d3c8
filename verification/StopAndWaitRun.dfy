/** Stop-and-wait over two channels that keep order but may lose and repeat packets, for any number of messages. */
module StopAndWaitRun {
  import opened Common
  import opened StopAndWait
  import opened Stutter

  /** origin is history: the index of the message the packet belongs to; the message is delivered as number origin + 1.
      No step looks at it. */
  datatype Tagged = Tagged(raw: seq<byte>, origin: nat)

  /** completed counts the calls to k_sendto that returned; waiting says that the current call has transmitted and
      sits in select. The sender works through one call after another. */
  datatype World = World(
    completed: nat, nextSeq: byte, waiting: bool,
    data: seq<Tagged>, acks: seq<Tagged>,
    delivered: seq<Delivery<Message>>)

  datatype Action =
    | Transmit          // the top of the sender's loop
    | Expire            // select times out, at whatever moment
    | TakeAck           // the sender reads the oldest acknowledgement
    | Arrive(drop: bool)  // the receiver reads the oldest frame; drop is its simulated loss
    | LoseData(i: nat) | RepeatData(i: nat) | LoseAck(i: nat) | RepeatAck(i: nat)

  function Init(): World {
    World(0, 0, false, [], [], [])
  }

  function Remove(s: seq<Tagged>, i: nat): seq<Tagged>
    requires i < |s|
  {
    s[..i] + s[i + 1..]
  }

  function Repeat(s: seq<Tagged>, i: nat): seq<Tagged>
    requires i < |s|
  {
    s[..i] + [s[i]] + s[i..]
  }

  predicate AllData(messages: seq<Message>) {
    forall i :: 0 <= i < |messages| ==> IsData(messages[i])
  }

  function Step(messages: seq<Message>, w: World, action: Action): Option<World>
    requires AllData(messages)
  {
    match action
    case Transmit =>
      if w.waiting || w.completed >= |messages| then None
      else Some(w.(waiting := true,
                   data := w.data + [Tagged(DataFrame(w.nextSeq, messages[w.completed]), w.completed)]))
    case Expire => if w.waiting then Some(w.(waiting := false)) else None
    case TakeAck =>
      if !w.waiting || w.acks == [] then None
      else if Acknowledges(w.acks[0].raw, w.nextSeq) then
        Some(w.(waiting := false, acks := w.acks[1..], completed := w.completed + 1, nextSeq := (w.nextSeq + 1) % 256))
      else Some(w.(waiting := false, acks := w.acks[1..]))
    case Arrive(drop) =>
      if w.data == [] then None
      else (
        match KRecv(w.data[0].raw, drop)
        case Ignored => Some(w.(data := w.data[1..]))
        case Data(payload, ack) =>
          Some(w.(data := w.data[1..], acks := w.acks + [Tagged(ack, w.data[0].origin)],
                  delivered := w.delivered + [Delivery(w.data[0].origin + 1, payload)]))
        case _ => None)
    case LoseData(i) => if i < |w.data| then Some(w.(data := Remove(w.data, i))) else None
    case RepeatData(i) => if i < |w.data| then Some(w.(data := Repeat(w.data, i))) else None
    case LoseAck(i) => if i < |w.acks| then Some(w.(acks := Remove(w.acks, i))) else None
    case RepeatAck(i) => if i < |w.acks| then Some(w.(acks := Repeat(w.acks, i))) else None
  }

  function Run(messages: seq<Message>, actions: seq<Action>): Option<World>
    requires AllData(messages)
  {
    if actions == [] then Some(Init())
    else match Run(messages, actions[..|actions| - 1])
      case None => None
      case Some(w) => Step(messages, w, actions[|actions| - 1])
  }

  // ---------------------------------------------------------------- invariant

  predicate Sorted(s: seq<Tagged>) {
    forall i, j :: 0 <= i < j < |s| ==> s[i].origin <= s[j].origin
  }

  predicate Between(s: seq<Tagged>, lo: int, hi: int) {
    forall i :: 0 <= i < |s| ==> lo <= s[i].origin <= hi
  }

  predicate DataOk(messages: seq<Message>, p: Tagged)
    requires AllData(messages)
  {
    p.origin < |messages| && p.raw == DataFrame(p.origin % 256, messages[p.origin])
  }

  /** What is in flight belongs to the current message or the one before, in order, with the acknowledgements ahead. */
  ghost predicate Inv(messages: seq<Message>, w: World)
    requires AllData(messages)
  {
    var reached := Last(w.delivered);
    && w.completed <= |messages| && (w.waiting ==> w.completed < |messages|)
    && w.nextSeq == w.completed % 256
    && w.completed <= reached <= w.completed + 1
    && Sorted(w.data) && Between(w.data, reached - 1, w.completed)
    && Sorted(w.acks) && Between(w.acks, w.completed - 1, reached - 1)
    && (forall i :: 0 <= i < |w.data| ==> DataOk(messages, w.data[i]))
    && (forall i :: 0 <= i < |w.acks| ==> w.acks[i].raw == AckFrame(w.acks[i].origin % 256))
    && InOrder(w.delivered, messages)
  }

  lemma ChannelEdits(s: seq<Tagged>, i: nat)
    requires i < |s|
    ensures forall p :: p in Remove(s, i) ==> p in s
    ensures forall p :: p in Repeat(s, i) ==> p in s
    ensures Sorted(s) ==> Sorted(Remove(s, i)) && Sorted(Repeat(s, i))
  {
    assert forall k :: 0 <= k < |s| - 1 ==> Remove(s, i)[k] == s[if k < i then k else k + 1];
    assert forall k :: 0 <= k < |s| + 1 ==> Repeat(s, i)[k] == s[if k <= i then k else k - 1];
  }

  lemma DataEditKeepsInv(messages: seq<Message>, w: World, action: Action)
    requires AllData(messages) && Inv(messages, w) && Step(messages, w, action).Some?
    requires action.LoseData? || action.RepeatData?
    ensures Inv(messages, Step(messages, w, action).value)
  {
    ChannelEdits(w.data, action.i);
    var w' := Step(messages, w, action).value;
    assert forall k :: 0 <= k < |w'.data| ==> w'.data[k] in w.data;
    hide Sorted, Remove, Repeat, InOrder;
  }

  lemma AckEditKeepsInv(messages: seq<Message>, w: World, action: Action)
    requires AllData(messages) && Inv(messages, w) && Step(messages, w, action).Some?
    requires action.LoseAck? || action.RepeatAck?
    ensures Inv(messages, Step(messages, w, action).value)
  {
    ChannelEdits(w.acks, action.i);
    var w' := Step(messages, w, action).value;
    assert forall k :: 0 <= k < |w'.acks| ==> w'.acks[k] in w.acks;
    hide Sorted, Remove, Repeat, InOrder;
  }

  /** The acknowledgement of one message matches another message exactly when they lie a multiple of 256 apart. */
  lemma MatchExactly(o: nat, n: nat)
    ensures Acknowledges(AckFrame(o % 256), n % 256) <==> (n - o) % 256 == 0
  {
  }

  /** An acknowledgement completes the current call exactly when it belongs to the current message: although numbers
      repeat every 256 messages, there is never a false match. */
  lemma MatchIsGenuine(messages: seq<Message>, w: World, i: nat)
    requires AllData(messages) && Inv(messages, w) && i < |w.acks|
    ensures Acknowledges(w.acks[i].raw, w.nextSeq) <==> w.acks[i].origin == w.completed
  {
    assert w.acks[i].raw == AckFrame(w.acks[i].origin % 256);
    MatchExactly(w.acks[i].origin, w.completed);
  }

  lemma TakeAckKeepsInv(messages: seq<Message>, w: World)
    requires AllData(messages) && Inv(messages, w) && Step(messages, w, TakeAck).Some?
    ensures Inv(messages, Step(messages, w, TakeAck).value)
  {
    MatchIsGenuine(messages, w, 0);
    TailOk(w.acks, w.completed - 1, Last(w.delivered) - 1);
    hide Sorted, InOrder, Acknowledges, AckFrame, DataFrame;
  }

  lemma TailOk(s: seq<Tagged>, lo: int, hi: int)
    requires s != [] && Sorted(s) && Between(s, lo, hi)
    ensures Sorted(s[1..]) && Between(s[1..], s[0].origin, hi)
  {
  }

  lemma SnocOk(s: seq<Tagged>, lo: int, hi: int, p: Tagged)
    requires Sorted(s) && Between(s, lo, hi) && hi <= p.origin && lo <= p.origin
    ensures Sorted(s + [p]) && Between(s + [p], lo, p.origin)
  {
  }

  lemma ArriveKeepsInv(messages: seq<Message>, w: World, drop: bool)
    requires AllData(messages) && Inv(messages, w) && w.data != []
    ensures Step(messages, w, Arrive(drop)).Some? && Inv(messages, Step(messages, w, Arrive(drop)).value)
  {
    var p := w.data[0];
    assert DataOk(messages, p);
    FrameRoundTrip(p.origin % 256, 0, messages[p.origin]);
    InOrderGrows(w.delivered, messages, Delivery(p.origin + 1, messages[p.origin]));
    TailOk(w.data, Last(w.delivered) - 1, w.completed);
    SnocOk(w.acks, w.completed - 1, Last(w.delivered) - 1, Tagged(AckFrame(p.origin % 256), p.origin));
    hide KRecv, DataFrame, AckFrame, InOrder, Sorted;
  }

  lemma StepKeepsInv(messages: seq<Message>, w: World, action: Action)
    requires AllData(messages) && Inv(messages, w) && Step(messages, w, action).Some?
    ensures Inv(messages, Step(messages, w, action).value)
  {
    match action
    case TakeAck => TakeAckKeepsInv(messages, w);
    case Arrive(drop) => ArriveKeepsInv(messages, w, drop);
    case Transmit =>
    case Expire =>
    case LoseData(_) => DataEditKeepsInv(messages, w, action);
    case RepeatData(_) => DataEditKeepsInv(messages, w, action);
    case LoseAck(_) => AckEditKeepsInv(messages, w, action);
    case RepeatAck(_) => AckEditKeepsInv(messages, w, action);
  }

  lemma {:induction false} Reachable(messages: seq<Message>, actions: seq<Action>)
    requires AllData(messages) && Run(messages, actions).Some?
    ensures Inv(messages, Run(messages, actions).value)
    decreases |actions|
  {
    if actions != [] {
      Reachable(messages, actions[..|actions| - 1]);
      StepKeepsInv(messages, Run(messages, actions[..|actions| - 1]).value, actions[|actions| - 1]);
    }
  }

  // ---------------------------------------------------------------- guarantees

  /** For any number of messages and any premature timeouts: with repeats removed the receiver has delivered a prefix
      of the messages, and that prefix holds every message whose k_sendto has returned and at most one more. */
  lemma DeliveredBeforeReturn(messages: seq<Message>, actions: seq<Action>)
    requires AllData(messages) && Run(messages, actions).Some?
    ensures var w := Run(messages, actions).value;
      && w.completed <= |Collapse(w.delivered)| <= w.completed + 1
      && Collapse(w.delivered) <= messages
  {
    hide Run, InOrder, Collapse;
    Reachable(messages, actions);
    CollapseIsPrefix(Run(messages, actions).value.delivered, messages);
  }

  lemma Extend(messages: seq<Message>, actions: seq<Action>, action: Action)
    requires AllData(messages) && Run(messages, actions).Some?
    ensures Run(messages, actions + [action]) == Step(messages, Run(messages, actions).value, action)
  {
    assert (actions + [action])[..|actions|] == actions;
  }

  function CountOf(actions: seq<Action>, kinds: set<Action>): nat {
    if actions == [] then 0
    else CountOf(actions[..|actions| - 1], kinds) + if actions[|actions| - 1] in kinds then 1 else 0
  }

  /** k_sendto transmits once per event: after each timeout and each acknowledgement that ends no call, the frame goes
      out again before another one is read, so that transmissions and events alternate. */
  lemma {:induction false} OneEventEach(messages: seq<Message>, actions: seq<Action>)
    requires AllData(messages) && Run(messages, actions).Some?
    ensures CountOf(actions, {Transmit})
      == CountOf(actions, {Expire, TakeAck}) + if Run(messages, actions).value.waiting then 1 else 0
    decreases |actions|
  {
    if actions != [] {
      OneEventEach(messages, actions[..|actions| - 1]);
      hide Acknowledges, DataFrame, KRecv;
    }
  }

  // ---------------------------------------------------------------- exactly once

  /** Nothing times out, and the channels repeat nothing. */
  predicate Patient(actions: seq<Action>) {
    forall i :: 0 <= i < |actions| ==> !actions[i].Expire? && !actions[i].RepeatData? && !actions[i].RepeatAck?
  }

  /** One packet at most is in flight, and only during a call; each message is delivered once. */
  ghost predicate OneInFlight(messages: seq<Message>, w: World) {
    && |w.data| + |w.acks| <= (if w.waiting then 1 else 0)
    && |w.delivered| == Last(w.delivered) <= |messages|
    && (forall i :: 0 <= i < |w.delivered| ==> w.delivered[i] == Delivery(i + 1, messages[i]))
    && (!w.waiting ==> Last(w.delivered) == w.completed)
    && (w.data != [] ==> Last(w.delivered) == w.completed == w.data[0].origin)
    && (w.acks != [] ==> Last(w.delivered) - 1 == w.completed == w.acks[0].origin)
  }

  lemma PatientStep(messages: seq<Message>, w: World, action: Action)
    requires AllData(messages) && Inv(messages, w) && OneInFlight(messages, w) && Step(messages, w, action).Some?
    requires !action.Expire? && !action.RepeatData? && !action.RepeatAck?
    ensures OneInFlight(messages, Step(messages, w, action).value)
  {
    hide InOrder, Sorted, Acknowledges, KRecv, DataFrame, AckFrame;
    match action
    case TakeAck => PatientAck(messages, w);
    case Arrive(drop) => PatientArrival(messages, w, drop);
    case _ =>
  }

  lemma PatientAck(messages: seq<Message>, w: World)
    requires AllData(messages) && Inv(messages, w) && OneInFlight(messages, w) && Step(messages, w, TakeAck).Some?
    ensures OneInFlight(messages, Step(messages, w, TakeAck).value)
  {
    hide Inv, Acknowledges;
    MatchIsGenuine(messages, w, 0);
  }

  lemma PatientArrival(messages: seq<Message>, w: World, drop: bool)
    requires AllData(messages) && Inv(messages, w) && OneInFlight(messages, w) && w.data != []
    ensures Step(messages, w, Arrive(drop)).Some? && OneInFlight(messages, Step(messages, w, Arrive(drop)).value)
  {
    hide Inv, Step, AckFrame;
    ArriveGives(messages, w, drop);
  }

  lemma ArriveGives(messages: seq<Message>, w: World, drop: bool)
    requires AllData(messages) && Inv(messages, w) && w.data != []
    ensures w.data[0].origin < |messages| && Step(messages, w, Arrive(drop)).Some?
    ensures var p, w' := w.data[0], Step(messages, w, Arrive(drop)).value;
      w' == if drop then w.(data := w.data[1..])
            else w.(data := w.data[1..], acks := w.acks + [Tagged(AckFrame(p.origin % 256), p.origin)],
                    delivered := w.delivered + [Delivery(p.origin + 1, messages[p.origin])])
  {
    hide KRecv, DataFrame, AckFrame, InOrder, Sorted;
    assert DataOk(messages, w.data[0]);
    FrameRoundTrip(w.data[0].origin % 256, 0, messages[w.data[0].origin]);
  }

  /** While no call has timed out and no channel has repeated a packet, the messages are delivered exactly once each, in
      order. */
  lemma {:induction false} PatientDeliversOnce(messages: seq<Message>, actions: seq<Action>)
    requires AllData(messages) && Run(messages, actions).Some? && Patient(actions)
    ensures OneInFlight(messages, Run(messages, actions).value)
    decreases |actions|
  {
    hide Step, Inv, OneInFlight;
    if actions == [] {
      InitiallyQuiet(messages);
    } else {
      var before := actions[..|actions| - 1];
      Reachable(messages, before);
      PatientDeliversOnce(messages, before);
      PatientStep(messages, Run(messages, before).value, actions[|actions| - 1]);
    }
  }

  lemma InitiallyQuiet(messages: seq<Message>)
    ensures OneInFlight(messages, Init())
  {
  }

  /** The continuation delivers some message directly after delivering that same message. */
  ghost predicate DeliversRepeat(messages: seq<Message>, actions: seq<Action>, rest: seq<Action>)
    requires AllData(messages) && Run(messages, actions).Some?
  {
    && Run(messages, actions + rest).Some?
    && var d, d' := Run(messages, actions).value.delivered, Run(messages, actions + rest).value.delivered;
    exists i :: |d| <= i < |d'| && i > 0 && d'[i] == d'[i - 1]
  }

  // A continuation in which the channels lose and repeat nothing and nothing is dropped.
  predicate FaultFree(rest: seq<Action>) {
    forall i :: 0 <= i < |rest| ==> rest[i] in {Transmit, Expire, TakeAck, Arrive(false)}
  }

  /** In every reachable state some continuation delivers a message twice in a row exactly when a call to k_sendto is
      still to come or going on, or a frame is still in flight. Timeouts alone suffice: no fault of the channels is
      needed. */
  lemma RepeatsUnlessFinished(messages: seq<Message>, actions: seq<Action>)
    requires AllData(messages) && Run(messages, actions).Some?
    ensures var w := Run(messages, actions).value; var open := w.completed < |messages| || w.data != [];
      && ((exists rest :: DeliversRepeat(messages, actions, rest)) <==> open)
      && ((exists rest :: FaultFree(rest) && DeliversRepeat(messages, actions, rest)) <==> open)
  {
    var w := Run(messages, actions).value;
    Reachable(messages, actions);
    hide Run, Inv, DeliversRepeat, FaultFree;
    if w.completed < |messages| || w.data != [] {
      var rest := RepeatSoon(messages, actions);
      assert DeliversRepeat(messages, actions, rest);
    } else {
      forall rest ensures !DeliversRepeat(messages, actions, rest) {
        NothingMore(messages, actions, rest);
      }
    }
  }

  // With every call returned and no frame in flight nothing is delivered any more.
  lemma {:induction false} Finished(messages: seq<Message>, actions: seq<Action>, rest: seq<Action>)
    requires AllData(messages) && Run(messages, actions).Some? && Inv(messages, Run(messages, actions).value)
    requires Run(messages, actions).value.completed >= |messages| && Run(messages, actions).value.data == []
    requires Run(messages, actions + rest).Some?
    ensures var w, w' := Run(messages, actions).value, Run(messages, actions + rest).value;
      !w'.waiting && w'.completed == w.completed && w'.data == [] && w'.delivered == w.delivered
    decreases |rest|
  {
    if rest == [] {
      assert actions + rest == actions;
    } else {
      var before, action := rest[..|rest| - 1], rest[|rest| - 1];
      assert actions + rest == (actions + before) + [action];
      assert (actions + rest)[..|actions + rest| - 1] == actions + before;
      hide Inv, Step;
      Finished(messages, actions, before);
      FinishedStep(messages, Run(messages, actions + before).value, action);
    }
  }

  lemma FinishedStep(messages: seq<Message>, w: World, action: Action)
    requires AllData(messages) && !w.waiting && w.completed >= |messages| && w.data == []
    requires Step(messages, w, action).Some?
    ensures var w' := Step(messages, w, action).value;
      !w'.waiting && w'.completed == w.completed && w'.data == [] && w'.delivered == w.delivered
  {
  }

  lemma NothingMore(messages: seq<Message>, actions: seq<Action>, rest: seq<Action>)
    requires AllData(messages) && Run(messages, actions).Some? && Inv(messages, Run(messages, actions).value)
    requires Run(messages, actions).value.completed >= |messages| && Run(messages, actions).value.data == []
    ensures !DeliversRepeat(messages, actions, rest)
  {
    hide Run, Inv;
    if Run(messages, actions + rest).Some? {
      Finished(messages, actions, rest);
    }
  }

  lemma Then(messages: seq<Message>, actions: seq<Action>, rest: seq<Action>, action: Action)
    requires AllData(messages) && Run(messages, actions + rest).Some?
    requires FaultFree(rest) && action in {Transmit, Expire, TakeAck, Arrive(false)}
    ensures Run(messages, actions + (rest + [action])) == Step(messages, Run(messages, actions + rest).value, action)
    ensures FaultFree(rest + [action])
  {
    hide Run, Step;
    assert actions + (rest + [action]) == (actions + rest) + [action];
    Extend(messages, actions + rest, action);
  }

  // Two transmissions of the current message: its frame is in flight twice.
  lemma TransmitTwice(messages: seq<Message>, actions: seq<Action>) returns (rest: seq<Action>)
    requires AllData(messages) && Run(messages, actions).Some?
    requires Run(messages, actions).value.completed < |messages|
    ensures FaultFree(rest) && Run(messages, actions + rest).Some?
    ensures var w, w' := Run(messages, actions).value, Run(messages, actions + rest).value;
      && w'.delivered == w.delivered && w'.completed == w.completed
      && |w'.data| >= 2
  {
    hide Run, DataFrame;
    rest := [];
    assert actions + rest == actions;
    if Run(messages, actions).value.waiting {
      Then(messages, actions, rest, Expire);
      rest := rest + [Expire];
    }
    Then(messages, actions, rest, Transmit);
    rest := rest + [Transmit];
    Then(messages, actions, rest, Expire);
    rest := rest + [Expire];
    Then(messages, actions, rest, Transmit);
    rest := rest + [Transmit];
  }

  // The oldest frame in flight carries the message delivered last.
  predicate RepeatsNext(w: World) {
    w.data != [] && w.data[0].origin + 1 == Last(w.delivered)
  }

  // If it does not, it carries the next message, and so does the frame behind it.
  lemma OldestOrNext(messages: seq<Message>, w: World)
    requires AllData(messages) && Inv(messages, w) && w.data != [] && !RepeatsNext(w)
    requires |w.data| >= 2 || w.completed >= |messages|
    ensures Step(messages, w, Arrive(false)).Some? && RepeatsNext(Step(messages, w, Arrive(false)).value)
  {
    hide InOrder, KRecv, DataFrame, AckFrame;
    ArriveGives(messages, w, false);
  }

  lemma NowRepeats(messages: seq<Message>, actions: seq<Action>, rest: seq<Action>)
    requires AllData(messages) && Run(messages, actions).Some? && Run(messages, actions + rest).Some?
    requires Inv(messages, Run(messages, actions + rest).value) && RepeatsNext(Run(messages, actions + rest).value)
    requires |Run(messages, actions).value.delivered| <= |Run(messages, actions + rest).value.delivered|
    requires Run(messages, actions + (rest + [Arrive(false)]))
      == Step(messages, Run(messages, actions + rest).value, Arrive(false))
    ensures DeliversRepeat(messages, actions, rest + [Arrive(false)])
  {
    hide Run, Step, InOrder, Sorted;
    var w := Run(messages, actions + rest).value;
    ArriveGives(messages, w, false);
    LastFollows(w.delivered, messages);
    var d' := Run(messages, actions + (rest + [Arrive(false)])).value.delivered;
    assert d'[|w.delivered|] == d'[|w.delivered| - 1];
  }

  // At most two more frames are read until a repeat.
  lemma ReadUntilRepeat(messages: seq<Message>, actions: seq<Action>, rest: seq<Action>) returns (rest': seq<Action>)
    requires AllData(messages) && Run(messages, actions).Some? && Run(messages, actions + rest).Some? && FaultFree(rest)
    requires Inv(messages, Run(messages, actions + rest).value)
    requires var d, w' := Run(messages, actions).value.delivered, Run(messages, actions + rest).value;
      |d| <= |w'.delivered| && w'.data != [] && (|w'.data| >= 2 || w'.completed >= |messages|)
    ensures FaultFree(rest') && DeliversRepeat(messages, actions, rest')
  {
    hide Run, Inv, FaultFree, DeliversRepeat, Step, RepeatsNext;
    var w := Run(messages, actions + rest).value;
    ArriveKeepsInv(messages, w, false);
    ArriveGives(messages, w, false);
    Then(messages, actions, rest, Arrive(false));
    if RepeatsNext(w) {
      NowRepeats(messages, actions, rest);
      rest' := rest + [Arrive(false)];
    } else {
      OldestOrNext(messages, w);
      ReadNow(messages, actions, rest + [Arrive(false)]);
      rest' := (rest + [Arrive(false)]) + [Arrive(false)];
    }
  }

  lemma ReadNow(messages: seq<Message>, actions: seq<Action>, rest: seq<Action>)
    requires AllData(messages) && Run(messages, actions).Some? && Run(messages, actions + rest).Some? && FaultFree(rest)
    requires Inv(messages, Run(messages, actions + rest).value) && RepeatsNext(Run(messages, actions + rest).value)
    requires |Run(messages, actions).value.delivered| <= |Run(messages, actions + rest).value.delivered|
    ensures FaultFree(rest + [Arrive(false)]) && DeliversRepeat(messages, actions, rest + [Arrive(false)])
  {
    hide Run, Inv, FaultFree, DeliversRepeat, Step;
    ArriveKeepsInv(messages, Run(messages, actions + rest).value, false);
    Then(messages, actions, rest, Arrive(false));
    NowRepeats(messages, actions, rest);
  }

  lemma RepeatSoon(messages: seq<Message>, actions: seq<Action>) returns (rest: seq<Action>)
    requires AllData(messages) && Run(messages, actions).Some?
    requires var w := Run(messages, actions).value; w.completed < |messages| || w.data != []
    ensures FaultFree(rest) && DeliversRepeat(messages, actions, rest)
  {
    hide Run, Inv, DeliversRepeat;
    rest := [];
    assert actions + rest == actions;
    if Run(messages, actions).value.completed < |messages| {
      rest := TransmitTwice(messages, actions);
    }
    Reachable(messages, actions + rest);
    rest := ReadUntilRepeat(messages, actions, rest);
  }

  // ---------------------------------------------------------------- finishing

  // A continuation without faults, and the world it leads to.
  predicate Possible(messages: seq<Message>, actions: seq<Action>, rest: seq<Action>)
    requires AllData(messages)
  {
    Run(messages, actions).Some? && Run(messages, actions + rest).Some? && FaultFree(rest)
  }

  function At(messages: seq<Message>, actions: seq<Action>, rest: seq<Action>): World
    requires AllData(messages) && Possible(messages, actions, rest)
  {
    Run(messages, actions + rest).value
  }

  lemma Onward(messages: seq<Message>, actions: seq<Action>, rest: seq<Action>, action: Action)
    requires AllData(messages) && Possible(messages, actions, rest)
    requires action in {Transmit, Expire, TakeAck, Arrive(false)}
    requires Step(messages, At(messages, actions, rest), action).Some?
    ensures Possible(messages, actions, rest + [action])
    ensures At(messages, actions, rest + [action]) == Step(messages, At(messages, actions, rest), action).value
  {
    hide Run, Step, FaultFree;
    Then(messages, actions, rest, action);
  }

  // Some packet of the current message is on its way.
  predicate OnItsWay(w: World) {
    exists p :: p in w.data + w.acks && p.origin == w.completed
  }

  predicate Acknowledged(w: World) {
    exists p :: p in w.acks && p.origin == w.completed
  }

  // The receiver reads all frames in flight.
  lemma {:induction false} ReadAll(messages: seq<Message>, actions: seq<Action>, rest: seq<Action>)
    returns (rest': seq<Action>)
    requires AllData(messages) && Possible(messages, actions, rest) && OnItsWay(At(messages, actions, rest))
    ensures Possible(messages, actions, rest')
    ensures var w, w' := At(messages, actions, rest), At(messages, actions, rest');
      w'.completed == w.completed && Acknowledged(w')
    decreases |At(messages, actions, rest).data|
  {
    hide Run, FaultFree, Step, Inv;
    rest' := rest;
    var w := At(messages, actions, rest);
    if w.data != [] {
      Reachable(messages, actions + rest);
      FrameRead(messages, w);
      Onward(messages, actions, rest, Arrive(false));
      rest' := ReadAll(messages, actions, rest + [Arrive(false)]);
    }
  }

  lemma FrameRead(messages: seq<Message>, w: World)
    requires AllData(messages) && Inv(messages, w) && w.data != [] && OnItsWay(w)
    ensures Step(messages, w, Arrive(false)).Some?
    ensures var w' := Step(messages, w, Arrive(false)).value;
      w'.completed == w.completed && |w'.data| < |w.data| && OnItsWay(w')
  {
    hide Inv, KRecv, DataFrame, AckFrame;
    ArriveGives(messages, w, false);
    var p :| p in w.data + w.acks && p.origin == w.completed;
    var w' := Step(messages, w, Arrive(false)).value;
    assert w.data == [w.data[0]] + w.data[1..];
    var p' := if p == w.data[0] then w'.acks[|w.acks|] else p;
    assert p' in w'.data + w'.acks;
  }

  // The sender reads acknowledgements, transmitting again after each stale one, until the right one comes.
  lemma {:induction false} ReadAcks(messages: seq<Message>, actions: seq<Action>, rest: seq<Action>)
    returns (rest': seq<Action>)
    requires AllData(messages) && Possible(messages, actions, rest)
    requires At(messages, actions, rest).completed < |messages| && Acknowledged(At(messages, actions, rest))
    ensures Possible(messages, actions, rest')
    ensures At(messages, actions, rest').completed == At(messages, actions, rest).completed + 1
    decreases |At(messages, actions, rest).acks|
  {
    hide Run, FaultFree, Inv, Acknowledges, DataFrame;
    rest' := rest;
    if !At(messages, actions, rest).waiting {
      Onward(messages, actions, rest, Transmit);
      rest' := rest + [Transmit];
    }
    var w := At(messages, actions, rest');
    Reachable(messages, actions + rest');
    MatchIsGenuine(messages, w, 0);
    Onward(messages, actions, rest', TakeAck);
    rest' := rest' + [TakeAck];
    if w.acks[0].origin != w.completed {
      assert w.acks == [w.acks[0]] + w.acks[1..];
      rest' := ReadAcks(messages, actions, rest');
    }
  }

  lemma CompleteOne(messages: seq<Message>, actions: seq<Action>, rest: seq<Action>) returns (rest': seq<Action>)
    requires AllData(messages) && Possible(messages, actions, rest)
    requires At(messages, actions, rest).completed < |messages|
    ensures Possible(messages, actions, rest')
    ensures At(messages, actions, rest').completed == At(messages, actions, rest).completed + 1
  {
    hide Run, FaultFree, DataFrame;
    rest' := rest;
    if At(messages, actions, rest).waiting {
      Onward(messages, actions, rest, Expire);
      rest' := rest + [Expire];
    }
    Onward(messages, actions, rest', Transmit);
    rest' := rest' + [Transmit];
    var w := At(messages, actions, rest');
    assert w.data[|w.data| - 1] in w.data + w.acks;
    rest' := ReadAll(messages, actions, rest');
    rest' := ReadAcks(messages, actions, rest');
  }

  lemma {:induction false} CompleteAll(messages: seq<Message>, actions: seq<Action>, rest: seq<Action>)
    returns (rest': seq<Action>)
    requires AllData(messages) && Possible(messages, actions, rest)
    requires At(messages, actions, rest).completed <= |messages|
    ensures Possible(messages, actions, rest') && At(messages, actions, rest').completed == |messages|
    decreases |messages| - At(messages, actions, rest).completed
  {
    hide Run, FaultFree;
    rest' := rest;
    if At(messages, actions, rest).completed < |messages| {
      rest' := CompleteOne(messages, actions, rest);
      rest' := CompleteAll(messages, actions, rest');
    }
  }

  /** The transfer is never stuck: whatever was lost, repeated or dropped before, some continuation without further
      faults lets every call return, and all messages have then been delivered, in order. */
  lemma AlwaysFinishes(messages: seq<Message>, actions: seq<Action>) returns (rest: seq<Action>)
    requires AllData(messages) && Run(messages, actions).Some?
    ensures FaultFree(rest) && Run(messages, actions + rest).Some?
    ensures var w := Run(messages, actions + rest).value;
      w.completed == |messages| && Collapse(w.delivered) == messages
  {
    assert actions + [] == actions;
    hide Run, Collapse, InOrder;
    Reachable(messages, actions);
    rest := CompleteAll(messages, actions, []);
    DeliveredBeforeReturn(messages, actions + rest);
  }
}
