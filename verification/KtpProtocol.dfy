/** Two KTP endpoints and the network between them: user1's entry sends, user2's entry receives. */
module KtpProtocol {
  import opened Common
  import opened KtpBase
  import opened KtpSender
  import opened KtpReceiver
  import opened Stutter

  /** The two entries, plus everything ever put on the wire: frames and acknowledgements are never removed, so a step
      may receive any of them, at any time, any number of times, or never.
      The last three fields are history: the messages k_sendto accepted, what k_recvfrom returned, and how often the
      receiver stored each number out of order. */
  datatype World = World(
    a: SendSide, b: RecvSide, wire: set<Frame>, ackLog: seq<Ack>,
    queued: seq<Message>, delivered: seq<Delivery<seq<byte>>>, early: multiset<int>)

  /** One critical section of sem_SM at one of the endpoints. */
  datatype Action =
    | Send(message: Message, stack: seq<byte>)  // k_sendto at the sender
    | Tick(now: nat)                            // thread S at the sender
    | GetAck(i: nat)                            // thread R at the sender gets the i-th acknowledgement
    | GetData(f: Frame)                         // thread R at the receiver gets a frame and does not drop it
    | Announce                                  // thread R's no-space scan at the receiver
    | Receive                                   // k_recvfrom at the receiver

  predicate Shape(w: World) {
    SendShape(w.a) && RecvShape(w.b)
  }

  function Init(): (w: World)
    ensures Shape(w)
  {
    World(InitSend(), InitRecv(), {}, [], [], [], multiset{})
  }

  function FrameSet(frames: seq<Frame>): set<Frame> {
    set f | f in frames
  }

  /** None: the action is not possible here, or the code would index a buffer with -1. */
  function Step(w: World, action: Action): (r: Option<World>)
    requires Shape(w)
    ensures r.Some? ==> Shape(r.value)
  {
    match action
    case Send(message, stack) =>
      if |stack| != BODY_SIZE then None
      else
        var (a, n) := SendTo(w.a, message, stack);
        Some(w.(a := a, queued := if n == -1 then w.queued else w.queued + [message]))
    case Tick(now) => (
      match KtpSender.Tick(w.a, now)
      case None => None
      case Some((a, frames)) => Some(w.(a := a, wire := w.wire + FrameSet(frames))))
    case GetAck(i) => (
      if i >= |w.ackLog| then None
      else match ProcessAck(w.a, w.ackLog[i])
        case None => None
        case Some(a) => Some(w.(a := a)))
    case GetData(f) =>
      if f !in w.wire then None
      else
        var (b, acks, isEarly) := ReceiveData(w.b, f);
        Some(w.(b := b, ackLog := w.ackLog + acks,
                early := if isEarly then w.early + multiset{f.seqNum as int} else w.early))
    case Announce =>
      var (b, acks) := Scan(w.b);
      Some(w.(b := b, ackLog := w.ackLog + acks))
    case Receive => (
      match Deliver(w.b)
      case (b, None) => Some(w.(b := b))
      case (b, Some(f)) =>
        Some(w.(b := b, delivered := w.delivered + [Delivery(f.seqNum as int, Text(f.body))])))
  }

  /** The world after a run, or None when some action of the run was not possible. */
  function Run(actions: seq<Action>): (r: Option<World>)
    ensures r.Some? ==> Shape(r.value)
  {
    if actions == [] then Some(Init())
    else match Run(actions[..|actions| - 1])
      case None => None
      case Some(w) => Step(w, actions[|actions| - 1])
  }

  lemma Extend(actions: seq<Action>, action: Action)
    requires Run(actions).Some?
    ensures Run(actions + [action]) == Step(Run(actions).value, action)
  {
    assert (actions + [action])[..|actions|] == actions;
  }

  // What the steps of a concrete run do.
  lemma DataStep(w: World, f: Frame) returns (w': World)
    requires Shape(w) && f in w.wire
    ensures Step(w, GetData(f)) == Some(w')
    ensures Shape(w')
    ensures w' == w.(b := ReceiveData(w.b, f).0, ackLog := w.ackLog + ReceiveData(w.b, f).1, early := w'.early)
  {
    w' := Step(w, GetData(f)).value;
  }

  lemma ReceiveStep(w: World, f: Frame) returns (w': World)
    requires Shape(w) && Deliver(w.b).1 == Some(f)
    ensures Step(w, Receive) == Some(w')
    ensures Shape(w')
    ensures w' == w.(b := Deliver(w.b).0, delivered := w.delivered + [Delivery(f.seqNum as int, Text(f.body))])
  {
    w' := Step(w, Receive).value;
  }

  lemma AckStep(w: World, i: nat) returns (w': World)
    requires Shape(w) && i < |w.ackLog| && ProcessAck(w.a, w.ackLog[i]).Some?
    ensures Step(w, GetAck(i)) == Some(w')
    ensures Shape(w') && w' == w.(a := ProcessAck(w.a, w.ackLog[i]).value)
  {
    w' := Step(w, GetAck(i)).value;
  }

  // One of the possible contents of k_sendto's uninitialised buffer, for concrete runs.
  function Stack(): (s: seq<byte>)
    ensures |s| == BODY_SIZE
  {
    seq(BODY_SIZE, _ => 0)
  }

  // ---------------------------------------------------------------- invariant

  /** What the receiver can see of the queued messages. */
  function Texts(queued: seq<Message>): (t: seq<seq<byte>>)
    ensures |t| == |queued|
    ensures forall i :: 0 <= i < |t| ==> t[i] == Text(queued[i])
  {
    seq(|queued|, i requires 0 <= i < |queued| => Text(queued[i]))
  }

  predicate GoodAck(a: Ack, start: int) {
    1 <= a.seqNum < start && 0 <= a.window <= SLOTS
  }

  ghost predicate NetInv(w: World) {
    && (forall f :: f in w.wire ==> Genuine(f, w.queued))
    && (forall i :: 0 <= i < |w.ackLog| ==> GoodAck(w.ackLog[i], w.b.start))
    && w.a.start <= w.b.start
    && InOrder(w.delivered, Texts(w.queued))
  }

  ghost predicate Includes(frames: set<Frame>, k: int) {
    exists f :: f in frames && f.seqNum == k
  }

  ghost predicate OnWire(w: World, k: int) {
    Includes(w.wire, k)
  }

  /** The numbers below sent are exactly those that were ever transmitted; the receiver expects no later one. */
  ghost predicate Transmitted(w: World, sent: int) {
    && w.b.start <= sent
    && (forall f :: f in w.wire ==> f.seqNum as int < sent)
    && (forall k :: 1 <= k < sent ==> OnWire(w, k))
  }

  ghost predicate SenderInv(w: World, sent: int) {
    SendInv(w.a, w.queued, sent) && Transmitted(w, sent)
  }

  /** Conservation of copies: number v was delivered or is stored once for its acceptance and once for each early
      store. */
  ghost predicate Conserved(w: World, v: int)
    requires RecvShape(w.b)
  {
    Times(w.delivered, v) + Copies(w.b, v) == w.early[v] + if v < w.b.start then 1 else 0
  }

  ghost predicate Inv(w: World) {
    && Shape(w)
    && (exists sent :: SenderInv(w, sent))
    && RecvInv(w.b, w.queued, Last(w.delivered))
    && NetInv(w)
    && forall v :: v > 0 ==> Conserved(w, v)
  }

  lemma QueueGrows(w: World, m: Message)
    requires RecvInv(w.b, w.queued, Last(w.delivered)) && NetInv(w) && |w.queued| + 1 < LAST_SEQ
    ensures RecvInv(w.b, w.queued + [m], Last(w.delivered))
    ensures NetInv(w.(queued := w.queued + [m]))
  {
    assert forall f :: Genuine(f, w.queued) ==> Genuine(f, w.queued + [m]);
    MoreSent(w.delivered, Texts(w.queued), [Text(m)]);
    assert Texts(w.queued + [m]) == Texts(w.queued) + [Text(m)];
  }

  lemma SendKeepsInv(w: World, message: Message, stack: seq<byte>)
    requires Inv(w) && |stack| == BODY_SIZE && |w.queued| + 1 < LAST_SEQ
    ensures Step(w, Send(message, stack)).Some? && Inv(Step(w, Send(message, stack)).value)
  {
    hide SendInv, RecvInv, NetInv, Copies, SendTo, Transmitted;
    var sent :| SenderInv(w, sent);
    QueueGrows(w, message);
    SendToKeeps(w.a, w.queued, sent, message, stack);
    var w' := Step(w, Send(message, stack)).value;
    SendOnlyQueues(w, message, stack, sent);
    assert SenderInv(w', sent);
    assert forall v :: Conserved(w', v) == Conserved(w, v);
  }

  lemma SendOnlyQueues(w: World, message: Message, stack: seq<byte>, sent: int)
    requires Shape(w) && |stack| == BODY_SIZE && Transmitted(w, sent)
    ensures var w' := Step(w, Send(message, stack)).value;
      && Transmitted(w', sent)
      && w'.a.start == w.a.start
      && (NetInv(w) && NetInv(w.(queued := w'.queued)) ==> NetInv(w'))
  {
    hide InOrder, Genuine;
    var w' := Step(w, Send(message, stack)).value;
    assert forall k :: OnWire(w, k) ==> OnWire(w', k);
  }

  lemma TickFrames(s: SendSide, queued: seq<Message>, sent: int, now: nat)
    requires SendInv(s, queued, sent) && KtpSender.Tick(s, now).Some?
    ensures forall f :: f in KtpSender.Tick(s, now).value.1 ==>
      Genuine(f, queued) && f.seqNum as int < TickMark(s, sent, now)
    ensures forall k :: sent <= k < TickMark(s, sent, now) ==>
      Includes(FrameSet(KtpSender.Tick(s, now).value.1), k)
  {
    TickKeeps(s, queued, sent, now);
    var frames := KtpSender.Tick(s, now).value.1;
    var again := s.size > 0 && Expired(s, now);
    var first, end := if again then s.start else sent, if again then s.start + s.size else TickMark(s, sent, now);
    FramesGenuine(s, queued, first, end);
    forall k | sent <= k < TickMark(s, sent, now) ensures Includes(FrameSet(frames), k) {
      FramesHas(s, queued, first, k, end);
      assert FrameAt(s, k) in frames;
    }
  }

  lemma {:induction false} FramesHas(s: SendSide, queued: seq<Message>, k: int, i: int, end: int)
    requires Slots(s, queued) && s.start <= k <= i < end && i < s.nextSeq
    ensures FrameAt(s, i) in Frames(s, k, end) && FrameAt(s, i).seqNum == i
    decreases i - k
  {
    if k < i {
      FramesHas(s, queued, k + 1, i, end);
    } else {
      assert Live(s, i, queued);
    }
  }

  lemma WireGrows(w: World, a: SendSide, frames: seq<Frame>, sent: int, sent': int)
    requires NetInv(w) && a.start == w.a.start && Transmitted(w, sent) && sent <= sent'
    requires forall f :: f in frames ==> Genuine(f, w.queued) && f.seqNum as int < sent'
    requires forall k :: sent <= k < sent' ==> Includes(FrameSet(frames), k)
    ensures NetInv(w.(a := a, wire := w.wire + FrameSet(frames)))
    ensures Transmitted(w.(a := a, wire := w.wire + FrameSet(frames)), sent')
  {
    hide InOrder, Genuine;
    var w' := w.(a := a, wire := w.wire + FrameSet(frames));
    forall k | 1 <= k < sent' ensures OnWire(w', k) {
      if k < sent {
        assert OnWire(w, k);
      } else {
        assert Includes(FrameSet(frames), k);
        var f :| f in FrameSet(frames) && f.seqNum == k;
        assert f in w'.wire;
      }
    }
  }

  lemma TickKeepsInv(w: World, now: nat)
    requires Inv(w) && Step(w, Action.Tick(now)).Some?
    ensures Inv(Step(w, Action.Tick(now)).value)
  {
    hide RecvInv, SendInv, NetInv, Transmitted, KtpSender.Tick, Copies, TickMark, Expired;
    var sent :| SenderInv(w, sent);
    var (a, frames) := KtpSender.Tick(w.a, now).value;
    TickKeeps(w.a, w.queued, sent, now);
    TickFrames(w.a, w.queued, sent, now);
    WireGrows(w, a, frames, sent, TickMark(w.a, sent, now));
    var w' := Step(w, Action.Tick(now)).value;
    assert SenderInv(w', TickMark(w.a, sent, now));
    assert forall v :: Conserved(w', v) == Conserved(w, v);
  }

  /** An acknowledgement that reached the wire can always be processed: the release loop never meets an empty index. */
  lemma GetAckKeepsInv(w: World, i: nat)
    requires Inv(w) && i < |w.ackLog|
    ensures Step(w, GetAck(i)).Some? && Inv(Step(w, GetAck(i)).value)
    ensures Step(w, GetAck(i)).value.a.size == w.ackLog[i].window
  {
    hide RecvInv, SendInv, Copies, ProcessAck, InOrder;
    var sent :| SenderInv(w, sent);
    assert GoodAck(w.ackLog[i], w.b.start);
    NextAboveStart(w.a, w.queued, sent);
    ProcessAckDrops(w.a, w.queued, sent, w.ackLog[i]);
    var w' := Step(w, GetAck(i)).value;
    assert forall k :: OnWire(w, k) ==> OnWire(w', k);
    assert SenderInv(w', sent);
    assert forall v :: Conserved(w', v) == Conserved(w, v);
  }

  lemma NextAboveStart(s: SendSide, queued: seq<Message>, sent: int)
    requires SendInv(s, queued, sent)
    ensures SendShape(s) && s.start <= sent <= s.nextSeq
  {
  }

  lemma AcksGrow(w: World, b: RecvSide, acks: seq<Ack>)
    requires NetInv(w) && w.b.start <= b.start && forall a :: a in acks ==> GoodAck(a, b.start)
    ensures NetInv(w.(b := b, ackLog := w.ackLog + acks))
  {
    hide InOrder, Genuine;
    forall i | 0 <= i < |w.ackLog + acks| ensures GoodAck((w.ackLog + acks)[i], b.start) {
      assert i < |w.ackLog| ==> GoodAck(w.ackLog[i], w.b.start);
    }
  }

  lemma GetDataKeepsInv(w: World, f: Frame)
    requires Inv(w) && f in w.wire
    ensures Step(w, GetData(f)).Some? && Inv(Step(w, GetData(f)).value)
  {
    hide SendInv, RecvInv, InOrder, Copies, ReceiveData;
    var sent :| SenderInv(w, sent);
    assert Genuine(f, w.queued);
    hide Genuine;
    ReceiveDataKeeps(w.b, w.queued, Last(w.delivered), f);
    var (b, acks, isEarly) := ReceiveData(w.b, f);
    AcksGrow(w, b, acks);
    var w' := Step(w, GetData(f)).value;
    NetIgnoresHistory(w.(b := b, ackLog := w.ackLog + acks), w'.early);
    assert forall k :: OnWire(w, k) ==> OnWire(w', k);
    assert SenderInv(w', sent);
    forall v | v > 0 ensures Conserved(w', v) {
      assert Conserved(w, v);
      ReceiveDataCopies(w.b, w.queued, Last(w.delivered), f, v);
    }
  }

  lemma NetIgnoresHistory(w: World, early: multiset<int>)
    requires NetInv(w)
    ensures NetInv(w.(early := early))
  {
    hide InOrder, Genuine;
  }

  lemma AnnounceKeepsInv(w: World)
    requires Inv(w)
    ensures Step(w, Announce).Some? && Inv(Step(w, Announce).value)
  {
    hide SendInv, RecvInv, NetInv, Copies, Scan;
    var sent :| SenderInv(w, sent);
    ScanKeeps(w.b, w.queued, Last(w.delivered));
    var (b, acks) := Scan(w.b);
    AcksGrow(w, b, acks);
    var w' := Step(w, Announce).value;
    assert forall k :: OnWire(w, k) ==> OnWire(w', k);
    assert SenderInv(w', sent);
    assert forall v :: Conserved(w', v) == Conserved(w, v);
  }

  lemma DeliveredGrows(delivered: seq<Delivery<seq<byte>>>, queued: seq<Message>, f: Frame)
    requires InOrder(delivered, Texts(queued)) && Genuine(f, queued)
    requires Last(delivered) <= f.seqNum as int <= Last(delivered) + 1
    ensures InOrder(delivered + [Delivery(f.seqNum as int, Text(f.body))], Texts(queued))
  {
    hide InOrder;
    TextOfCarried(f.body, queued[f.seqNum - 1]);
    InOrderGrows(delivered, Texts(queued), Delivery(f.seqNum as int, Text(f.body)));
  }

  lemma ReceiveKeepsInv(w: World)
    requires Inv(w)
    ensures Step(w, Receive).Some? && Inv(Step(w, Receive).value)
  {
    hide SendInv, RecvInv, InOrder, Copies, Deliver, Genuine, Times;
    var sent :| SenderInv(w, sent);
    DeliverKeeps(w.b, w.queued, Last(w.delivered));
    var w' := Step(w, Receive).value;
    assert forall k :: OnWire(w, k) ==> OnWire(w', k);
    assert SenderInv(w', sent);
    if Deliver(w.b).1.Some? {
      var f := Deliver(w.b).1.value;
      DeliveredGrows(w.delivered, w.queued, f);
      forall v | v > 0 ensures Conserved(w', v) {
        assert Conserved(w, v);
        TimesGrows(w.delivered, Delivery(f.seqNum as int, Text(f.body)), v);
      }
    } else {
      assert forall v :: Conserved(w', v) == Conserved(w, v);
    }
  }

  lemma StepKeepsInv(w: World, action: Action)
    requires Inv(w) && Step(w, action).Some? && |Step(w, action).value.queued| < LAST_SEQ
    ensures Inv(Step(w, action).value)
  {
    hide Inv;
    match action
    case Send(message, stack) =>
      if |w.queued| + 1 < LAST_SEQ {
        SendKeepsInv(w, message, stack);
      } else {
        RefusedKeepsInv(w, message, stack);
      }
    case Tick(now) => TickKeepsInv(w, now);
    case GetAck(i) => GetAckKeepsInv(w, i);
    case GetData(f) => GetDataKeepsInv(w, f);
    case Announce => AnnounceKeepsInv(w);
    case Receive => ReceiveKeepsInv(w);
  }

  lemma RefusedKeepsInv(w: World, message: Message, stack: seq<byte>)
    requires Inv(w) && Step(w, Send(message, stack)).Some? && |w.queued| + 1 == LAST_SEQ
    requires |Step(w, Send(message, stack)).value.queued| < LAST_SEQ
    ensures Inv(Step(w, Send(message, stack)).value)
  {
    hide SenderInv, RecvInv, NetInv, Copies;
    assert Step(w, Send(message, stack)).value == w;
  }
}
