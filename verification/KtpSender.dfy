/** The sending half of a KTP socket entry, as functions on its value. */
module KtpSender {
  import opened Common
  import opened KtpBase

  datatype SendSide = SendSide(
    buffer: seq<Frame>,   // send_buffer
    free: seq<bool>,      // sbuff_free
    index: seq<int>,      // swnd.index_seq_num: slot of each outstanding sequence number, or -1
    size: int,            // swnd.size
    start: int,           // swnd.start_sequence
    nextSeq: int,         // max_seq_number_yet
    sendTime: seq<int>,   // send_time: -1 for a message not sent yet
    lastAck: int)         // last_ack_received

  predicate SendShape(s: SendSide) {
    && |s.buffer| == SLOTS && |s.free| == SLOTS && |s.sendTime| == SLOTS && |s.index| == LAST_SEQ + 1
    && 0 <= s.size <= SLOTS
    && 1 <= s.start <= LAST_SEQ && 1 <= s.nextSeq <= LAST_SEQ && 0 <= s.lastAck <= LAST_SEQ
    && forall k :: 0 <= k <= LAST_SEQ ==> -1 <= s.index[k] < SLOTS
  }

  function InitSend(): (s: SendSide)
    ensures SendShape(s)
  {
    SendSide(seq(SLOTS, _ => ZeroFrame()), seq(SLOTS, _ => true), seq(LAST_SEQ + 1, _ => -1),
             SLOTS, 1, 1, seq(SLOTS, _ => -1), 0)
  }

  // ---------------------------------------------------------------- k_sendto

  function MakeFrame(seqNum: byte, slot: byte, message: Message, stack: seq<byte>): (f: Frame)
    requires |message| <= MAX_MESSAGE && |stack| == BODY_SIZE
    ensures Carries(f.body, message)
  {
    Frame(seqNum, slot, message + [0] + stack[|message| + 1..])
  }

  function Enqueue(s: SendSide, j: nat, f: Frame): (r: SendSide)
    requires SendShape(s) && j < SLOTS
    ensures SendShape(r)
  {
    s.(buffer := s.buffer[j := f],
       free := s.free[j := false],
       index := s.index[s.nextSeq := j],
       nextSeq := Succ(s.nextSeq))
  }

  /** stack is what the uninitialised local buffer of k_sendto happens to hold behind its two header bytes. */
  function SendTo(s: SendSide, message: Message, stack: seq<byte>): (r: (SendSide, int))
    requires SendShape(s) && |stack| == BODY_SIZE
    ensures SendShape(r.0)
  {
    if |message| > MAX_MESSAGE then (s, -1)
    else
      var j := FirstSet(s.free, 0);
      if j == SLOTS then (s, -1)
      else
        (Enqueue(s, j, MakeFrame(s.nextSeq, j, message, stack)), |message|)
  }

  // ---------------------------------------------------------------- thread R: acknowledgement

  /** Releases the oldest outstanding message. */
  function DropOne(s: SendSide): (r: SendSide)
    requires SendShape(s) && s.index[s.start] >= 0
    ensures SendShape(r)
  {
    var j := s.index[s.start];
    s.(buffer := s.buffer[j := ZeroFrame()],
       free := s.free[j := true],
       index := s.index[s.start := -1],
       start := Succ(s.start),
       sendTime := s.sendTime[j := -1])
  }

  /** Releases messages up to stop; None when the loop would index a buffer with -1. */
  function Release(s: SendSide, stop: int): (r: Option<SendSide>)
    requires SendShape(s) && 1 <= stop <= LAST_SEQ
    ensures r.Some? ==> SendShape(r.value)
    decreases Distance(s.start, stop)
  {
    if s.start == stop then Some(s)
    else if s.index[s.start] < 0 then None
    else Release(DropOne(s), stop)
  }

  function ProcessAck(s: SendSide, a: Ack): (r: Option<SendSide>)
    requires SendShape(s)
    ensures r.Some? ==> SendShape(r.value)
  {
    if a.seqNum <= 0 || a.seqNum > LAST_SEQ then Some(s)
    else if a.window < 0 || a.window > SLOTS then Some(s)
    else
      var last := Max(a.seqNum, s.lastAck);
      Release(s.(size := a.window, lastAck := last), Succ(last))
  }

  // ---------------------------------------------------------------- thread S: one tick

  predicate Expired(s: SendSide, now: int)
    requires SendShape(s)
  {
    exists j :: 0 <= j < SLOTS && s.sendTime[j] != -1 && now - s.sendTime[j] >= TIMEOUT
  }

  /** The retransmission loop over the next n ring positions, with the time stamps so far; None when it would index
      a buffer with -1. */
  function Retransmit(s: SendSide, times: seq<int>, k: int, n: nat, now: int): (r: Option<(seq<int>, seq<Frame>)>)
    requires SendShape(s) && |times| == SLOTS && 1 <= k <= LAST_SEQ
    ensures r.Some? ==> |r.value.0| == SLOTS
    decreases n
  {
    var j := s.index[k];
    if n == 0 then Some((times, []))
    else if j < 0 then None
    else match Retransmit(s, times[j := now], Succ(k), n - 1, now)
      case None => None
      case Some((times', frames)) => Some((times', [s.buffer[j]] + frames))
  }

  /** The loop that sends messages for the first time, skipping those already sent. */
  function FirstSend(s: SendSide, times: seq<int>, k: int, stop: int, cnt: int, now: int): (r: (seq<int>, seq<Frame>))
    requires SendShape(s) && |times| == SLOTS && 1 <= k <= LAST_SEQ && 1 <= stop <= LAST_SEQ
    ensures |r.0| == SLOTS
    decreases Distance(k, stop)
  {
    var j := s.index[k];
    if k == stop || cnt == s.size then (times, [])
    else if j >= 0 && times[j] == -1 then
      var (times', frames) := FirstSend(s, times[j := now], Succ(k), stop, cnt + 1, now);
      (times', [s.buffer[j]] + frames)
    else FirstSend(s, times, Succ(k), stop, cnt, now)
  }

  function Tick(s: SendSide, now: int): (r: Option<(SendSide, seq<Frame>)>)
    requires SendShape(s)
    ensures r.Some? ==> SendShape(r.value.0)
  {
    if s.size == 0 then Some((s, []))
    else if Expired(s, now) then
      match Retransmit(s, s.sendTime, s.start, s.size, now)
      case None => None
      case Some((times, frames)) => Some((s.(sendTime := times), frames))
    else
      var (times, frames) := FirstSend(s, s.sendTime, s.start, Succ(s.start + s.size), 0, now);
      Some((s.(sendTime := times), frames))
  }

  // ---------------------------------------------------------------- invariant

  /** Sequence number k is outstanding and sits, whole, in the slot the index names. */
  ghost predicate Live(s: SendSide, k: int, queued: seq<Message>)
    requires SendShape(s) && 0 <= k <= LAST_SEQ
  {
    var j := s.index[k];
    0 <= j && !s.free[j] && s.buffer[j].seqNum == k && s.buffer[j].slot == j && Genuine(s.buffer[j], queued)
  }

  /** Outstanding sequence numbers and occupied slots are in bijection. */
  ghost predicate Slots(s: SendSide, queued: seq<Message>) {
    && SendShape(s)
    && |queued| < LAST_SEQ && s.start <= s.nextSeq == |queued| + 1
    && Count(s.free) == SLOTS - (s.nextSeq - s.start)
    && (forall k :: 0 <= k <= LAST_SEQ && !(s.start <= k < s.nextSeq) ==> s.index[k] == -1)
    && (forall k :: s.start <= k < s.nextSeq ==> Live(s, k, queued))
    && (forall j :: 0 <= j < SLOTS && !s.free[j] ==>
          s.start <= s.buffer[j].seqNum as int < s.nextSeq && s.index[s.buffer[j].seqNum] == j)
  }

  /** The messages sent at least once are exactly the outstanding ones below the mark; free slots carry no time stamp.
      */
  ghost predicate Marks(s: SendSide, times: seq<int>, sent: int)
    requires SendShape(s)
  {
    && |times| == SLOTS
    && s.start <= sent <= s.nextSeq
    && (forall k :: s.start <= k < s.nextSeq && 0 <= s.index[k] ==> (times[s.index[k]] != -1 <==> k < sent))
    && (forall j :: 0 <= j < SLOTS && s.free[j] ==> times[j] == -1)
  }

  // What the arithmetic of the loops needs to know.
  lemma Bounds(s: SendSide, queued: seq<Message>, times: seq<int>, sent: int)
    requires Slots(s, queued) && Marks(s, times, sent)
    ensures SendShape(s) && |s.index| == LAST_SEQ + 1 && 0 <= s.size <= SLOTS
    ensures |times| == SLOTS && 1 <= s.start <= sent <= s.nextSeq <= LAST_SEQ
  {
  }

  ghost predicate SendCore(s: SendSide, queued: seq<Message>, sent: int) {
    Slots(s, queued) && Marks(s, s.sendTime, sent)
  }

  ghost predicate SendInv(s: SendSide, queued: seq<Message>, sent: int) {
    SendCore(s, queued, sent) && s.lastAck == s.start - 1
  }

  // What the window maps sequence number k to.
  function FrameAt(s: SendSide, k: int): Frame
    requires SendShape(s)
  {
    if 0 <= k <= LAST_SEQ && s.index[k] >= 0 then s.buffer[s.index[k]] else ZeroFrame()
  }

  function Frames(s: SendSide, k: int, end: int): (q: seq<Frame>)
    requires SendShape(s)
    ensures |q| == Max(0, end - k)
    decreases end - k
  {
    if k >= end then [] else [FrameAt(s, k)] + Frames(s, k + 1, end)
  }

  /** The abstract view of the sender: the queue of unacknowledged frames, oldest first. */
  function Outstanding(s: SendSide): seq<Frame>
    requires SendShape(s)
  {
    Frames(s, s.start, s.nextSeq)
  }

  lemma {:induction false} FramesAgree(s: SendSide, s': SendSide, k: int, end: int)
    requires SendShape(s) && SendShape(s')
    requires forall i :: k <= i < end ==> FrameAt(s, i) == FrameAt(s', i)
    ensures Frames(s, k, end) == Frames(s', k, end)
    decreases end - k
  {
    if k < end {
      FramesAgree(s, s', k + 1, end);
    }
  }

  lemma FramesCons(s: SendSide, k: int, end: int)
    requires SendShape(s)
    ensures Frames(s, k, end) == if k >= end then [] else [FrameAt(s, k)] + Frames(s, k + 1, end)
  {
  }

  lemma {:induction false} FramesSnoc(s: SendSide, k: int, end: int)
    requires SendShape(s) && k <= end
    ensures Frames(s, k, end + 1) == Frames(s, k, end) + [FrameAt(s, end)]
    decreases end - k
  {
    if k < end {
      FramesSnoc(s, k + 1, end);
    }
  }

  lemma InitSendInv()
    ensures SendInv(InitSend(), [], 1)
  {
    CountExtremes(InitSend().free);
  }

  lemma EnqueueKeeps(s: SendSide, queued: seq<Message>, sent: int, j: nat, f: Frame, message: Message)
    requires SendInv(s, queued, sent) && |queued| + 1 < LAST_SEQ
    requires j < SLOTS && s.free[j]
    requires f.seqNum == s.nextSeq && f.slot == j && Carries(f.body, message)
    ensures SendInv(Enqueue(s, j, f), queued + [message], sent)
  {
    CountUpdate(s.free, j, false);
    var s', queued' := Enqueue(s, j, f), queued + [message];
    forall k | s.start <= k < s'.nextSeq ensures Live(s', k, queued') {
      if k < s.nextSeq {
        assert Live(s, k, queued);
      }
    }
  }

  lemma EnqueueAppends(s: SendSide, queued: seq<Message>, sent: int, j: nat, f: Frame)
    requires SendInv(s, queued, sent) && s.nextSeq < LAST_SEQ
    requires j < SLOTS && s.free[j]
    ensures Outstanding(Enqueue(s, j, f)) == Outstanding(s) + [f]
  {
    var s' := Enqueue(s, j, f);
    forall k | s.start <= k < s.nextSeq ensures FrameAt(s, k) == FrameAt(s', k) {
      assert Live(s, k, queued);
    }
    FramesAgree(s, s', s.start, s.nextSeq);
    FramesSnoc(s', s.start, s.nextSeq);
  }

  /** An accepted message becomes the youngest outstanding one; a refused one changes nothing,
      and refusal happens exactly when the message is too long or all ten slots are outstanding. */
  lemma SendToKeeps(s: SendSide, queued: seq<Message>, sent: int, message: Message, stack: seq<byte>)
    requires SendInv(s, queued, sent) && |stack| == BODY_SIZE
    requires |queued| + 1 < LAST_SEQ
    ensures var (s', r) := SendTo(s, message, stack);
      && (r == -1 <==> |message| > 509 || |Outstanding(s)| == 10)
      && (r == -1 ==> s' == s)
      && (r != -1 ==> r == |message| && SendInv(s', queued + [message], sent)
                      && var q := Outstanding(s); var q' := Outstanding(s');
                         |q'| == |q| + 1 && q <= q' && q'[|q|].seqNum == s.nextSeq && Carries(q'[|q|].body, message))
  {
    CountExtremes(s.free);
    var j := FirstSet(s.free, 0);
    if |message| <= MAX_MESSAGE && j < SLOTS {
      var f := MakeFrame(s.nextSeq, j, message, stack);
      EnqueueKeeps(s, queued, sent, j, f, message);
      EnqueueAppends(s, queued, sent, j, f);
    }
  }

  lemma DropOneKeeps(s: SendSide, queued: seq<Message>, sent: int)
    requires SendCore(s, queued, sent) && s.start < s.nextSeq
    ensures s.index[s.start] >= 0
    ensures SendCore(DropOne(s), queued, Max(sent, s.start + 1))
  {
    assert Live(s, s.start, queued);
    var s' := DropOne(s);
    var j := s.index[s.start];
    CountUpdate(s.free, j, true);
    forall k | s'.start <= k < s'.nextSeq ensures Live(s', k, queued) && s.index[k] != j {
      assert Live(s, k, queued);
    }
  }

  lemma DropOneShifts(s: SendSide, queued: seq<Message>)
    requires Slots(s, queued) && s.start < s.nextSeq && s.index[s.start] >= 0
    ensures Outstanding(DropOne(s)) == Outstanding(s)[1..]
  {
    var s' := DropOne(s);
    forall k | s'.start <= k < s'.nextSeq ensures FrameAt(s, k) == FrameAt(s', k) {
      assert Live(s, k, queued) && Live(s, s.start, queued);
    }
    FramesAgree(s, s', s'.start, s'.nextSeq);
  }

  lemma {:induction false} ReleaseKeeps(s: SendSide, queued: seq<Message>, sent: int, stop: int)
    requires SendCore(s, queued, sent) && s.start <= stop <= s.nextSeq
    ensures var r := Release(s, stop);
      && r.Some?
      && r.value.start == stop && r.value.size == s.size && r.value.lastAck == s.lastAck
      && SendCore(r.value, queued, Max(sent, stop))
      && Outstanding(r.value) == Outstanding(s)[stop - s.start..]
    decreases stop - s.start
  {
    if s.start < stop {
      DropOneKeeps(s, queued, sent);
      DropOneShifts(s, queued);
      assert Release(s, stop) == Release(DropOne(s), stop);
      hide Slots, Marks, Release;
      ReleaseKeeps(DropOne(s), queued, Max(sent, s.start + 1), stop);
    }
  }

  lemma WindowKeeps(s: SendSide, queued: seq<Message>, sent: int, window: int, last: int)
    requires SendCore(s, queued, sent) && 0 <= window <= SLOTS && 0 <= last <= LAST_SEQ
    ensures SendCore(s.(size := window, lastAck := last), queued, sent)
    ensures Outstanding(s.(size := window, lastAck := last)) == Outstanding(s)
  {
    var s1 := s.(size := window, lastAck := last);
    forall k | s.start <= k < s.nextSeq ensures Live(s1, k, queued) {
      assert Live(s, k, queued);
    }
    FramesAgree(s, s1, s.start, s.nextSeq);
  }

  /** Acknowledgement processing is a queue drop: it always completes, it removes exactly the messages up to the
      acknowledged one from the front, and an acknowledgement of something already released changes only the window. */
  lemma ProcessAckDrops(s: SendSide, queued: seq<Message>, sent: int, a: Ack)
    requires SendInv(s, queued, sent)
    requires 1 <= a.seqNum < s.nextSeq && 0 <= a.window <= SLOTS
    ensures var r := ProcessAck(s, a); var dropped := Max(0, a.seqNum - s.start + 1);
      && r.Some?
      && r.value.start == s.start + dropped
      && r.value.size == a.window
      && SendInv(r.value, queued, Max(sent, r.value.start))
      && Outstanding(r.value) == Outstanding(s)[dropped..]
      && (a.seqNum < s.start ==> r.value == s.(size := a.window))
  {
    var last := Max(a.seqNum, s.lastAck);
    WindowKeeps(s, queued, sent, a.window, last);
    ReleaseKeeps(s.(size := a.window, lastAck := last), queued, sent, Succ(last));
  }

  // The release loop never comes to a stop outside the outstanding range: it meets an empty index first.
  lemma {:induction false} ReleaseBeyond(s: SendSide, queued: seq<Message>, sent: int, stop: int)
    requires SendCore(s, queued, sent) && 1 <= stop <= LAST_SEQ && !(s.start <= stop <= s.nextSeq)
    ensures Release(s, stop) == None
    decreases s.nextSeq - s.start
  {
    if s.start < s.nextSeq {
      DropOneKeeps(s, queued, sent);
      hide Slots, Marks;
      ReleaseBeyond(DropOne(s), queued, Max(sent, s.start + 1), stop);
    }
  }

  /** Any six-byte acknowledgement, genuine or not: one whose number or window is out of range changes nothing; one for
      a queued number is always processed; one for a number that was never queued runs into an empty index, unless its
      number is 255 and nothing was ever released. */
  lemma AckExactly(s: SendSide, queued: seq<Message>, sent: int, a: Ack)
    requires SendInv(s, queued, sent)
    ensures var r := ProcessAck(s, a); var inRange := 1 <= a.seqNum <= 255 && 0 <= a.window <= 10;
      && (!inRange ==> r == Some(s))
      && (inRange ==> (r.None? <==> a.seqNum >= s.nextSeq && !(a.seqNum == 255 && s.start == 1)))
  {
    hide Slots, Marks, Release;
    if 1 <= a.seqNum <= 255 && 0 <= a.window <= 10 {
      Bounds(s, queued, s.sendTime, sent);
      if a.seqNum < s.nextSeq {
        ProcessAckDrops(s, queued, sent, a);
      } else {
        WindowKeeps(s, queued, sent, a.window, a.seqNum);
        var s1 := s.(size := a.window, lastAck := a.seqNum);
        if a.seqNum == 255 && s.start == 1 {
          ReleaseKeeps(s1, queued, sent, 1);
        } else {
          ReleaseBeyond(s1, queued, sent, Succ(a.seqNum));
        }
      }
    }
  }

  // ---------------------------------------------------------------- thread S keeps the invariant

  lemma StampKeeps(s: SendSide, queued: seq<Message>, times: seq<int>, sent: int, k: int, now: nat)
    requires Slots(s, queued) && Marks(s, times, sent) && s.start <= k < s.nextSeq && k <= sent
    ensures s.index[k] >= 0 && Marks(s, times[s.index[k] := now], Max(sent, k + 1))
  {
    assert Live(s, k, queued);
    forall i | s.start <= i < s.nextSeq ensures s.index[i] == s.index[k] ==> i == k {
      assert Live(s, i, queued);
    }
  }

  // Unfolds the retransmission loop.
  lemma RetransmitUnfolds(s: SendSide, queued: seq<Message>, times: seq<int>, k: int, n: nat, now: nat)
    requires Slots(s, queued) && |times| == SLOTS && s.start <= k <= s.nextSeq
    ensures n == 0 ==> Retransmit(s, times, k, n, now) == Some((times, []))
    ensures n > 0 && k == s.nextSeq ==> Retransmit(s, times, k, n, now) == None
    ensures k < s.nextSeq ==> s.index[k] >= 0
    ensures n > 0 && k < s.nextSeq ==>
      var r := Retransmit(s, times[s.index[k] := now], k + 1, n - 1, now);
      Retransmit(s, times, k, n, now) == if r.None? then None else Some((r.value.0, [FrameAt(s, k)] + r.value.1))
  {
    if k < s.nextSeq {
      assert Live(s, k, queued);
    }
  }

  /** The retransmission loop is defined exactly while it stays inside the outstanding range; it then sends that
      stretch. */
  lemma {:induction false} RetransmitKeeps(
    s: SendSide, queued: seq<Message>, times: seq<int>, sent: int, k: int, n: nat, now: nat)
    requires Slots(s, queued) && Marks(s, times, sent) && s.start <= k <= s.nextSeq && k <= sent
    ensures var r := Retransmit(s, times, k, n, now);
      && (r.Some? <==> k + n <= s.nextSeq)
      && (r.Some? ==> Marks(s, r.value.0, Max(sent, k + n)) && r.value.1 == Frames(s, k, k + n))
    decreases n
  {
    hide Retransmit, Slots, Marks, Frames, FrameAt, SendShape;
    Bounds(s, queued, times, sent);
    FramesCons(s, k, k + n);
    RetransmitUnfolds(s, queued, times, k, n, now);
    if n > 0 && k < s.nextSeq {
      StampKeeps(s, queued, times, sent, k, now);
      RetransmitKeeps(s, queued, times[s.index[k] := now], Max(sent, k + 1), k + 1, n - 1, now);
    }
  }

  lemma {:induction false} FirstSendNothing(s: SendSide, times: seq<int>, k: int, stop: int, cnt: int, now: nat)
    requires SendShape(s) && |times| == SLOTS && 1 <= k <= LAST_SEQ && 1 <= stop <= LAST_SEQ
    requires forall p :: (if k <= stop then k <= p < stop else k <= p <= LAST_SEQ || 1 <= p < stop) ==> s.index[p] == -1
    ensures FirstSend(s, times, k, stop, cnt, now) == (times, [])
    decreases Distance(k, stop)
  {
    if k != stop && cnt != s.size {
      FirstSendNothing(s, times, Succ(k), stop, cnt, now);
    }
  }

  // Where the first-send loop leaves the mark when it may still pass positions below hi and send n more messages.
  function NewMark(s: SendSide, sent: int, hi: int, n: int): int {
    Max(sent, Min(s.nextSeq, Min(hi, sent + n)))
  }

  lemma MarkMoves(s: SendSide, sent: int, hi: int, n: nat)
    requires sent <= hi && sent <= s.nextSeq
    ensures NewMark(s, sent, hi, n)
      == if sent == hi || n == 0 || sent == s.nextSeq then sent else NewMark(s, sent + 1, hi, n - 1)
    ensures sent <= NewMark(s, sent, hi, n)
    ensures sent < hi && n > 0 && sent < s.nextSeq ==> sent < NewMark(s, sent, hi, n)
  {
  }

  lemma {:induction false} FirstSendSkips(
    s: SendSide, queued: seq<Message>, times: seq<int>, sent: int, k: int, end: int, stop: int, now: nat)
    requires Slots(s, queued) && Marks(s, times, sent)
    requires s.start <= k <= end <= sent && (end <= stop || stop < s.start) && 1 <= stop <= LAST_SEQ
    ensures FirstSend(s, times, k, stop, 0, now) == FirstSend(s, times, end, stop, 0, now)
    decreases end - k
  {
    if k < end && s.size != 0 {
      assert Live(s, k, queued) && times[s.index[k]] != -1;
      FirstSendSkips(s, queued, times, sent, k + 1, end, stop, now);
    }
  }

  // The first-send loop sends nothing more at its stop, with the window used up, or past the last queued message.
  lemma FirstSendStops(s: SendSide, queued: seq<Message>, times: seq<int>, k: int, stop: int, cnt: int, now: nat)
    requires Slots(s, queued) && |times| == SLOTS && s.start <= k <= s.nextSeq && 1 <= stop <= LAST_SEQ
    requires k == stop || cnt == s.size || (k == s.nextSeq && (k <= stop || stop < s.start))
    ensures FirstSend(s, times, k, stop, cnt, now) == (times, [])
  {
    if k != stop && cnt != s.size {
      FirstSendNothing(s, times, k, stop, cnt, now);
    }
  }

  // Unfolds the first-send loop at an unsent message.
  lemma FirstSendUnfolds(s: SendSide, queued: seq<Message>, times: seq<int>, k: int, stop: int, cnt: int, now: nat)
    requires Slots(s, queued) && Marks(s, times, k)
    requires k < s.nextSeq && k != stop && cnt != s.size && 1 <= stop <= LAST_SEQ
    ensures s.index[k] >= 0
    ensures var r := FirstSend(s, times[s.index[k] := now], k + 1, stop, cnt + 1, now);
      FirstSend(s, times, k, stop, cnt, now) == (r.0, [FrameAt(s, k)] + r.1)
  {
    assert Live(s, k, queued);
  }

  lemma {:induction false} FirstSendNew(
    s: SendSide, queued: seq<Message>, times: seq<int>, sent: int, stop: int, hi: int, cnt: int, now: nat)
    requires Slots(s, queued) && Marks(s, times, sent) && 0 <= cnt <= s.size
    requires (sent <= stop <= LAST_SEQ && hi == stop) || (1 <= stop < s.start && hi == LAST_SEQ + 1)
    ensures var r := FirstSend(s, times, sent, stop, cnt, now); var sent' := NewMark(s, sent, hi, s.size - cnt);
      Marks(s, r.0, sent') && r.1 == Frames(s, sent, sent')
    decreases Distance(sent, stop)
  {
    hide FirstSend, Slots, Marks, NewMark, Frames, FrameAt, SendShape;
    Bounds(s, queued, times, sent);
    FramesCons(s, sent, NewMark(s, sent, hi, s.size - cnt));
    MarkMoves(s, sent, hi, s.size - cnt);
    if sent == hi || cnt == s.size || sent == s.nextSeq {
      FirstSendStops(s, queued, times, sent, stop, cnt, now);
    } else {
      FirstSendUnfolds(s, queued, times, sent, stop, cnt, now);
      StampKeeps(s, queued, times, sent, sent, now);
      FirstSendNew(s, queued, times[s.index[sent] := now], sent + 1, stop, hi, cnt + 1, now);
    }
  }

  // The mark after one tick of thread S.
  function TickMark(s: SendSide, sent: int, now: int): int
    requires SendShape(s)
  {
    if s.size == 0 then sent
    else if Expired(s, now) then Max(sent, s.start + s.size)
    else NewMark(s, sent, s.start + s.size + 1, s.size)
  }

  lemma TimesKeep(s: SendSide, queued: seq<Message>, times: seq<int>, sent: int)
    requires Slots(s, queued) && Marks(s, times, sent)
    ensures SendCore(s.(sendTime := times), queued, sent)
  {
    var s' := s.(sendTime := times);
    forall k | s.start <= k < s.nextSeq ensures Live(s', k, queued) {
      assert Live(s, k, queued);
    }
  }

  lemma TickUnfolds(s: SendSide, now: int)
    requires SendShape(s) && s.size > 0
    ensures Expired(s, now) ==>
      var r := Retransmit(s, s.sendTime, s.start, s.size, now);
      Tick(s, now) == if r.None? then None else Some((s.(sendTime := r.value.0), r.value.1))
    ensures !Expired(s, now) ==>
      var r := FirstSend(s, s.sendTime, s.start, Succ(s.start + s.size), 0, now);
      Tick(s, now) == Some((s.(sendTime := r.0), r.1))
  {
    hide Retransmit, FirstSend, Expired;
  }

  lemma TickRetransmits(s: SendSide, queued: seq<Message>, sent: int, now: nat)
    requires SendInv(s, queued, sent) && s.size > 0 && Expired(s, now)
    ensures Tick(s, now).None? <==> s.nextSeq - s.start < s.size
    ensures Tick(s, now).Some? ==>
      var s', frames := Tick(s, now).value.0, Tick(s, now).value.1;
      && SendInv(s', queued, Max(sent, s.start + s.size))
      && s' == s.(sendTime := s'.sendTime)
      && frames == Frames(s, s.start, s.start + s.size)
  {
    hide Tick, Retransmit, Expired, Slots, Marks, SendShape;
    Bounds(s, queued, s.sendTime, sent);
    TickUnfolds(s, now);
    RetransmitSends(s, queued, sent, now);
  }

  lemma RetransmitSends(s: SendSide, queued: seq<Message>, sent: int, now: nat)
    requires SendInv(s, queued, sent) && s.size > 0
    ensures var r := Retransmit(s, s.sendTime, s.start, s.size, now);
      && (r.None? <==> s.nextSeq - s.start < s.size)
      && (r.Some? ==> SendInv(s.(sendTime := r.value.0), queued, Max(sent, s.start + s.size))
                      && r.value.1 == Frames(s, s.start, s.start + s.size))
  {
    hide Retransmit, Slots, Marks, SendShape;
    Bounds(s, queued, s.sendTime, sent);
    RetransmitKeeps(s, queued, s.sendTime, sent, s.start, s.size, now);
    var r := Retransmit(s, s.sendTime, s.start, s.size, now);
    if r.Some? {
      TimesKeep(s, queued, r.value.0, Max(sent, s.start + s.size));
    }
  }

  lemma TickSends(s: SendSide, queued: seq<Message>, sent: int, now: nat)
    requires SendInv(s, queued, sent) && s.size > 0 && !Expired(s, now)
    ensures Tick(s, now).Some? && var (s', frames) := Tick(s, now).value;
      && SendInv(s', queued, TickMark(s, sent, now))
      && s' == s.(sendTime := s'.sendTime)
      && frames == Frames(s, sent, TickMark(s, sent, now))
  {
    var stop := Succ(s.start + s.size);
    var hi := if s.start <= stop then stop else LAST_SEQ + 1;
    var sent' := TickMark(s, sent, now);
    var r := FirstSend(s, s.sendTime, s.start, stop, 0, now);
    assert sent' == NewMark(s, sent, hi, s.size) by {
      hide Slots, Marks, FirstSend;
    }
    hide Tick, FirstSend, Expired;
    TickUnfolds(s, now);
    FirstSendSkips(s, queued, s.sendTime, sent, s.start, Min(sent, hi), stop, now);
    if sent <= hi {
      FirstSendNew(s, queued, s.sendTime, sent, stop, hi, 0, now);
    }
    assert Marks(s, r.0, sent') && r.1 == Frames(s, sent, sent');
    TimesKeep(s, queued, r.0, sent');
    hide Slots, Marks;
  }

  /** When number k was last transmitted, or -1. */
  function Stamp(s: SendSide, k: int): int
    requires SendShape(s)
  {
    if 0 <= k <= LAST_SEQ && s.index[k] >= 0 then s.sendTime[s.index[k]] else -1
  }

  /** Some outstanding number was last transmitted five seconds ago or earlier. */
  predicate Overdue(s: SendSide, now: int)
    requires SendShape(s)
  {
    exists k :: s.start <= k < s.nextSeq && Stamp(s, k) != -1 && now - Stamp(s, k) >= 5
  }

  lemma OverdueExpires(s: SendSide, queued: seq<Message>, sent: int, now: nat)
    requires SendInv(s, queued, sent)
    ensures Overdue(s, now) <==> Expired(s, now)
  {
    if Overdue(s, now) {
      var k :| s.start <= k < s.nextSeq && Stamp(s, k) != -1 && now - Stamp(s, k) >= 5;
      assert s.sendTime[s.index[k]] != -1;
    }
    if Expired(s, now) {
      var j :| 0 <= j < SLOTS && s.sendTime[j] != -1 && now - s.sendTime[j] >= TIMEOUT;
      assert !s.free[j];
      assert Stamp(s, s.buffer[j].seqNum as int) == s.sendTime[j];
    }
  }

  /** One tick of thread S times out exactly when some outstanding message was sent five seconds ago or earlier. It is
      undefined exactly when a timeout meets a window larger than the backlog; otherwise it changes only time stamps,
      what it transmits is one stretch of the outstanding queue no longer than the window (from the front on a timeout,
      from the first unsent message otherwise), and the sent messages stay a prefix that overshoots the window by at
      most one. */
  lemma TickKeeps(s: SendSide, queued: seq<Message>, sent: int, now: nat)
    requires SendInv(s, queued, sent)
    ensures Expired(s, now) <==> Overdue(s, now)
    ensures var r := Tick(s, now); var sent' := TickMark(s, sent, now);
      && (r.None? <==> Expired(s, now) && |Outstanding(s)| < s.size)
      && (r.Some? ==>
            && SendInv(r.value.0, queued, sent')
            && r.value.0 == s.(sendTime := r.value.0.sendTime)
            && |r.value.1| <= s.size
            && sent <= sent' <= Max(sent, s.start + s.size + 1)
            && r.value.1 == if s.size > 0 && Expired(s, now) then Frames(s, s.start, s.start + s.size)
                            else Frames(s, sent, sent'))
  {
    hide Overdue, Expired, Slots, Marks, Retransmit, FirstSend;
    OverdueExpires(s, queued, sent, now);
    Bounds(s, queued, s.sendTime, sent);
    if s.size > 0 {
      if Expired(s, now) {
        TickRetransmits(s, queued, sent, now);
      } else {
        TickSends(s, queued, sent, now);
      }
    }
  }

  // ---------------------------------------------------------------- what a tick sends, and when

  // Two outstanding numbers have different slots.
  lemma SlotsDiffer(s: SendSide, queued: seq<Message>, i: int, k: int)
    requires Slots(s, queued) && s.start <= i < s.nextSeq && s.start <= k < s.nextSeq
    ensures s.index[i] >= 0 && s.index[k] >= 0 && (s.index[i] == s.index[k] ==> i == k)
  {
    assert Live(s, i, queued) && Live(s, k, queued);
  }

  lemma {:induction false} RetransmitStamps(
    s: SendSide, queued: seq<Message>, times: seq<int>, k: int, n: nat, now: nat, i: int)
    requires Slots(s, queued) && |times| == SLOTS && s.start <= k && k + n <= s.nextSeq
    requires s.start <= i < s.nextSeq && s.index[i] >= 0
    ensures var r := Retransmit(s, times, k, n, now);
      r.Some? && r.value.0[s.index[i]] == if k <= i < k + n then now else times[s.index[i]]
    decreases n
  {
    if n > 0 {
      SlotsDiffer(s, queued, i, k);
      hide Slots;
      RetransmitStamps(s, queued, times[s.index[k] := now], k + 1, n - 1, now, i);
    }
  }

  lemma {:induction false} FirstSendStamps(
    s: SendSide, times: seq<int>, k: int, stop: int, cnt: int, now: nat, j: int)
    requires SendShape(s) && |times| == SLOTS && 1 <= k <= LAST_SEQ && 1 <= stop <= LAST_SEQ && 0 <= j < SLOTS
    ensures times[j] != -1 ==> FirstSend(s, times, k, stop, cnt, now).0[j] == times[j]
    ensures FirstSend(s, times, k, stop, cnt, now).0[j] in {times[j], now}
    decreases Distance(k, stop)
  {
    if k != stop && cnt != s.size {
      if s.index[k] >= 0 && times[s.index[k]] == -1 {
        FirstSendStamps(s, times[s.index[k] := now], Succ(k), stop, cnt + 1, now, j);
      } else {
        FirstSendStamps(s, times, Succ(k), stop, cnt, now, j);
      }
    }
  }

  lemma {:induction false} FramesSlice(s: SendSide, from: int, k: int, end: int)
    requires SendShape(s) && from <= k <= end <= s.nextSeq
    ensures Frames(s, k, end) == Frames(s, from, s.nextSeq)[k - from..end - from]
    decreases k - from, end - k
  {
    hide Frames, FrameAt;
    FramesCons(s, from, s.nextSeq);
    FramesCons(s, k, end);
    if k < end || from < k {
      SliceCons(FrameAt(s, from), Frames(s, from + 1, s.nextSeq), k - from, end - from);
      FramesSlice(s, from + 1, if from < k then k else k + 1, end);
    }
  }

  lemma SliceCons(f: Frame, rest: seq<Frame>, i: nat, j: nat)
    requires i <= j <= |rest| + 1 && j > 0
    ensures ([f] + rest)[i..j] == if i == 0 then [f] + rest[..j - 1] else rest[i - 1..j - 1]
  {
  }

  // How many messages a tick without a timeout sends when u of the q outstanding ones were sent before.
  function NewCount(size: int, q: int, u: int): int {
    if size <= 0 || u >= q || u > size then 0 else Min(size, Min(q, size + 1) - u)
  }

  /** With a message overdue, a tick sends the first messages of the queue, as many as the window says, again, and
      stamps them with the present time. */
  lemma TickOverdue(s: SendSide, queued: seq<Message>, sent: int, now: nat)
    requires SendInv(s, queued, sent) && Overdue(s, now)
    ensures var r := Tick(s, now);
      && (r.Some? <==> s.size <= |Outstanding(s)|)
      && (r.Some? ==> var (s', frames) := r.value;
            && s' == s.(sendTime := s'.sendTime)
            && frames == Outstanding(s)[..s.size]
            && forall k :: s.start <= k < s.nextSeq ==>
                 Stamp(s', k) == if k < s.start + s.size then now else Stamp(s, k))
  {
    hide Tick, Retransmit, Overdue, Expired, Marks, Slots, Stamp, Frames;
    Bounds(s, queued, s.sendTime, sent);
    OverdueExpires(s, queued, sent, now);
    TickKeeps(s, queued, sent, now);
    FramesLength(s);
    if s.size == 0 {
      TickClosed(s, now);
    } else if s.size <= |Outstanding(s)| {
      FramesSlice(s, s.start, s.start, s.start + s.size);
      forall k | s.start <= k < s.nextSeq
        ensures Stamp(Tick(s, now).value.0, k) == if k < s.start + s.size then now else Stamp(s, k)
      {
        OverdueStamp(s, queued, sent, now, k);
      }
    }
  }

  lemma FramesLength(s: SendSide)
    requires SendShape(s)
    ensures |Outstanding(s)| == Max(0, s.nextSeq - s.start)
  {
  }

  lemma OverdueStamp(s: SendSide, queued: seq<Message>, sent: int, now: nat, k: int)
    requires SendInv(s, queued, sent) && Expired(s, now) && 0 < s.size && s.start + s.size <= s.nextSeq
    requires s.start <= k < s.nextSeq
    ensures Tick(s, now).Some? && Stamp(Tick(s, now).value.0, k) == if k < s.start + s.size then now else Stamp(s, k)
  {
    hide Tick, Retransmit, Expired, Marks;
    assert Live(s, k, queued);
    TickUnfolds(s, now);
    RetransmitStamps(s, queued, s.sendTime, s.start, s.size, now, k);
  }

  lemma TickClosed(s: SendSide, now: int)
    requires SendShape(s) && s.size == 0
    ensures Tick(s, now) == Some((s, []))
  {
  }

  lemma MarkCount(s: SendSide, queued: seq<Message>, sent: int, now: int)
    requires SendInv(s, queued, sent) && !Expired(s, now)
    ensures TickMark(s, sent, now) == sent + NewCount(s.size, s.nextSeq - s.start, sent - s.start)
    ensures sent <= TickMark(s, sent, now) <= s.nextSeq
  {
  }

  // Only fresh stamps are written, and only on messages that had none.
  lemma TickStamps(s: SendSide, queued: seq<Message>, sent: int, now: nat, k: int)
    requires SendInv(s, queued, sent) && !Expired(s, now) && s.start <= k < s.nextSeq
    ensures Tick(s, now).Some? && var s' := Tick(s, now).value.0;
      Stamp(s', k) == if sent <= k < TickMark(s, sent, now) then now else Stamp(s, k)
  {
    hide Retransmit, FirstSend, Expired, Tick, TickMark;
    assert Live(s, k, queued);
    TickKeeps(s, queued, sent, now);
    if s.size > 0 {
      TickUnfolds(s, now);
      FirstSendStamps(s, s.sendTime, s.start, Succ(s.start + s.size), 0, now, s.index[k]);
    } else {
      TickClosed(s, now);
      assert TickMark(s, sent, now) == sent by {
        MarkCount(s, queued, sent, now);
      }
    }
  }

  /** With nothing overdue, a tick sends messages that were never sent before and no other: a stretch from the first of
      them, no longer than the window and at most one past it, stamped with the present time. */
  lemma TickNew(s: SendSide, queued: seq<Message>, sent: int, now: nat)
    requires SendInv(s, queued, sent) && !Overdue(s, now)
    ensures forall k :: s.start <= k < s.nextSeq ==> (Stamp(s, k) == -1 <==> sent <= k)
    ensures var r := Tick(s, now); var q := Outstanding(s); var u := sent - s.start; var n := NewCount(s.size, |q|, u);
      && r.Some? && var (s', frames) := r.value;
      && s' == s.(sendTime := s'.sendTime)
      && 0 <= u <= u + n <= |q| && frames == q[u..u + n]
      && forall k :: s.start <= k < s.nextSeq ==> Stamp(s', k) == if sent <= k < sent + n then now else Stamp(s, k)
  {
    hide Tick, FirstSend, Overdue, Expired, TickMark, Slots, Marks, Stamp, NewCount;
    OverdueExpires(s, queued, sent, now);
    TickKeeps(s, queued, sent, now);
    Bounds(s, queued, s.sendTime, sent);
    MarkCount(s, queued, sent, now);
    FramesSlice(s, s.start, sent, TickMark(s, sent, now));
    forall k | s.start <= k < s.nextSeq
      ensures Stamp(s, k) == -1 <==> sent <= k
      ensures Stamp(Tick(s, now).value.0, k) == if sent <= k < TickMark(s, sent, now) then now else Stamp(s, k)
    {
      StampMarks(s, queued, sent, k);
      TickStamps(s, queued, sent, now, k);
    }
  }

  lemma StampMarks(s: SendSide, queued: seq<Message>, sent: int, k: int)
    requires SendInv(s, queued, sent) && s.start <= k < s.nextSeq
    ensures Stamp(s, k) == -1 <==> sent <= k
  {
    assert Live(s, k, queued);
  }

  /** Thread S sends a message again exactly when some outstanding message is overdue; it then sends the first of the
      window. */
  lemma ResendsExactlyWhenOverdue(s: SendSide, queued: seq<Message>, sent: int, now: nat)
    requires SendInv(s, queued, sent) && Tick(s, now).Some? && s.size > 0
    ensures (exists k :: s.start <= k < s.nextSeq && Stamp(s, k) != -1 && FrameAt(s, k) in Tick(s, now).value.1)
      <==> Overdue(s, now)
  {
    hide Tick;
    var frames := Tick(s, now).value.1;
    if Overdue(s, now) {
      TickOverdue(s, queued, sent, now);
      var k :| s.start <= k < s.nextSeq && Stamp(s, k) != -1;
      assert Live(s, k, queued);
      assert Live(s, s.start, queued);
      assert frames[0] == FrameAt(s, s.start);
    } else {
      TickNew(s, queued, sent, now);
      OverdueExpires(s, queued, sent, now);
      TickKeeps(s, queued, sent, now);
      FramesGenuine(s, queued, sent, TickMark(s, sent, now));
      forall k | s.start <= k < s.nextSeq && Stamp(s, k) != -1 ensures FrameAt(s, k) !in frames {
        assert Live(s, k, queued);
      }
    }
  }

  lemma {:induction false} FramesGenuine(s: SendSide, queued: seq<Message>, k: int, end: int)
    requires Slots(s, queued) && s.start <= k && end <= s.nextSeq
    ensures forall f :: f in Frames(s, k, end) ==> Genuine(f, queued) && k <= f.seqNum as int < end
    decreases end - k
  {
    if k < end {
      assert Live(s, k, queued);
      FramesGenuine(s, queued, k + 1, end);
    }
  }
}
