/** The shared-memory entry of one KTP socket, updated in place. Each method is one critical section of sem_SM and is
    proved against the function of the same step on the entry's value. */
module KtpEntry {
  import opened Common
  import opened KtpBase
  import opened KtpSender
  import opened KtpReceiver

  /** The whole loop's result is what was transmitted so far followed by the result of the rest. */
  ghost predicate RetransmitResumes(
    all: Option<(seq<int>, seq<Frame>)>, sent: seq<Frame>, rest: Option<(seq<int>, seq<Frame>)>)
  {
    && (all.Some? <==> rest.Some?)
    && (rest.Some? ==> all.value.0 == rest.value.0 && all.value.1 == sent + rest.value.1)
  }

  lemma RetransmitContinues(
    all: Option<(seq<int>, seq<Frame>)>, sent: seq<Frame>, s: SendSide, times: seq<int>, k: int, n: nat, now: int)
    requires SendShape(s) && |times| == SLOTS && 1 <= k <= LAST_SEQ
    requires RetransmitResumes(all, sent, Retransmit(s, times, k, n, now))
    ensures n == 0 ==> all == Some((times, sent))
    ensures n > 0 && s.index[k] < 0 ==> all == None
    ensures n > 0 && s.index[k] >= 0 ==>
      RetransmitResumes(all, sent + [s.buffer[s.index[k]]],
                        Retransmit(s, times[s.index[k] := now], Succ(k), n - 1, now))
  {
    assert sent + [] == sent;
  }

  ghost predicate FirstSendResumes(all: (seq<int>, seq<Frame>), sent: seq<Frame>, rest: (seq<int>, seq<Frame>)) {
    all.0 == rest.0 && all.1 == sent + rest.1
  }

  lemma FirstSendContinues(
    all: (seq<int>, seq<Frame>), sent: seq<Frame>, s: SendSide, times: seq<int>, k: int, stop: int, cnt: int, now: int)
    requires SendShape(s) && |times| == SLOTS && 1 <= k <= LAST_SEQ && 1 <= stop <= LAST_SEQ
    requires FirstSendResumes(all, sent, FirstSend(s, times, k, stop, cnt, now))
    ensures k == stop || cnt == s.size ==> all == (times, sent)
    ensures k != stop && cnt != s.size ==>
      if s.index[k] >= 0 && times[s.index[k]] == -1 then
        FirstSendResumes(all, sent + [s.buffer[s.index[k]]],
                         FirstSend(s, times[s.index[k] := now], Succ(k), stop, cnt + 1, now))
      else FirstSendResumes(all, sent, FirstSend(s, times, Succ(k), stop, cnt, now))
  {
    assert sent + [] == sent;
  }

  // The first steps numbers from first on are all accepted.
  predicate AcceptedFor(valid: seq<bool>, first: int, steps: nat)
    requires |valid| == LAST_SEQ + 1 && 1 <= first <= LAST_SEQ
  {
    forall k :: 1 <= k <= LAST_SEQ && Distance(first, k) < steps ==> !valid[k]
  }

  lemma NothingPassed(valid: seq<bool>, first: int)
    requires |valid| == LAST_SEQ + 1 && 1 <= first <= LAST_SEQ
    ensures AcceptedFor(valid, first, 0)
  {
  }

  lemma AdvanceStep(valid: seq<bool>, first: int, k: int, steps: nat)
    requires |valid| == LAST_SEQ + 1 && 1 <= first <= LAST_SEQ && 1 <= k <= LAST_SEQ && steps <= LAST_SEQ
    requires AcceptedFor(valid, first, steps)
    requires k == if first + steps <= 255 then first + steps else first + steps - 255
    ensures valid[k] ==> SomeOpen(valid) && Advance(valid, k, LAST_SEQ - steps) == k
    ensures steps == LAST_SEQ ==> !SomeOpen(valid)
    ensures !valid[k] && steps < LAST_SEQ ==>
      AcceptedFor(valid, first, steps + 1)
      && Advance(valid, k, LAST_SEQ - steps) == Advance(valid, Succ(k), LAST_SEQ - steps - 1)
  {
  }

  class SharedMemoryEntry {
    const sendBuffer: array<Frame>
    const sbuffFree: array<bool>
    const swndIndex: array<int>
    const sendTime: array<int>
    var swndSize: int
    var swndStart: int
    var maxSeqNumberYet: int

    const recvBuffer: array<Frame>
    const rbuffFree: array<bool>
    const rwndIndex: array<int>
    const rwndValid: array<bool>
    var rwndSize: int
    var rwndStart: int
    var noSpaceFlags: bool

    // Written by both roles: the reason traffic has to flow in one direction only.
    var lastAckReceived: int

    ghost predicate Valid()
      reads this, sendBuffer, sbuffFree, swndIndex, sendTime, recvBuffer, rbuffFree, rwndIndex, rwndValid
    {
      && sendBuffer != recvBuffer
      && sbuffFree != rbuffFree && sbuffFree != rwndValid && rbuffFree != rwndValid
      && swndIndex != rwndIndex && swndIndex != sendTime && rwndIndex != sendTime
      && SendShape(SendView()) && RecvShape(RecvView())
    }

    ghost function SendView(): SendSide
      reads this, sendBuffer, sbuffFree, swndIndex, sendTime
    {
      SendSide(sendBuffer[..], sbuffFree[..], swndIndex[..], swndSize, swndStart, maxSeqNumberYet, sendTime[..],
               lastAckReceived)
    }

    ghost function RecvView(): RecvSide
      reads this, recvBuffer, rbuffFree, rwndIndex, rwndValid
    {
      RecvSide(recvBuffer[..], rbuffFree[..], rwndIndex[..], rwndValid[..], rwndSize, rwndStart, lastAckReceived,
               noSpaceFlags)
    }

    /** init_ksocket for one entry. */
    constructor ()
      ensures Valid()
      ensures SendView() == InitSend() && RecvView() == InitRecv()
      ensures fresh(sendBuffer) && fresh(sbuffFree) && fresh(swndIndex) && fresh(sendTime)
      ensures fresh(recvBuffer) && fresh(rbuffFree) && fresh(rwndIndex) && fresh(rwndValid)
    {
      sendBuffer := new Frame[10](_ => ZeroFrame());
      sbuffFree := new bool[10](_ => true);
      swndIndex := new int[256](_ => -1);
      sendTime := new int[10](_ => -1);
      recvBuffer := new Frame[10](_ => ZeroFrame());
      rbuffFree := new bool[10](_ => true);
      rwndIndex := new int[256](_ => -1);
      rwndValid := new bool[256](_ => true);
      swndSize, swndStart, maxSeqNumberYet := 10, 1, 1;
      rwndSize, rwndStart, noSpaceFlags := 10, 1, false;
      lastAckReceived := 0;
      new;
      var s, r := InitSend(), InitRecv();
      assert sendBuffer[..] == s.buffer && sbuffFree[..] == s.free;
      assert swndIndex[..] == s.index && sendTime[..] == s.sendTime;
      assert recvBuffer[..] == r.buffer && rbuffFree[..] == r.free;
      assert rwndIndex[..] == r.index && rwndValid[..] == r.valid;
    }

    method KSendTo(message: Message, stack: seq<byte>) returns (r: int)
      requires Valid() && |stack| == BODY_SIZE
      modifies this`maxSeqNumberYet, sendBuffer, sbuffFree, swndIndex
      ensures Valid()
      ensures (SendView(), r) == SendTo(old(SendView()), message, stack)
      ensures RecvView() == old(RecvView())
    {
      if |message| > MAX_MESSAGE {
        return -1;
      }
      var freeIndex := -1;
      var i := 0;
      while i < 10
        invariant 0 <= i <= 10
        invariant freeIndex == -1 && FirstSet(sbuffFree[..], 0) == FirstSet(sbuffFree[..], i)
      {
        if sbuffFree[i] {
          freeIndex := i;
          break;
        }
        i := i + 1;
      }
      if freeIndex == -1 {
        return -1;
      }
      var seqNum := maxSeqNumberYet;
      maxSeqNumberYet := 1 + maxSeqNumberYet % 255;
      var seqMessage := MakeFrame(seqNum, freeIndex, message, stack);
      swndIndex[seqNum] := freeIndex;
      sbuffFree[freeIndex] := false;
      sendBuffer[freeIndex] := seqMessage;
      return |message|;
    }

    method ReleaseSlot(j: int)
      requires Valid() && 1 <= j <= 255 && swndIndex[j] >= 0
      modifies sendBuffer, sbuffFree, swndIndex, sendTime
      ensures Valid()
      ensures SendView().(start := Succ(j)) == DropOne(old(SendView()).(start := j))
      ensures SendView().start == old(SendView()).start
      ensures RecvView() == old(RecvView())
    {
      var slot := swndIndex[j];
      sendBuffer[slot] := ZeroFrame();
      sendTime[slot] := -1;
      sbuffFree[slot] := true;
      swndIndex[j] := -1;
    }

    /** Thread R gets an acknowledgement. The result is false when the release loop would index a buffer with -1: from
        there on the behaviour is undefined and nothing is promised. */
    method ReceiveAck(ackedSeqNum: int, remoteWindowSize: int) returns (ok: bool)
      requires Valid()
      modifies this`swndSize, this`swndStart, this`lastAckReceived, sendBuffer, sbuffFree, swndIndex, sendTime
      ensures var r := ProcessAck(old(SendView()), Ack(ackedSeqNum, remoteWindowSize));
        (ok <==> r.Some?) && (ok ==> Valid() && SendView() == r.value)
      ensures RecvView() == old(RecvView()).(lastAck := lastAckReceived)
    {
      if ackedSeqNum <= 0 || ackedSeqNum > 255 {
        return true;
      }
      if remoteWindowSize < 0 || remoteWindowSize > 10 {
        return true;
      }
      swndSize := remoteWindowSize;
      lastAckReceived := if ackedSeqNum > lastAckReceived then ackedSeqNum else lastAckReceived;
      ok := ReleaseThrough();
    }

    method ReleaseThrough() returns (ok: bool)
      requires Valid()
      modifies this`swndStart, sendBuffer, sbuffFree, swndIndex, sendTime
      ensures var r := Release(old(SendView()), Succ(lastAckReceived));
        (ok <==> r.Some?) && (ok ==> Valid() && SendView() == r.value)
      ensures RecvView() == old(RecvView())
    {
      var j := swndStart;
      ghost var s := SendView();
      ghost var stop := Succ(lastAckReceived);
      while j != lastAckReceived % 255 + 1
        invariant 1 <= j <= 255
        invariant Valid() && swndStart == s.start
        invariant RecvView() == old(RecvView())
        invariant Release(SendView().(start := j), stop) == Release(s, stop)
        decreases Distance(j, stop)
      {
        ghost var before := SendView().(start := j);
        if swndIndex[j] < 0 {
          assert Release(before, stop) == None;
          return false;
        }
        ReleaseSlot(j);
        assert Release(before, stop) == Release(DropOne(before), stop);
        j := 1 + j % 255;
      }
      swndStart := j;
      assert Release(SendView(), stop) == Some(SendView());
      return true;
    }

    /** One tick of thread S on this entry. The result is false when the retransmission loop would index a buffer with
        -1: from there on the behaviour is undefined and nothing is promised. */
    method Tick(now: int) returns (ok: bool, sent: seq<Frame>)
      requires Valid()
      modifies sendTime
      ensures var r := KtpSender.Tick(old(SendView()), now);
        (ok <==> r.Some?) && (ok ==> Valid() && (SendView(), sent) == r.value)
      ensures RecvView() == old(RecvView())
    {
      sent := [];
      var timeout := false;
      var i := 0;
      while i < 10 && !timeout
        invariant 0 <= i <= 10
        invariant SendView() == old(SendView())
        invariant timeout ==> Expired(SendView(), now)
        invariant !timeout ==> forall j :: 0 <= j < i ==> !(sendTime[j] != -1 && now - sendTime[j] >= TIMEOUT)
      {
        if now - sendTime[i] >= 5 && sendTime[i] != -1 {
          timeout := true;
        }
        i := i + 1;
      }
      if swndSize == 0 {
        return true, [];
      }
      if timeout {
        ok, sent := RetransmitWindow(now);
      } else {
        sent := SendNew(now);
        ok := true;
      }
    }

    method RetransmitWindow(now: int) returns (ok: bool, sent: seq<Frame>)
      requires Valid()
      modifies sendTime
      ensures var s := old(SendView()); var r := Retransmit(s, s.sendTime, s.start, s.size, now);
        (ok <==> r.Some?) && (ok ==> Valid() && SendView() == s.(sendTime := r.value.0) && sent == r.value.1)
      ensures RecvView() == old(RecvView())
    {
      hide Retransmit;
      sent := [];
      ghost var s := SendView();
      ghost var all := Retransmit(s, s.sendTime, s.start, s.size, now);
      var k := swndStart;
      var start := k;
      var cnt := 0;
      while k != (start + swndSize) % 255 + 1 && cnt != swndSize
        invariant 0 <= cnt <= swndSize && k == Succ(start - 1 + cnt)
        invariant Valid() && SendView() == s.(sendTime := sendTime[..])
        invariant RecvView() == old(RecvView())
        invariant RetransmitResumes(all, sent, Retransmit(s, sendTime[..], k, swndSize - cnt, now))
        decreases swndSize - cnt
      {
        var index := swndIndex[k];
        RetransmitContinues(all, sent, s, sendTime[..], k, swndSize - cnt, now);
        if index < 0 {
          return false, sent;
        }
        sendTime[index] := now;
        sent := sent + [sendBuffer[index]];
        cnt := cnt + 1;
        k := k % 255 + 1;
      }
      RetransmitContinues(all, sent, s, sendTime[..], k, swndSize - cnt, now);
      ok := true;
    }

    method SendNew(now: int) returns (sent: seq<Frame>)
      requires Valid()
      modifies sendTime
      ensures Valid()
      ensures var s := old(SendView()); var r := FirstSend(s, s.sendTime, s.start, Succ(s.start + s.size), 0, now);
        SendView() == s.(sendTime := r.0) && sent == r.1
      ensures RecvView() == old(RecvView())
    {
      hide FirstSend;
      sent := [];
      ghost var s := SendView();
      var k := swndStart;
      var start := k;
      var cnt := 0;
      ghost var stop := Succ(start + swndSize);
      ghost var all := FirstSend(s, s.sendTime, k, stop, 0, now);
      while k != (start + swndSize) % 255 + 1 && cnt != swndSize
        invariant 0 <= cnt <= swndSize && 1 <= k <= 255
        invariant Valid() && SendView() == s.(sendTime := sendTime[..])
        invariant RecvView() == old(RecvView())
        invariant FirstSendResumes(all, sent, FirstSend(s, sendTime[..], k, stop, cnt, now))
        decreases Distance(k, stop)
      {
        FirstSendContinues(all, sent, s, sendTime[..], k, stop, cnt, now);
        if swndIndex[k] >= 0 && sendTime[swndIndex[k]] == -1 {
          sendTime[swndIndex[k]] := now;
          sent := sent + [sendBuffer[swndIndex[k]]];
          cnt := cnt + 1;
        }
        k := k % 255 + 1;
      }
      FirstSendContinues(all, sent, s, sendTime[..], k, stop, cnt, now);
    }

    method KRecvFrom() returns (r: Option<seq<byte>>)
      requires Valid()
      modifies this`rwndSize, recvBuffer, rbuffFree, rwndIndex, rwndValid
      ensures Valid()
      ensures var d := Deliver(old(RecvView()));
        RecvView() == d.0 && r == if d.1.None? then None else Some(Text(d.1.value.body))
      ensures SendView() == old(SendView())
    {
      var index, minSeqNum := FindLeast();
      if minSeqNum > rwndStart || minSeqNum == 257 {
        return None;
      }
      if index == -1 {
        return None;
      }
      r := Some(Text(recvBuffer[index].body));
      rbuffFree[index] := true;
      recvBuffer[index] := ZeroFrame();
      rwndSize := if rwndSize + 1 > 10 then 10 else rwndSize + 1;
      rwndIndex[minSeqNum] := -1;
      rwndValid[minSeqNum] := true;
      hide MinSlot, RecvShape, SendShape;
    }

    method FindLeast() returns (index: int, minSeqNum: int)
      requires Valid()
      ensures index == MinSlot(RecvView(), SLOTS)
      ensures minSeqNum == if index == -1 then 257 else recvBuffer[index].seqNum as int
    {
      index, minSeqNum := -1, 257;
      var i := 0;
      while i < 10
        invariant 0 <= i <= 10
        invariant index == MinSlot(RecvView(), i)
        invariant minSeqNum == if index == -1 then 257 else recvBuffer[index].seqNum as int
      {
        if !rbuffFree[i] {
          if index != -1 && recvBuffer[i].seqNum as int < minSeqNum {
            minSeqNum := recvBuffer[i].seqNum as int;
            index := i;
          } else if index == -1 {
            minSeqNum := recvBuffer[i].seqNum as int;
            index := i;
          }
        }
        i := i + 1;
      }
    }

    /** The no-space scan: the acknowledgement it puts on the wire, if any. */
    method ScanNoSpace() returns (acks: seq<Ack>)
      requires Valid()
      modifies this`noSpaceFlags
      ensures Valid()
      ensures (RecvView(), acks) == Scan(old(RecvView()))
      ensures SendView() == old(SendView())
    {
      acks := [];
      if noSpaceFlags && rwndSize > 0 {
        acks := [Ack(lastAckReceived, rwndSize)];
        noSpaceFlags := false;
      }
    }

    /** Thread R gets a data frame and does not drop it: the acknowledgements it puts on the wire. The result ends is
        false when the loop over accepted numbers goes on for ever, with sem_SM taken: from there on nothing is
        promised. */
    method ReceiveFrame(f: Frame) returns (ends: bool, acks: seq<Ack>)
      requires Valid()
      modifies this`rwndSize, this`rwndStart, this`noSpaceFlags, this`lastAckReceived
      modifies recvBuffer, rbuffFree, rwndIndex, rwndValid
      ensures var r := old(RecvView());
        ends <==> (r.start == f.seqNum as int && r.size > 0 ==> SomeOpen(r.valid[f.seqNum := false]))
      ensures ends ==> Valid()
      ensures ends ==> RecvView() == ReceiveData(old(RecvView()), f).0 && acks == ReceiveData(old(RecvView()), f).1
      ensures SendView() == old(SendView()).(lastAck := lastAckReceived)
    {
      ends, acks := true, [];
      if rwndStart == f.seqNum as int && rwndSize > 0 {
        ends, acks := AcceptFrame(f);
      } else if f.seqNum as int % 255 + 1 > rwndStart && f.seqNum as int <= (rwndStart + 9 - rwndSize) % 255 + 1 {
        StoreIfMissingEarlier(f);
      }
    }

    method StoreFrame(j: int, f: Frame)
      requires Valid() && 0 <= j < 10
      modifies this`rwndSize, this`noSpaceFlags, recvBuffer, rbuffFree, rwndIndex
      ensures Valid()
      ensures RecvView() == Store(old(RecvView()), j, f)
      ensures SendView() == old(SendView())
    {
      recvBuffer[j] := f;
      rwndIndex[f.seqNum as int] := j;
      rbuffFree[j] := false;
      rwndSize := rwndSize - 1;
      if rwndSize == 0 {
        noSpaceFlags := true;
      }
    }

    method AcceptFrame(f: Frame) returns (ends: bool, acks: seq<Ack>)
      requires Valid() && rwndStart == f.seqNum as int && rwndSize > 0
      modifies this`rwndSize, this`rwndStart, this`noSpaceFlags, this`lastAckReceived
      modifies recvBuffer, rbuffFree, rwndIndex, rwndValid
      ensures ends <==> SomeOpen(old(RecvView()).valid[f.seqNum := false])
      ensures ends ==> Valid()
      ensures ends ==> RecvView() == Accept(old(RecvView()), f) && acks == AcceptAcks(old(RecvView()), f)
      ensures SendView() == old(SendView()).(lastAck := lastAckReceived)
    {
      ghost var r := RecvView();
      acks := AckIfHeld(f.seqNum as int);
      lastAckReceived := f.seqNum as int;
      StoreFirstFree(f);
      acks := acks + [Ack(f.seqNum as int, rwndSize)];
      assert acks == AcceptAcks(r, f);
      hide AcceptAcks, Held, SomeOpen;
      ends := OpenNext(f.seqNum as int);
    }

    method OpenNext(v: int) returns (ends: bool)
      requires Valid() && 1 <= v <= 255
      modifies this`rwndStart, rwndValid
      ensures Valid()
      ensures ends <==> SomeOpen(old(RecvView()).valid[v := false])
      ensures var r := old(RecvView()); var valid := r.valid[v := false];
        ends ==> RecvView() == r.(valid := valid, start := Advance(valid, r.start, LAST_SEQ))
      ensures SendView() == old(SendView())
    {
      ghost var valid := rwndValid[..][v := false];
      rwndValid[v] := false;
      assert rwndValid[..] == valid;
      ends := AdvanceStart();
    }

    method StoreFirstFree(f: Frame)
      requires Valid()
      modifies this`rwndSize, this`noSpaceFlags, recvBuffer, rbuffFree, rwndIndex
      ensures Valid()
      ensures var r := old(RecvView()); var j := FirstSet(r.free, 0);
        RecvView() == if j < SLOTS then Store(r, j, f)
                      else r.(size := r.size - 1, noSpace := r.noSpace || r.size - 1 == 0)
      ensures SendView() == old(SendView())
    {
      var j := 0;
      while j < 10 && !rbuffFree[j]
        invariant 0 <= j <= 10
        invariant FirstSet(rbuffFree[..], 0) == FirstSet(rbuffFree[..], j)
      {
        j := j + 1;
      }
      if j < 10 {
        StoreFrame(j, f);
      } else {
        rwndSize := rwndSize - 1;
        if rwndSize == 0 {
          noSpaceFlags := true;
        }
      }
    }

    method AckIfHeld(v: int) returns (acks: seq<Ack>)
      requires Valid()
      ensures acks == if Held(RecvView(), v) then [Ack(v, rwndSize)] else []
    {
      acks := [];
      var j := 0;
      while j < 10
        invariant 0 <= j <= 10
        invariant forall i :: 0 <= i < j ==> recvBuffer[i].seqNum as int != v
      {
        if recvBuffer[j].seqNum as int == v {
          assert RecvView().buffer[j].seqNum as int == v;
          return [Ack(v, rwndSize)];
        }
        j := j + 1;
      }
    }

    /** The loop over accepted numbers. A full lap without an open number means that the source's loop never ends. */
    method AdvanceStart() returns (ends: bool)
      requires rwndValid.Length == 256 && 1 <= rwndStart <= 255
      modifies this`rwndStart
      ensures 1 <= rwndStart <= 255
      ensures ends <==> SomeOpen(rwndValid[..])
      ensures ends ==> rwndStart == Advance(rwndValid[..], old(rwndStart), LAST_SEQ)
    {
      hide Advance, SomeOpen, AcceptedFor;
      var steps := 0;
      ghost var first, valid := rwndStart, rwndValid[..];
      assert AcceptedFor(valid, first, 0) by {
        NothingPassed(valid, first);
      }
      while !rwndValid[rwndStart]
        invariant 1 <= rwndStart <= 255 && 0 <= steps <= 255
        invariant rwndStart == if first + steps <= 255 then first + steps else first + steps - 255
        invariant AcceptedFor(valid, first, steps)
        invariant Advance(valid, rwndStart, 255 - steps) == Advance(valid, first, LAST_SEQ)
        decreases 255 - steps
      {
        AdvanceStep(valid, first, rwndStart, steps);
        if steps == 255 {
          return false;
        }
        rwndStart := 1 + rwndStart % 255;
        steps := steps + 1;
      }
      AdvanceStep(valid, first, rwndStart, steps);
      ends := true;
    }

    method StoreIfMissingEarlier(f: Frame)
      requires Valid() && !(rwndStart == f.seqNum as int && rwndSize > 0)
      requires f.seqNum as int % 255 + 1 > rwndStart && f.seqNum as int <= Succ(rwndStart + 9 - rwndSize)
      modifies this`rwndSize, this`noSpaceFlags, recvBuffer, rbuffFree, rwndIndex
      ensures Valid()
      ensures RecvView() == ReceiveData(old(RecvView()), f).0
      ensures SendView() == old(SendView())
    {
      var v := f.seqNum as int;
      var backAcknowledged := true;
      var j := rwndStart;
      while j != v && backAcknowledged
        invariant rwndStart <= j <= v
        invariant backAcknowledged ==> forall k :: rwndStart <= k < j ==> !rwndValid[k]
        invariant !backAcknowledged ==> exists k :: rwndStart <= k < v && rwndValid[k]
        decreases v - j, backAcknowledged
      {
        if rwndValid[j] {
          backAcknowledged := false;
        } else {
          j := 1 + j % 255;
        }
      }
      if !backAcknowledged && rwndValid[v] {
        var startSequenceIndex := rwndIndex[rwndStart];
        var diff := (v - rwndStart + 255) % 255;
        var index := (startSequenceIndex + diff) % 10;
        if rbuffFree[index] {
          StoreFrame(index, f);
        }
      }
    }
  }
}
