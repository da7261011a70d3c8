/** The first KTP: k_sendto retransmits one frame until its acknowledgement arrives; the sequence number is one byte. */
module StopAndWait {
  import opened Common

  const MESSAGE_SIZE: int := 512
  const HEADER_SIZE: int := 4
  const FRAME_DATA: byte := 0
  const FRAME_ACK: byte := 1

  type Message = seq<byte>

  // "EOF", "EOF_ACK", "FIN", "FIN_ACK" and "ACK".
  const EOF: seq<byte> := [69, 79, 70]
  const EOF_ACK: seq<byte> := [69, 79, 70, 95, 65, 67, 75]
  const FIN: seq<byte> := [70, 73, 78]
  const FIN_ACK: seq<byte> := [70, 73, 78, 95, 65, 67, 75]
  const ACK_PAYLOAD: seq<byte> := [65, 67, 75]

  // ---------------------------------------------------------------- frames

  /** The packed header: type, sequence number and the 16-bit length in the byte order of both (x86) ends. */
  function Encode(kind: byte, seqNum: byte, payload: seq<byte>): (raw: seq<byte>)
    requires |payload| < 65536
  {
    [kind, seqNum, |payload| % 256, |payload| / 256] + payload
  }

  function DataFrame(seqNum: byte, message: Message): seq<byte>
    requires |message| <= MESSAGE_SIZE - HEADER_SIZE
  {
    Encode(FRAME_DATA, seqNum, message)
  }

  function AckFrame(seqNum: byte): seq<byte> {
    Encode(FRAME_ACK, seqNum, ACK_PAYLOAD)
  }

  /** Messages that k_sendto passes on unframed and unacknowledged. */
  predicate IsControl(message: Message) {
    || (|message| == 4 && EOF <= message)
    || (|message| >= 7 && EOF_ACK <= message)
    || (|message| == 3 && FIN <= message)
    || (|message| >= 7 && FIN_ACK <= message)
    || (|message| == HEADER_SIZE + 3 && message[0] == FRAME_ACK)
  }

  predicate IsData(message: Message) {
    !IsControl(message) && |message| <= MESSAGE_SIZE - HEADER_SIZE
  }

  /** What ends the sender's loop. */
  predicate Acknowledges(raw: seq<byte>, seqNum: byte) {
    |raw| >= HEADER_SIZE && raw[0] == FRAME_ACK && raw[1] == seqNum
  }

  /** What k_recvfrom makes of one packet. */
  datatype Received =
    | Control(raw: seq<byte>)                    // handed to the caller as it is
    | Ignored                                    // simulated loss, or too short: the call fails
    | Data(payload: seq<byte>, ack: seq<byte>)   // payload to the caller, ack to the wire
    | Malformed                                  // a length field beyond the packet: stale bytes, not modelled

  function KRecv(raw: seq<byte>, drop: bool): Received {
    if |raw| >= 3 && (EOF <= raw || EOF_ACK <= raw || FIN <= raw || FIN_ACK <= raw) then Control(raw)
    else if drop then Ignored
    else if |raw| < HEADER_SIZE then Ignored
    else if raw[0] != FRAME_DATA then Control(raw)
    else
      var length: int := raw[2] as int + 256 * raw[3] as int;
      if HEADER_SIZE + length > |raw| then Malformed
      else Data(raw[HEADER_SIZE..HEADER_SIZE + length], AckFrame(raw[1]))
  }

  /** Framing round trip: every data frame is unframed to the very message, and its acknowledgement matches exactly the
      sequence number it was sent under. */
  lemma FrameRoundTrip(seqNum: byte, other: byte, message: Message)
    requires |message| <= MESSAGE_SIZE - HEADER_SIZE
    ensures KRecv(DataFrame(seqNum, message), false) == Data(message, AckFrame(seqNum))
    ensures KRecv(DataFrame(seqNum, message), true) == Ignored
    ensures |DataFrame(seqNum, message)| <= MESSAGE_SIZE
    ensures Acknowledges(AckFrame(seqNum), other) <==> other == seqNum
  {
    var raw := DataFrame(seqNum, message);
    assert raw[0] == FRAME_DATA;
    assert raw[2] as int + 256 * raw[3] as int == |message|;
    assert raw[HEADER_SIZE..HEADER_SIZE + |message|] == message;
  }

  /** Which messages bypass the framing: FIN itself, EOF with one more byte, anything that starts with EOF_ACK or
      FIN_ACK, and seven bytes that start like an acknowledgement. The receiver hands each of them over as it is. */
  lemma ControlExactly(message: Message)
    ensures IsControl(message) <==>
      || message == [70, 73, 78]
      || (|message| == 4 && message[..3] == [69, 79, 70])
      || (|message| >= 7 && message[..7] == [69, 79, 70, 95, 65, 67, 75])
      || (|message| >= 7 && message[..7] == [70, 73, 78, 95, 65, 67, 75])
      || (|message| == 7 && message[0] == 1)
    ensures IsControl(message) ==> KRecv(message, false) == Control(message)
  {
    assert EOF <= message <==> |message| >= 3 && message[..3] == [69, 79, 70];
    assert FIN <= message && |message| == 3 <==> message == [70, 73, 78];
    assert EOF_ACK <= message <==> |message| >= 7 && message[..7] == [69, 79, 70, 95, 65, 67, 75];
    assert FIN_ACK <= message <==> |message| >= 7 && message[..7] == [70, 73, 78, 95, 65, 67, 75];
  }

  /** k_recvfrom takes a payload from a packet exactly when the packet, not dropped, begins with the data frame of that
      payload; what it acknowledges is the number in that frame. */
  lemma DataExactly(raw: seq<byte>, drop: bool, number: byte, payload: seq<byte>)
    requires |payload| < 65536
    ensures KRecv(raw, drop) == Data(payload, AckFrame(number)) <==> !drop && Encode(FRAME_DATA, number, payload) <= raw
  {
    FramesStart(number, payload, raw);
    NotControl(raw);
    assert AckFrame(number)[1] == number;
    assert |raw| >= HEADER_SIZE ==> AckFrame(raw[1])[1] == raw[1];
  }

  /** What k_recvfrom makes of any packet: one that starts with EOF or FIN is handed over and never dropped; of the
      others, one that is dropped or shorter than a header fails, one of another kind than data is handed over as it is,
      and data is acknowledged with seven bytes that carry its number. */
  lemma ReceivedExactly(raw: seq<byte>, drop: bool)
    ensures var marked := |raw| >= 3 && (raw[..3] == [69, 79, 70] || raw[..3] == [70, 73, 78]);
      && (KRecv(raw, drop) == Control(raw) <==> marked || (!drop && |raw| >= 4 && raw[0] != 0))
      && (KRecv(raw, drop) == Ignored <==> !marked && (drop || |raw| < 4))
      && (KRecv(raw, drop).Data? ==> KRecv(raw, drop).ack == [1, raw[1], 3, 0, 65, 67, 75])
  {
    assert EOF <= raw <==> |raw| >= 3 && raw[..3] == [69, 79, 70];
    assert FIN <= raw <==> |raw| >= 3 && raw[..3] == [70, 73, 78];
    assert EOF_ACK <= raw ==> raw[..3] == EOF_ACK[..3] && EOF_ACK[..3] == [69, 79, 70];
    assert FIN_ACK <= raw ==> raw[..3] == FIN_ACK[..3] && FIN_ACK[..3] == [70, 73, 78];
    AckBytes();
    hide AckFrame;
  }

  lemma AckBytes()
    ensures forall n: byte :: AckFrame(n) == [1, n, 3, 0, 65, 67, 75]
  {
  }

  lemma FramesStart(number: byte, payload: seq<byte>, raw: seq<byte>)
    requires |payload| < 65536
    ensures Encode(FRAME_DATA, number, payload) <= raw <==>
      && |raw| >= 4 + |payload| && raw[0] == 0 && raw[1] == number
      && raw[2] as int + 256 * raw[3] as int == |payload| && raw[4..4 + |payload|] == payload
  {
    var frame := Encode(FRAME_DATA, number, payload);
    assert frame[4..] == payload && frame[0] == 0 && frame[1] == number;
    assert frame[2] as int + 256 * frame[3] as int == |payload|;
    if |raw| >= 4 + |payload| {
      assert raw[..4 + |payload|] == [raw[0], raw[1], raw[2], raw[3]] + raw[4..4 + |payload|];
      assert frame <= raw <==> raw[..|frame|] == frame;
      if frame <= raw {
        assert forall i :: 0 <= i < |frame| ==> raw[i] == frame[i];
        assert raw[4..4 + |payload|] == frame[4..];
      } else if raw[0] == 0 && raw[1] == number && raw[2] as int + 256 * raw[3] as int == |payload| {
        assert raw[2] == |payload| % 256 && raw[3] == |payload| / 256;
      }
    }
  }

  lemma NotControl(raw: seq<byte>)
    ensures raw != [] && raw[0] == 0 ==> !(EOF <= raw || EOF_ACK <= raw || FIN <= raw || FIN_ACK <= raw)
  {
    assert EOF[0] == 69 && EOF_ACK[0] == 69 && FIN[0] == 70 && FIN_ACK[0] == 70;
  }

  /** A packet ends the wait under a number exactly when it is a frame of the acknowledgement kind with that number: a
      data frame never does, whatever its number, and nothing shorter than a header does. */
  lemma AcknowledgesExactly(kind: byte, number: byte, payload: seq<byte>, raw: seq<byte>, seqNum: byte)
    requires |payload| < 65536
    ensures Acknowledges(Encode(kind, number, payload), seqNum) <==> kind == 1 && number == seqNum
    ensures |raw| < 4 ==> !Acknowledges(raw, seqNum)
  {
    var frame := Encode(kind, number, payload);
    assert frame[0] == kind && frame[1] == number;
  }

  // ---------------------------------------------------------------- k_sendto

  /** What the sender meets after each transmission. */
  datatype Event = Timeout | SelectError | Packet(raw: seq<byte>)

  datatype Outcome = Waiting | Failed | Returned(n: nat)

  /** The result of the reliability loop over these events, and how often it transmitted the frame. */
  function Loop(seqNum: byte, n: nat, events: seq<Event>): (r: (Outcome, nat)) {
    if events == [] then (Waiting, 1)
    else
      match events[0]
      case SelectError => (Failed, 1)
      case Packet(raw) =>
        if Acknowledges(raw, seqNum) then (Returned(n), 1)
        else var (o, count) := Loop(seqNum, n, events[1..]); (o, count + 1)
      case Timeout => var (o, count) := Loop(seqNum, n, events[1..]); (o, count + 1)
  }

  class KSocket {
    var nextSeq: byte

    constructor ()
      ensures nextSeq == 0
    {
      nextSeq := 0;
    }

    /** k_sendto on a bound socket, for as long as there are events; `sent` is everything put on the wire. */
    method KSendTo(message: Message, events: seq<Event>) returns (r: Outcome, sent: seq<seq<byte>>)
      modifies this
      ensures IsControl(message) ==> r == Returned(|message|) && sent == [message] && nextSeq == old(nextSeq)
      ensures !IsControl(message) && !IsData(message) ==> r == Failed && sent == [] && nextSeq == old(nextSeq)
      ensures IsData(message) ==>
        && r == Loop(old(nextSeq), |message|, events).0
        && |sent| == Loop(old(nextSeq), |message|, events).1
        && (forall i :: 0 <= i < |sent| ==> sent[i] == DataFrame(old(nextSeq), message))
        && nextSeq == if r.Returned? then (old(nextSeq) + 1) % 256 else old(nextSeq)
    {
      if IsControl(message) {
        return Returned(|message|), [message];
      }
      if |message| > MESSAGE_SIZE - HEADER_SIZE {
        return Failed, [];
      }
      var frame := DataFrame(nextSeq, message);
      sent := [];
      var ackReceived := false;
      var next := 0;
      ghost var all := Loop(nextSeq, |message|, events);
      while !ackReceived
        invariant 0 <= next <= |events| && nextSeq == old(nextSeq)
        invariant forall i :: 0 <= i < |sent| ==> sent[i] == frame
        invariant ackReceived ==> all == (Returned(|message|), |sent|)
        invariant !ackReceived ==> var rest := Loop(nextSeq, |message|, events[next..]);
          all == (rest.0, |sent| + rest.1)
        decreases !ackReceived, |events| - next
      {
        sent := sent + [frame];
        if next == |events| {
          return Waiting, sent;
        }
        var event := events[next];
        assert events[next..][1..] == events[next + 1..];
        next := next + 1;
        if event.Timeout? {
          continue;
        } else if event.SelectError? {
          return Failed, sent;
        }
        if Acknowledges(event.raw, nextSeq) {
          ackReceived := true;
        }
      }
      nextSeq := (nextSeq + 1) % 256;
      r := Returned(|message|);
    }
  }

  // An event that ends the loop.
  predicate Ending(event: Event, seqNum: byte) {
    event.SelectError? || (event.Packet? && Acknowledges(event.raw, seqNum))
  }

  /** k_sendto transmits once per event up to the first one that ends its loop, and once more if there is none. It
      returns exactly when that event acknowledges its own number, fails exactly when it is an error of select, and is
      still waiting exactly when no event ends the loop. */
  lemma {:induction false} ReturnsExactlyOnMatch(seqNum: byte, n: nat, events: seq<Event>)
    ensures var (o, count) := Loop(seqNum, n, events);
      && 1 <= count <= |events| + 1
      && (forall i :: 0 <= i < count - 1 ==> !Ending(events[i], seqNum))
      && (count <= |events| ==> Ending(events[count - 1], seqNum))
      && (o == Waiting <==> count == |events| + 1)
      && (o == Failed <==> count <= |events| && events[count - 1].SelectError?)
      && (o == Returned(n) <==> count <= |events| && events[count - 1].Packet?)
    decreases |events|
  {
    hide Acknowledges;
    if events != [] {
      ReturnsExactlyOnMatch(seqNum, n, events[1..]);
      assert forall i :: 0 < i < |events| ==> events[i] == events[1..][i - 1];
    }
  }
}
