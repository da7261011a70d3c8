/** Constants, wire formats and ring arithmetic shared by the two halves of a KTP socket entry. */
module KtpBase {
  import opened Common

  // Slots in each of the two message buffers of an entry.
  const SLOTS: int := 10
  // Sequence numbers run over the ring 1, 2, ..., LAST_SEQ, 1, ...
  const LAST_SEQ: int := 255
  // A 512-byte message buffer is a sequence number, a slot number and this many body bytes.
  const BODY_SIZE: int := 510
  // Longest message that still leaves room for the header and the terminating NUL.
  const MAX_MESSAGE: int := 509
  // Retransmission timeout, in seconds.
  const TIMEOUT: int := 5

  datatype Frame = Frame(seqNum: byte, slot: byte, body: seq<byte>)
  datatype Ack = Ack(seqNum: int, window: int)

  type Message = seq<byte>

  // A buffer after memset.
  function ZeroFrame(): Frame {
    Frame(0, 0, seq(BODY_SIZE, _ => 0))
  }

  // The code's 1 + s % 255, also applied to sums that run past the end of the ring.
  function Succ(s: int): (r: int)
    ensures 1 <= r <= LAST_SEQ
    ensures 0 <= s < LAST_SEQ ==> r == s + 1
    ensures LAST_SEQ <= s < 2 * LAST_SEQ ==> r == s + 1 - LAST_SEQ
  {
    1 + s % 255
  }

  // Number of Succ steps from j to k on the ring.
  function Distance(j: int, k: int): nat
    requires 1 <= j <= LAST_SEQ && 1 <= k <= LAST_SEQ
  {
    if j <= k then k - j else k - j + LAST_SEQ
  }

  function Max(x: int, y: int): int {
    if x > y then x else y
  }

  function Min(x: int, y: int): int {
    if x < y then x else y
  }

  /** The first set flag at or after position i, or the length when there is none. */
  function FirstSet(flags: seq<bool>, i: nat): (r: nat)
    requires i <= |flags|
    ensures i <= r <= |flags|
    ensures forall k :: i <= k < r ==> !flags[k]
    ensures r < |flags| ==> flags[r]
    decreases |flags| - i
  {
    if i == |flags| || flags[i] then i else FirstSet(flags, i + 1)
  }

  function Count(flags: seq<bool>): (n: nat)
    ensures n <= |flags|
  {
    if flags == [] then 0 else (if flags[0] then 1 else 0) + Count(flags[1..])
  }

  lemma {:induction false} CountUpdate(flags: seq<bool>, j: nat, v: bool)
    requires j < |flags|
    ensures Count(flags[j := v]) == Count(flags) - (if flags[j] then 1 else 0) + (if v then 1 else 0)
  {
    if j == 0 {
      assert flags[j := v][1..] == flags[1..];
    } else {
      assert flags[j := v][1..] == flags[1..][j - 1 := v];
      CountUpdate(flags[1..], j - 1, v);
    }
  }

  lemma {:induction false} CountExtremes(flags: seq<bool>)
    ensures Count(flags) == |flags| <==> forall j :: 0 <= j < |flags| ==> flags[j]
    ensures Count(flags) == 0 <==> forall j :: 0 <= j < |flags| ==> !flags[j]
  {
    if flags != [] {
      CountExtremes(flags[1..]);
      assert forall j :: 0 < j < |flags| ==> flags[j] == flags[1..][j - 1];
      assert forall j :: 0 <= j < |flags| - 1 ==> flags[1..][j] == flags[j + 1];
    }
  }

  /** What strlen and memcpy make of a buffer: the bytes before the first NUL. */
  function Text(b: seq<byte>): (t: seq<byte>)
    ensures t <= b
    ensures 0 !in t
    ensures |t| < |b| ==> b[|t|] == 0
  {
    if b == [] || b[0] == 0 then [] else [b[0]] + Text(b[1..])
  }

  /** A frame body that holds message m and its terminator; the rest of the body is uninitialised. */
  ghost predicate Carries(body: seq<byte>, m: Message) {
    && |body| == BODY_SIZE
    && |m| <= MAX_MESSAGE
    && body[..|m|] == m
    && body[|m|] == 0
  }

  lemma {:induction false} TextOfCarried(body: seq<byte>, m: Message)
    requires |m| < |body| && body[..|m|] == m && body[|m|] == 0
    ensures Text(body) == Text(m)
  {
    if m != [] {
      assert body[0] == m[0];
      assert body[1..][..|m| - 1] == m[1..];
      TextOfCarried(body[1..], m[1..]);
    }
  }

  lemma {:induction false} TextOfNulFree(m: Message)
    requires 0 !in m
    ensures Text(m) == m
  {
    if m != [] {
      TextOfNulFree(m[1..]);
    }
  }

  /** A frame that k_sendto really built for the message queued under its sequence number. */
  ghost predicate Genuine(f: Frame, queued: seq<Message>) {
    1 <= f.seqNum as int <= |queued| && Carries(f.body, queued[f.seqNum - 1])
  }
}
