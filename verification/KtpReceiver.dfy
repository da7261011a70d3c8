/** The receiving half of a KTP socket entry, as functions on its value. */
module KtpReceiver {
  import opened Common
  import opened KtpBase

  datatype RecvSide = RecvSide(
    buffer: seq<Frame>,   // recv_buffer
    free: seq<bool>,      // rbuff_free
    index: seq<int>,      // rwnd.index_seq_num
    valid: seq<bool>,     // rwnd.valid_seq_num: false between acceptance and delivery
    size: int,            // rwnd.size
    start: int,           // rwnd.start_sequence
    lastAck: int,         // last_ack_received
    noSpace: bool)        // no_space_flags

  predicate RecvShape(r: RecvSide) {
    && |r.buffer| == SLOTS && |r.free| == SLOTS && |r.index| == LAST_SEQ + 1 && |r.valid| == LAST_SEQ + 1
    && 1 <= r.start <= LAST_SEQ && 0 <= r.lastAck <= LAST_SEQ
    && forall k :: 0 <= k <= LAST_SEQ ==> -1 <= r.index[k] < SLOTS
  }

  function InitRecv(): (r: RecvSide)
    ensures RecvShape(r)
  {
    RecvSide(seq(SLOTS, _ => ZeroFrame()), seq(SLOTS, _ => true), seq(LAST_SEQ + 1, _ => -1),
             seq(LAST_SEQ + 1, _ => true), SLOTS, 1, 0, false)
  }

  // ---------------------------------------------------------------- k_recvfrom

  /** The first slot among the first n holding a least sequence number, or -1 when they are all free. */
  function MinSlot(r: RecvSide, n: nat): (m: int)
    requires RecvShape(r) && n <= SLOTS
    ensures -1 <= m < n
    ensures m == -1 <==> forall j :: 0 <= j < n ==> r.free[j]
    ensures m >= 0 ==> !r.free[m]
    ensures m >= 0 ==> forall j :: 0 <= j < n && !r.free[j] ==> r.buffer[m].seqNum <= r.buffer[j].seqNum
    ensures m >= 0 ==> forall j :: 0 <= j < m && !r.free[j] ==> r.buffer[m].seqNum < r.buffer[j].seqNum
  {
    if n == 0 then -1
    else
      var m := MinSlot(r, n - 1);
      if !r.free[n - 1] && (m == -1 || r.buffer[n - 1].seqNum < r.buffer[m].seqNum) then n - 1 else m
  }

  function Take(r: RecvSide, j: int): (r': RecvSide)
    requires RecvShape(r) && 0 <= j < SLOTS
    ensures RecvShape(r')
  {
    var m := r.buffer[j].seqNum;
    r.(buffer := r.buffer[j := ZeroFrame()],
       free := r.free[j := true],
       index := r.index[m := -1],
       valid := r.valid[m := true],
       size := if r.size + 1 > SLOTS then SLOTS else r.size + 1)
  }

  /** The frame handed to the caller of k_recvfrom, if any. */
  function Deliver(r: RecvSide): (d: (RecvSide, Option<Frame>))
    requires RecvShape(r)
    ensures RecvShape(d.0)
  {
    var j := MinSlot(r, SLOTS);
    if j == -1 || r.buffer[j].seqNum as int > r.start then (r, None)
    else (Take(r, j), Some(r.buffer[j]))
  }

  // ---------------------------------------------------------------- thread R: data frames

  /** Steps k over accepted sequence numbers. The bound n is one lap of the ring: the loop it stands for never ends
      when every number of the ring is accepted, and only then does the bound matter. */
  function Advance(valid: seq<bool>, k: int, n: nat): (k': int)
    requires |valid| == LAST_SEQ + 1 && 1 <= k <= LAST_SEQ
    ensures 1 <= k' <= LAST_SEQ
    decreases n
  {
    if n == 0 || valid[k] then k else Advance(valid, Succ(k), n - 1)
  }

  // Some number of the ring is not accepted.
  predicate SomeOpen(valid: seq<bool>)
    requires |valid| == LAST_SEQ + 1
  {
    exists k :: 1 <= k <= LAST_SEQ && valid[k]
  }

  predicate Held(r: RecvSide, v: int)
    requires RecvShape(r)
  {
    exists j :: 0 <= j < SLOTS && r.buffer[j].seqNum == v
  }

  function Store(r: RecvSide, j: nat, f: Frame): (r': RecvSide)
    requires RecvShape(r) && j < SLOTS
    ensures RecvShape(r')
  {
    r.(buffer := r.buffer[j := f], free := r.free[j := false], index := r.index[f.seqNum := j],
       size := r.size - 1, noSpace := r.noSpace || r.size - 1 == 0)
  }

  /** The in-order branch: store, open the way for the next number. */
  function Accept(r: RecvSide, f: Frame): (r': RecvSide)
    requires RecvShape(r)
    ensures RecvShape(r')
  {
    var j := FirstSet(r.free, 0);
    var r1 := if j < SLOTS then Store(r, j, f)
              else r.(size := r.size - 1, noSpace := r.noSpace || r.size - 1 == 0);
    var valid := r.valid[f.seqNum := false];
    r1.(lastAck := f.seqNum, valid := valid, start := Advance(valid, r.start, LAST_SEQ))
  }

  function AcceptAcks(r: RecvSide, f: Frame): seq<Ack>
    requires RecvShape(r)
  {
    (if Held(r, f.seqNum) then [Ack(f.seqNum, r.size)] else []) + [Ack(f.seqNum, r.size - 1)]
  }

  // The slot the out-of-order branch computes for sequence number v.
  function EarlySlot(r: RecvSide, v: int): (j: int)
    requires RecvShape(r)
    ensures 0 <= j < SLOTS
  {
    (r.index[r.start] + (v - r.start + 255) % 255) % 10
  }

  /** The out-of-order branch stores exactly when the number lies in its window, some earlier number is missing,
      the number itself was not accepted, and the computed slot is free. */
  predicate StoresEarly(r: RecvSide, v: int)
    requires RecvShape(r)
  {
    && v % 255 + 1 > r.start
    && v <= Succ(r.start + 9 - r.size)
    && r.start < v <= LAST_SEQ
    && (exists j :: r.start <= j < v && r.valid[j])
    && r.valid[v]
    && r.free[EarlySlot(r, v)]
  }

  function ReceiveData(r: RecvSide, f: Frame): (d: (RecvSide, seq<Ack>, bool))
    requires RecvShape(r)
    ensures RecvShape(d.0)
  {
    if r.start == f.seqNum as int && r.size > 0 then (Accept(r, f), AcceptAcks(r, f), false)
    else if StoresEarly(r, f.seqNum) then (Store(r, EarlySlot(r, f.seqNum), f), [], true)
    else (r, [], false)
  }

  /** The no-space scan announces a reopened window once. */
  function Scan(r: RecvSide): (d: (RecvSide, seq<Ack>))
    requires RecvShape(r)
    ensures RecvShape(d.0)
  {
    if r.noSpace && r.size > 0 then (r.(noSpace := false), [Ack(r.lastAck, r.size)]) else (r, [])
  }

  // ---------------------------------------------------------------- invariant

  ghost predicate Stored(r: RecvSide, k: int)
    requires RecvShape(r)
  {
    exists j :: 0 <= j < SLOTS && !r.free[j] && r.buffer[j].seqNum == k
  }

  /** d is the last sequence number delivered: everything accepted since is still stored, nothing older is. */
  ghost predicate RecvInv(r: RecvSide, queued: seq<Message>, d: int) {
    && RecvShape(r)
    && |queued| < LAST_SEQ
    && r.start <= |queued| + 1
    && r.lastAck == r.start - 1
    && r.size == Count(r.free)
    && 0 <= d <= r.start && d <= |queued|
    && (r.size < SLOTS || r.noSpace ==> r.start >= 2)
    && (r.size == 0 ==> r.noSpace)
    && (forall k :: r.start <= k <= LAST_SEQ ==> r.valid[k])
    && (forall j :: 0 <= j < SLOTS && !r.free[j] ==> Genuine(r.buffer[j], queued) && d <= r.buffer[j].seqNum as int)
    && (forall k :: d < k < r.start ==> Stored(r, k))
    && Tidy(r)
  }

  /** A free slot is all zero, and an index in use names the slot that holds its number. */
  ghost predicate Tidy(r: RecvSide)
    requires RecvShape(r)
  {
    && (forall j :: 0 <= j < SLOTS && r.free[j] ==> r.buffer[j] == ZeroFrame())
    && (forall k :: 0 <= k <= LAST_SEQ && r.index[k] >= 0 ==>
          !r.free[r.index[k]] && r.buffer[r.index[k]].seqNum == k)
  }

  // The stored numbers by slot, 0 for a free slot.
  function Numbers(r: RecvSide): (s: seq<int>)
    requires RecvShape(r)
    ensures |s| == SLOTS
    ensures forall j :: 0 <= j < SLOTS ==> s[j] == if r.free[j] then 0 else r.buffer[j].seqNum as int
  {
    seq(SLOTS, j requires 0 <= j < SLOTS => if r.free[j] then 0 else r.buffer[j].seqNum as int)
  }

  /** How many slots hold number v. */
  function Copies(r: RecvSide, v: int): nat
    requires RecvShape(r)
  {
    multiset(Numbers(r))[v]
  }

  lemma CopiesAt(r: RecvSide, v: int)
    requires RecvShape(r) && v > 0
    ensures Copies(r, v) > 0 <==> Stored(r, v)
  {
    var s := Numbers(r);
    assert v in multiset(s) <==> v in s;
    if v in s {
      var j :| 0 <= j < SLOTS && s[j] == v;
      assert !r.free[j] && r.buffer[j].seqNum == v;
    }
    if Stored(r, v) {
      var j :| 0 <= j < SLOTS && !r.free[j] && r.buffer[j].seqNum == v;
      assert s[j] == v;
    }
  }

  lemma TakeCopies(r: RecvSide, j: nat, v: int)
    requires RecvShape(r) && j < SLOTS && !r.free[j] && v > 0
    ensures Copies(Take(r, j), v) == Copies(r, v) - if r.buffer[j].seqNum == v then 1 else 0
  {
    assert Numbers(Take(r, j)) == Numbers(r)[j := 0];
  }

  lemma StoreCopies(r: RecvSide, j: nat, f: Frame, v: int)
    requires RecvShape(r) && j < SLOTS && r.free[j] && v > 0
    ensures Copies(Store(r, j, f), v) == Copies(r, v) + if f.seqNum == v then 1 else 0
  {
    assert Numbers(Store(r, j, f)) == Numbers(r)[j := f.seqNum as int];
  }

  lemma InitRecvInv()
    ensures RecvInv(InitRecv(), [], 0)
    ensures forall v :: v > 0 ==> Copies(InitRecv(), v) == 0
  {
    CountExtremes(InitRecv().free);
    forall v | v > 0 ensures Copies(InitRecv(), v) == 0 {
      CopiesAt(InitRecv(), v);
    }
  }

  lemma TakeTidy(r: RecvSide, j: nat)
    requires RecvShape(r) && Tidy(r) && j < SLOTS && !r.free[j]
    ensures Tidy(Take(r, j))
  {
  }

  lemma StoreTidy(r: RecvSide, j: nat, f: Frame)
    requires RecvShape(r) && Tidy(r) && j < SLOTS && r.free[j]
    ensures Tidy(Store(r, j, f))
  {
  }

  lemma TidyIgnores(r: RecvSide, r': RecvSide)
    requires RecvShape(r) && RecvShape(r') && Tidy(r)
    requires r'.buffer == r.buffer && r'.free == r.free && r'.index == r.index
    ensures Tidy(r')
  {
  }

  lemma TakeKeeps(r: RecvSide, queued: seq<Message>, d: int, m: int)
    requires RecvInv(r, queued, d) && m == MinSlot(r, SLOTS) && m >= 0 && r.buffer[m].seqNum as int <= r.start
    ensures RecvInv(Take(r, m), queued, r.buffer[m].seqNum as int)
  {
    hide Tidy, Stored, Take, MinSlot;
    TakeTidy(r, m);
    TakeSlots(r, m);
    var v, r' := r.buffer[m].seqNum as int, Take(r, m);
    CountUpdate(r.free, m, true);
    CountExtremes(r.free);
    forall k | v < k < r'.start ensures Stored(r', k) {
      TakeStored(r, m, k);
    }
  }

  lemma TakeSlots(r: RecvSide, m: nat)
    requires RecvShape(r) && m < SLOTS && !r.free[m]
    ensures var r' := Take(r, m);
      && r'.free == r.free[m := true] && r'.valid == r.valid[r.buffer[m].seqNum := true]
      && r'.size == (if r.size + 1 > SLOTS then SLOTS else r.size + 1)
      && r'.start == r.start && r'.lastAck == r.lastAck && r'.noSpace == r.noSpace
      && forall j :: 0 <= j < SLOTS && !r'.free[j] ==> !r.free[j] && r'.buffer[j] == r.buffer[j]
  {
  }

  lemma TakeStored(r: RecvSide, m: nat, k: int)
    requires RecvShape(r) && m < SLOTS && Stored(r, k) && r.buffer[m].seqNum as int != k
    ensures Stored(Take(r, m), k)
  {
    var j :| 0 <= j < SLOTS && !r.free[j] && r.buffer[j].seqNum == k;
    var r' := Take(r, m);
    assert !r'.free[j] && r'.buffer[j].seqNum == k;
  }

  /** Delivery hands over the last number again or exactly the next one, and only when something at or below the
      expected number is stored; what it hands over leaves its slot, and nothing else does. */
  lemma DeliverKeeps(r: RecvSide, queued: seq<Message>, d: int)
    requires RecvInv(r, queued, d)
    ensures var (r', f) := Deliver(r);
      && (f.None? ==> r' == r)
      && (f.None? <==> forall j :: 0 <= j < SLOTS && !r.free[j] ==> r.buffer[j].seqNum as int > r.start)
      && (f.Some? ==> var v := f.value.seqNum as int;
            && d <= v <= d + 1
            && r'.start == r.start
            && r'.noSpace == r.noSpace
            && r'.size == r.size + 1
            && Genuine(f.value, queued)
            && RecvInv(r', queued, v)
            && forall u :: u > 0 ==> Copies(r', u) == Copies(r, u) - if u == v then 1 else 0)
  {
    var m := MinSlot(r, SLOTS);
    if m >= 0 && r.buffer[m].seqNum as int <= r.start {
      if d + 1 < r.start {
        assert Stored(r, d + 1);
      }
      CountExtremes(r.free);
      TakeKeeps(r, queued, d, m);
      assert Deliver(r) == (Take(r, m), Some(r.buffer[m]));
      forall u | u > 0 ensures Copies(Take(r, m), u) == Copies(r, u) - if r.buffer[m].seqNum == u then 1 else 0 {
        TakeCopies(r, m, u);
      }
    }
  }

  lemma AcceptKeeps(r: RecvSide, queued: seq<Message>, d: int, f: Frame)
    requires RecvInv(r, queued, d) && Genuine(f, queued) && f.seqNum as int == r.start && r.size > 0
    ensures Accept(r, f).start == r.start + 1
    ensures Accept(r, f).size == r.size - 1
    ensures RecvInv(Accept(r, f), queued, d)
  {
    hide Tidy;
    CountExtremes(r.free);
    var j, r' := FirstSet(r.free, 0), Accept(r, f);
    CountUpdate(r.free, j, false);
    StoreTidy(r, j, f);
    TidyIgnores(Store(r, j, f), r');
    assert Advance(r.valid[f.seqNum := false], r.start, LAST_SEQ) == r.start + 1;
    forall k | d < k < r'.start ensures Stored(r', k) {
      if k < r.start {
        assert Stored(r, k);
        var i :| 0 <= i < SLOTS && !r.free[i] && r.buffer[i].seqNum == k;
        assert !r'.free[i] && r'.buffer[i].seqNum == k;
      } else {
        assert !r'.free[j] && r'.buffer[j].seqNum == k;
      }
    }
  }

  lemma AcceptCopies(r: RecvSide, f: Frame, v: int)
    requires RecvShape(r) && r.size == Count(r.free) && r.size > 0 && v > 0
    ensures Copies(Accept(r, f), v) == Copies(r, v) + if f.seqNum == v then 1 else 0
  {
    CountExtremes(r.free);
    var j := FirstSet(r.free, 0);
    StoreCopies(r, j, f, v);
    assert Numbers(Accept(r, f)) == Numbers(Store(r, j, f));
  }

  lemma StoreEarlyKeeps(r: RecvSide, queued: seq<Message>, d: int, f: Frame)
    requires RecvInv(r, queued, d) && Genuine(f, queued) && StoresEarly(r, f.seqNum)
    ensures RecvInv(Store(r, EarlySlot(r, f.seqNum), f), queued, d)
  {
    hide Tidy;
    var j := EarlySlot(r, f.seqNum);
    StoreTidy(r, j, f);
    var r' := Store(r, j, f);
    CountUpdate(r.free, j, false);
    CountExtremes(r.free);
    forall k | d < k < r'.start ensures Stored(r', k) {
      assert Stored(r, k);
      var i :| 0 <= i < SLOTS && !r.free[i] && r.buffer[i].seqNum == k;
      assert !r'.free[i] && r'.buffer[i].seqNum == k;
    }
  }

  /** What one data frame does, whichever branch it takes: besides keeping the invariant, a frame that is accepted in
      order or stored early adds one copy of its own number, and no frame does anything else to the stored numbers. */
  lemma ReceiveDataKeeps(r: RecvSide, queued: seq<Message>, d: int, f: Frame)
    requires RecvInv(r, queued, d) && Genuine(f, queued)
    ensures var (r', acks, isEarly) := ReceiveData(r, f);
      && RecvInv(r', queued, d)
      && r.start <= r'.start <= r.start + 1
      && (r'.start > r.start ==> r.start == f.seqNum as int)
      && (forall a :: a in acks ==> a.seqNum == r'.start - 1 && 0 <= a.window <= SLOTS)
      && (r.noSpace ==> r'.noSpace)
      && (acks != [] ==> acks[|acks| - 1].window == r'.size)
      && (acks != [] <==> r'.start > r.start) && (isEarly ==> acks == [])
      && (r'.size == 0 ==> r'.noSpace)
  {
    if r.start == f.seqNum as int && r.size > 0 {
      AcceptKeeps(r, queued, d, f);
      hide RecvInv, Accept;
    } else if StoresEarly(r, f.seqNum) {
      StoreEarlyKeeps(r, queued, d, f);
    }
  }

  lemma ReceiveDataCopies(r: RecvSide, queued: seq<Message>, d: int, f: Frame, v: int)
    requires RecvInv(r, queued, d) && Genuine(f, queued) && v > 0
    ensures var (r', acks, isEarly) := ReceiveData(r, f);
      Copies(r', v) == Copies(r, v) + if f.seqNum == v && (isEarly || r'.start > r.start) then 1 else 0
  {
    if r.start == f.seqNum as int && r.size > 0 {
      AcceptKeeps(r, queued, d, f);
      AcceptCopies(r, f, v);
      hide Accept, Copies;
    } else if StoresEarly(r, f.seqNum) {
      StoreCopies(r, EarlySlot(r, f.seqNum), f, v);
      hide Copies;
    }
  }

  lemma HeldIsStored(r: RecvSide, queued: seq<Message>, d: int, v: int)
    requires RecvInv(r, queued, d) && v > 0
    ensures Held(r, v) <==> Stored(r, v)
  {
    if Held(r, v) {
      var j :| 0 <= j < SLOTS && r.buffer[j].seqNum == v;
      assert !r.free[j];
    }
  }

  // The slot number v takes out of order: as far behind the slot of the expected number as v is behind that number.
  function SlotFor(r: RecvSide, v: int): int
    requires RecvShape(r)
  {
    (r.index[r.start] + v - r.start) % 10
  }

  /** Exactly which frames the receiver takes. The expected one is accepted if a slot is free. A later one is stored out
      of order if it is no further ahead than there are slots in use, the numbers so far ahead do not pass the end of
      the ring, and the slot for it is free. */
  lemma TakesExactly(r: RecvSide, queued: seq<Message>, d: int, f: Frame)
    requires RecvInv(r, queued, d) && Genuine(f, queued)
    ensures var (r', acks, isEarly) := ReceiveData(r, f); var v := f.seqNum as int;
      && (r'.start == r.start + 1 <==> v == r.start && Count(r.free) > 0)
      && (isEarly <==> r.start < v <= r.start + 10 - Count(r.free) <= 255 && r.free[SlotFor(r, v)])
  {
    hide Accept, Store, EarlySlot, SlotFor, Tidy;
    if f.seqNum as int == r.start && r.size > 0 {
      AcceptKeeps(r, queued, d, f);
      hide RecvInv;
    } else {
      EarlyExactly(r, queued, d, f);
      hide RecvInv, StoresEarly;
      StoreKeepsStart(r, f);
    }
  }

  lemma StoreKeepsStart(r: RecvSide, f: Frame)
    requires RecvShape(r)
    ensures StoresEarly(r, f.seqNum) ==> Store(r, EarlySlot(r, f.seqNum), f).start == r.start
  {
  }

  lemma EarlyExactly(r: RecvSide, queued: seq<Message>, d: int, f: Frame)
    requires RecvInv(r, queued, d) && Genuine(f, queued)
    ensures r.size == Count(r.free)
    ensures var v := f.seqNum as int;
      StoresEarly(r, v) <==> r.start < v <= r.start + 10 - Count(r.free) <= 255 && r.free[SlotFor(r, v)]
  {
    var v := f.seqNum as int;
    hide Tidy, Stored;
    CountExtremes(r.free);
    if r.start < v {
      assert r.valid[r.start] && r.valid[v];
      SameSlot(r, v);
      hide EarlySlot, SlotFor;
      InReach(r.start, Count(r.free), v);
    }
  }

  lemma SameSlot(r: RecvSide, v: int)
    requires RecvShape(r) && r.start < v <= LAST_SEQ
    ensures EarlySlot(r, v) == SlotFor(r, v)
  {
  }

  lemma InReach(start: int, free: int, v: int)
    requires 1 <= start < v <= 254 && 0 <= free <= 10
    ensures v <= Succ(start + 9 - free) <==> v <= start + 10 - free <= 255
    ensures v % 255 + 1 > start
  {
  }

  /** What taking a frame changes: one free slot now holds it and is found by its number, the first one if the frame was
      expected. A frame that is not taken changes nothing. */
  lemma TakenInto(r: RecvSide, queued: seq<Message>, d: int, f: Frame) returns (j: nat)
    requires RecvInv(r, queued, d) && Genuine(f, queued)
    ensures var (r', acks, isEarly) := ReceiveData(r, f); var v := f.seqNum as int;
      if r'.start == r.start && !isEarly then r' == r && acks == []
      else
        && j < SLOTS && r.free[j]
        && j == (if isEarly then SlotFor(r, v) else FirstSet(r.free, 0))
        && r'.buffer == r.buffer[j := f] && r'.free == r.free[j := false] && r'.index == r.index[v := j]
        && (r'.noSpace <==> r.noSpace || Count(r'.free) == 0)
        && r'.valid == if isEarly then r.valid else r.valid[v := false]
  {
    hide Tidy, Stored, Advance, EarlySlot, SlotFor;
    j := 0;
    if f.seqNum as int == r.start && r.size > 0 {
      j := FirstSet(r.free, 0);
      CountExtremes(r.free);
      AcceptKeeps(r, queued, d, f);
    } else if StoresEarly(r, f.seqNum) {
      j := EarlySlot(r, f.seqNum);
      SameSlot(r, f.seqNum);
      StoreEarlyKeeps(r, queued, d, f);
    }
  }

  /** What the receiver answers: nothing to a frame it does not accept; to one it accepts, the free slots that remain,
      and before that, exactly if the number was stored already, the free slots there were. */
  lemma AnswersExactly(r: RecvSide, queued: seq<Message>, d: int, f: Frame)
    requires RecvInv(r, queued, d) && Genuine(f, queued)
    ensures var (r', acks, isEarly) := ReceiveData(r, f); var v := f.seqNum as int;
      var after, before := Ack(v, Count(r'.free)), Ack(v, Count(r.free));
      && (acks == [] <==> !(v == r.start && Count(r.free) > 0))
      && (acks == [after] <==> v == r.start && Count(r.free) > 0 && !Stored(r, v))
      && (acks == [before, after] <==> v == r.start && Count(r.free) > 0 && Stored(r, v))
  {
    HeldIsStored(r, queued, d, f.seqNum as int);
    ReceiveCredit(r, queued, d, f);
    CountExtremes(r.free);
    hide Stored, RecvInv;
    if f.seqNum as int == r.start && r.size > 0 {
      AcceptKeeps(r, queued, d, f);
      hide Accept;
    }
  }

  /** Receive credit is exact: the window size is the number of free slots, so an in-order frame always finds a slot, an
      early frame's slot exists, delivery never reaches the clamp, and every window put into an acknowledgement is the
      true number of free slots before or after the store. */
  lemma CreditIsExact(r: RecvSide, queued: seq<Message>, d: int, f: Frame)
    requires RecvInv(r, queued, d) && Genuine(f, queued)
    ensures r.size == Count(r.free)
    ensures r.size > 0 ==> FirstSet(r.free, 0) < SLOTS
    ensures StoresEarly(r, f.seqNum) ==> r.size > 0 && 0 <= EarlySlot(r, f.seqNum) < SLOTS
    ensures Deliver(r).1.Some? ==> Deliver(r).0.size == r.size + 1 == Count(Deliver(r).0.free)
    ensures var r' := ReceiveData(r, f).0; var acks := ReceiveData(r, f).1;
      && r'.size == Count(r'.free)
      && (acks == [] || acks == [Ack(f.seqNum, Count(r'.free))]
          || acks == [Ack(f.seqNum, Count(r.free)), Ack(f.seqNum, Count(r'.free))])
      && (acks != [] <==> f.seqNum as int == r.start && Count(r.free) > 0)
  {
    CountExtremes(r.free);
    if Deliver(r).1.Some? {
      DeliverCredit(r, queued, d);
    }
    ReceiveCredit(r, queued, d, f);
    hide RecvInv, Genuine, Deliver, ReceiveData;
  }

  lemma DeliverCredit(r: RecvSide, queued: seq<Message>, d: int)
    requires RecvInv(r, queued, d) && Deliver(r).1.Some?
    ensures Deliver(r).0.size == r.size + 1 == Count(Deliver(r).0.free)
  {
    var m := MinSlot(r, SLOTS);
    CountExtremes(r.free);
    CountUpdate(r.free, m, true);
  }

  lemma ReceiveCredit(r: RecvSide, queued: seq<Message>, d: int, f: Frame)
    requires RecvInv(r, queued, d) && Genuine(f, queued)
    ensures var r' := ReceiveData(r, f).0; var acks := ReceiveData(r, f).1;
      && r'.size == Count(r'.free)
      && (acks == [] || acks == [Ack(f.seqNum, Count(r'.free))]
          || acks == [Ack(f.seqNum, Count(r.free)), Ack(f.seqNum, Count(r'.free))])
      && (acks != [] <==> f.seqNum as int == r.start && Count(r.free) > 0)
  {
    if r.start == f.seqNum as int && r.size > 0 {
      AcceptKeeps(r, queued, d, f);
      hide Accept;
    } else if StoresEarly(r, f.seqNum) {
      CountUpdate(r.free, EarlySlot(r, f.seqNum), false);
    }
  }

  /** The scan emits an acknowledgement exactly when it clears the flag, and that acknowledgement reopens the window. */
  lemma ScanKeeps(r: RecvSide, queued: seq<Message>, d: int)
    requires RecvInv(r, queued, d)
    ensures var (r', acks) := Scan(r);
      && RecvInv(r', queued, d)
      && r'.start == r.start
      && (forall v :: Copies(r', v) == Copies(r, v))
      && (forall a :: a in acks ==> 1 <= a.seqNum == r'.start - 1 && 0 < a.window <= SLOTS)
      && (acks == [] <==> r' == r)
      && (acks != [] ==> acks == [Ack(r.start - 1, r.size)])
      && (r'.noSpace ==> r'.size == 0)
  {
    var r' := Scan(r).0;
    assert Numbers(r') == Numbers(r);
    forall k | d < k < r.start ensures Stored(r', k) {
      assert Stored(r, k);
    }
  }

  /** A number that is old, expected, or above the expected one by more than the slots in use. */
  predicate NotAhead(r: RecvSide, v: int) {
    v <= r.start || v > r.start + SLOTS - r.size
  }

  /** The out-of-order window holds as many numbers as there are slots in use: what is not in it is never stored early.
      */
  lemma NotAheadNeverEarly(r: RecvSide, queued: seq<Message>, d: int, f: Frame)
    requires RecvInv(r, queued, d) && NotAhead(r, f.seqNum)
    ensures !ReceiveData(r, f).2
  {
  }
}
