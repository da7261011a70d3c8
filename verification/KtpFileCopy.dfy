/** The two example programs on top of the transport: user1 sends a file in chunks, user2 appends what it receives. */
module KtpFileCopy {
  import opened Common
  import opened KtpBase
  import opened KtpSender
  import opened KtpReceiver
  import opened KtpProtocol
  import opened KtpGuarantees
  import opened Stutter

  // "EOF" and its terminator, as user1 sends it.
  const END_MARKER: Message := [69, 79, 70, 0]
  const EOF: seq<byte> := [69, 79, 70]

  // ---------------------------------------------------------------- user1

  function Chunks(file: seq<byte>): (chunks: seq<Message>)
    ensures forall i :: 0 <= i < |chunks| ==> 0 < |chunks[i]| <= MAX_MESSAGE
  {
    if file == [] then []
    else
      var n := Min(|file|, MAX_MESSAGE);
      [file[..n]] + Chunks(file[n..])
  }

  function Flatten(chunks: seq<seq<byte>>): seq<byte> {
    if chunks == [] then [] else chunks[0] + Flatten(chunks[1..])
  }

  lemma {:induction false} ChunksFlatten(file: seq<byte>)
    ensures Flatten(Chunks(file)) == file
  {
    if file != [] {
      var n := Min(|file|, MAX_MESSAGE);
      ChunksFlatten(file[n..]);
      assert file[..n] + file[n..] == file;
      assert Chunks(file)[1..] == Chunks(file[n..]);
    }
  }

  /** Every chunk but the last is full. */
  lemma {:induction false} ChunkSizes(file: seq<byte>, i: nat)
    requires i < |Chunks(file)|
    ensures if i + 1 < |Chunks(file)| then |Chunks(file)[i]| == 509 else 1 <= |Chunks(file)[i]| <= 509
  {
    var n := Min(|file|, MAX_MESSAGE);
    if i > 0 {
      ChunkSizes(file[n..], i - 1);
    }
  }

  lemma {:induction false} ChunksNulFree(file: seq<byte>)
    requires 0 !in file
    ensures forall i :: 0 <= i < |Chunks(file)| ==> 0 !in Chunks(file)[i]
  {
    if file != [] {
      ChunksNulFree(file[Min(|file|, MAX_MESSAGE)..]);
    }
  }

  lemma ChunksStep(file: seq<byte>, pos: nat, messages: seq<Message>)
    requires pos < |file|
    ensures var n := Min(|file| - pos, MAX_MESSAGE);
      messages + Chunks(file[pos..]) == (messages + [file[pos..pos + n]]) + Chunks(file[pos + n..])
  {
    var n := Min(|file| - pos, MAX_MESSAGE);
    assert file[pos..][..n] == file[pos..pos + n] && file[pos..][n..] == file[pos + n..];
  }

  /** The read-and-send loop: the messages handed to k_sendto, each until it is accepted. */
  method SendFile(file: seq<byte>) returns (messages: seq<Message>)
    ensures messages == Chunks(file) + [END_MARKER]
  {
    messages := [];
    var pos := 0;
    while pos < |file|
      invariant 0 <= pos <= |file|
      invariant messages + Chunks(file[pos..]) == Chunks(file)
    {
      var bytesRead := if |file| - pos < 512 - 3 then |file| - pos else 512 - 3;
      var chunk := file[pos..pos + bytesRead];
      ChunksStep(file, pos, messages);
      messages := messages + [chunk];
      pos := pos + bytesRead;
    }
    assert messages + [] == messages;
    messages := messages + [END_MARKER];
  }

  // ---------------------------------------------------------------- user2

  /** The receive buffer after k_recvfrom copied a text to its front; the rest keeps what earlier calls left. */
  function Overlay(buffer: seq<byte>, text: seq<byte>): (b: seq<byte>)
    requires |text| <= |buffer|
    ensures |b| == |buffer|
  {
    text + buffer[|text|..]
  }

  /** What user2 appends to its output, and whether it has left its loop, after these calls to k_recvfrom returned. */
  function Reassemble(buffer: seq<byte>, texts: seq<seq<byte>>): (r: (seq<byte>, bool))
    requires |buffer| == MAX_MESSAGE
    requires forall i :: 0 <= i < |texts| ==> |texts[i]| <= MAX_MESSAGE
    decreases |texts|
  {
    if texts == [] then ([], false)
    else if texts[0] == [] then Reassemble(buffer, texts[1..])
    else
      var buffer' := Overlay(buffer, texts[0]);
      if buffer'[..3] == EOF then ([], true)
      else
        var (output, done) := Reassemble(buffer', texts[1..]);
        (texts[0] + output, done)
  }

  /** user2's loop, for as long as k_recvfrom has something to return; the calls that return -1 only sleep. */
  method ReceiveFile(buffer: array<byte>, texts: seq<seq<byte>>) returns (output: seq<byte>, done: bool)
    requires buffer.Length == MAX_MESSAGE
    requires forall i :: 0 <= i < |texts| ==> |texts[i]| <= MAX_MESSAGE
    modifies buffer
    ensures (output, done) == Reassemble(old(buffer[..]), texts)
  {
    output, done := [], false;
    ghost var all := Reassemble(buffer[..], texts);
    var next := 0;
    while next < |texts|
      invariant 0 <= next <= |texts| && !done
      invariant var rest := Reassemble(buffer[..], texts[next..]); all.0 == output + rest.0 && all.1 == rest.1
    {
      var text := texts[next];
      ghost var before := buffer[..];
      assert texts[next..][1..] == texts[next + 1..];
      next := next + 1;
      if text != [] {
        forall i | 0 <= i < |text| {
          buffer[i] := text[i];
        }
        assert buffer[..] == Overlay(before, text);
        if buffer[..3] == EOF {
          done := true;
          assert output + [] == output;
          return;
        }
        ghost var rest := Reassemble(buffer[..], texts[next..]);
        assert output + (text + rest.0) == (output + text) + rest.0;
        output := output + text;
      }
    }
    assert texts[next..] == [] && output + [] == output;
  }

  // ---------------------------------------------------------------- the copy

  /** No chunk leaves the reused buffer looking like the end marker. */
  predicate MarkerFree(buffer: seq<byte>, chunks: seq<seq<byte>>)
    requires |buffer| == MAX_MESSAGE
    requires forall i :: 0 <= i < |chunks| ==> 0 < |chunks[i]| <= MAX_MESSAGE
    decreases |chunks|
  {
    chunks == [] ||
    (Overlay(buffer, chunks[0])[..3] != EOF && MarkerFree(Overlay(buffer, chunks[0]), chunks[1..]))
  }

  /** Fed with the first n of the chunks and the marker, user2 outputs the first n chunks and stops only at the
      marker. */
  lemma {:induction false} ReassemblePrefix(buffer: seq<byte>, chunks: seq<seq<byte>>, n: nat)
    requires |buffer| == MAX_MESSAGE
    requires forall i :: 0 <= i < |chunks| ==> 0 < |chunks[i]| <= MAX_MESSAGE
    requires MarkerFree(buffer, chunks) && n <= |chunks| + 1
    ensures Reassemble(buffer, (chunks + [EOF])[..n])
      == (Flatten(chunks[..if n <= |chunks| then n else |chunks|]), n == |chunks| + 1)
    decreases |chunks|
  {
    var texts := (chunks + [EOF])[..n];
    if n > 0 && chunks != [] {
      assert texts[1..] == (chunks[1..] + [EOF])[..n - 1];
      ReassemblePrefix(Overlay(buffer, chunks[0]), chunks[1..], n - 1);
      var m := if n <= |chunks| then n else |chunks|;
      assert chunks[..m][1..] == chunks[1..][..m - 1];
    }
  }

  /** When some chunk looks like the marker, user2 stops there and its output is strictly shorter than the file. */
  lemma {:induction false} MarkerCutsShort(buffer: seq<byte>, chunks: seq<seq<byte>>)
    requires |buffer| == MAX_MESSAGE
    requires forall i :: 0 <= i < |chunks| ==> 0 < |chunks[i]| <= MAX_MESSAGE
    requires !MarkerFree(buffer, chunks)
    ensures |Reassemble(buffer, chunks + [EOF]).0| < |Flatten(chunks)|
    decreases |chunks|
  {
    var texts := chunks + [EOF];
    assert texts[1..] == chunks[1..] + [EOF];
    if Overlay(buffer, chunks[0])[..3] != EOF {
      MarkerCutsShort(Overlay(buffer, chunks[0]), chunks[1..]);
    }
  }

  lemma {:induction false} ReassembleAtMost(buffer: seq<byte>, texts: seq<seq<byte>>)
    requires |buffer| == MAX_MESSAGE
    requires forall i :: 0 <= i < |texts| ==> |texts[i]| <= MAX_MESSAGE
    ensures |Reassemble(buffer, texts + [EOF]).0| <= |Flatten(texts)|
    decreases |texts|
  {
    var all := texts + [EOF];
    if texts != [] {
      assert all[1..] == texts[1..] + [EOF];
      ReassembleAtMost(if texts[0] == [] then buffer else Overlay(buffer, texts[0]), texts[1..]);
    }
  }

  lemma {:induction false} NulShortens(chunks: seq<seq<byte>>, texts: seq<seq<byte>>)
    requires |texts| == |chunks| && forall i :: 0 <= i < |texts| ==> texts[i] == Text(chunks[i])
    ensures |Flatten(texts)| <= |Flatten(chunks)|
    ensures 0 in Flatten(chunks) ==> |Flatten(texts)| < |Flatten(chunks)|
    decreases |chunks|
  {
    if chunks != [] {
      NulShortens(chunks[1..], texts[1..]);
      if 0 !in chunks[0] {
        TextOfNulFree(chunks[0]);
      }
    }
  }

  lemma CopyChunks(buffer: seq<byte>, chunks: seq<seq<byte>>)
    requires |buffer| == MAX_MESSAGE
    requires forall i :: 0 <= i < |chunks| ==> 0 < |chunks[i]| <= MAX_MESSAGE
    ensures Reassemble(buffer, chunks + [EOF]).0 == Flatten(chunks) <==> MarkerFree(buffer, chunks)
  {
    if MarkerFree(buffer, chunks) {
      ReassemblePrefix(buffer, chunks, |chunks| + 1);
      assert (chunks + [EOF])[..|chunks| + 1] == chunks + [EOF];
      assert chunks[..|chunks|] == chunks;
    } else {
      MarkerCutsShort(buffer, chunks);
    }
  }

  /** When k_recvfrom returns everything user1 sends, user2 rebuilds the file exactly when the file has no NUL byte
      and no chunk leaves the buffer looking like the marker. */
  lemma CopyExact(buffer: seq<byte>, file: seq<byte>)
    requires |buffer| == MAX_MESSAGE
    ensures Reassemble(buffer, Texts(Chunks(file)) + [EOF]).0 == file
      <==> 0 !in file && MarkerFree(buffer, Chunks(file))
  {
    var chunks, texts := Chunks(file), Texts(Chunks(file));
    ChunksFlatten(file);
    hide Reassemble, MarkerFree, Chunks, Flatten, Texts;
    if 0 in file {
      NulShortens(chunks, texts);
      ReassembleAtMost(buffer, texts);
    } else {
      ChunksNulFree(file);
      assert texts == chunks by {
        forall i | 0 <= i < |chunks| ensures texts[i] == chunks[i] {
          TextOfNulFree(chunks[i]);
        }
      }
      CopyChunks(buffer, chunks);
    }
  }

  // ---------------------------------------------------------------- the copy over the transport

  function DeliveredTexts(delivered: seq<Delivery<seq<byte>>>): (texts: seq<seq<byte>>)
    ensures |texts| == |delivered|
    ensures forall i :: 0 <= i < |texts| ==> texts[i] == delivered[i].content
  {
    seq(|delivered|, i requires 0 <= i < |delivered| => delivered[i].content)
  }

  // The receive buffer after the first k chunks; receiving a chunk again does not change it.
  function BufferAfter(buffer: seq<byte>, chunks: seq<seq<byte>>, k: nat): (b: seq<byte>)
    requires |buffer| == MAX_MESSAGE && k <= |chunks|
    requires forall i :: 0 <= i < |chunks| ==> 0 < |chunks[i]| <= MAX_MESSAGE
    ensures |b| == MAX_MESSAGE
  {
    if k == 0 then buffer else Overlay(BufferAfter(buffer, chunks, k - 1), chunks[k - 1])
  }

  lemma {:induction false} MarkerFreeAt(buffer: seq<byte>, chunks: seq<seq<byte>>, k: nat)
    requires |buffer| == MAX_MESSAGE && 1 <= k <= |chunks|
    requires forall i :: 0 <= i < |chunks| ==> 0 < |chunks[i]| <= MAX_MESSAGE
    requires MarkerFree(buffer, chunks)
    ensures BufferAfter(buffer, chunks, k)[..3] != EOF
    decreases |chunks|
  {
    if k == 1 {
      assert BufferAfter(buffer, chunks, 0) == buffer;
    } else {
      ShiftBuffer(buffer, chunks, k);
      MarkerFreeAt(Overlay(buffer, chunks[0]), chunks[1..], k - 1);
    }
  }

  lemma {:induction false} ShiftBuffer(buffer: seq<byte>, chunks: seq<seq<byte>>, k: nat)
    requires |buffer| == MAX_MESSAGE && 1 <= k <= |chunks|
    requires forall i :: 0 <= i < |chunks| ==> 0 < |chunks[i]| <= MAX_MESSAGE
    ensures BufferAfter(buffer, chunks, k) == BufferAfter(Overlay(buffer, chunks[0]), chunks[1..], k - 1)
    decreases k
  {
    if k > 1 {
      ShiftBuffer(buffer, chunks, k - 1);
    } else {
      assert BufferAfter(buffer, chunks, 0) == buffer;
    }
  }

  // user2's output, its buffer, and whether it has left its loop.
  datatype Reader = Reader(output: seq<byte>, buffer: seq<byte>, done: bool)

  // What user2 makes of one more text.
  function Read(r: Reader, text: seq<byte>): (r': Reader)
    requires |r.buffer| == MAX_MESSAGE && |text| <= MAX_MESSAGE
    ensures |r'.buffer| == MAX_MESSAGE
  {
    if r.done || text == [] then r
    else
      var buffer := Overlay(r.buffer, text);
      if buffer[..3] == EOF then Reader(r.output, buffer, true) else Reader(r.output + text, buffer, false)
  }

  function ReadAll(buffer: seq<byte>, texts: seq<seq<byte>>): (r: Reader)
    requires |buffer| == MAX_MESSAGE
    requires forall i :: 0 <= i < |texts| ==> |texts[i]| <= MAX_MESSAGE
    ensures |r.buffer| == MAX_MESSAGE
  {
    if texts == [] then Reader([], buffer, false)
    else Read(ReadAll(buffer, texts[..|texts| - 1]), texts[|texts| - 1])
  }

  // Reading text by text, from the last one, is the loop's reading from the first one.
  lemma {:induction false} ReadFirst(buffer: seq<byte>, texts: seq<seq<byte>>)
    requires |buffer| == MAX_MESSAGE && texts != []
    requires forall i :: 0 <= i < |texts| ==> |texts[i]| <= MAX_MESSAGE
    ensures var r := Read(Reader([], buffer, false), texts[0]); var all := ReadAll(buffer, texts);
      && (r.done ==> all.output == [] && all.done)
      && (!r.done ==> all == Prefixed(r.output, ReadAll(r.buffer, texts[1..])))
    decreases |texts|
  {
    hide Overlay;
    var n := |texts| - 1;
    if n == 0 {
      assert texts[..0] == [] && texts[1..] == [];
    } else {
      ReadFirst(buffer, texts[..n]);
      assert texts[1..][..n - 1] == texts[..n][1..];
      ReadPrefixed(Read(Reader([], buffer, false), texts[0]).output,
                   ReadAll(Read(Reader([], buffer, false), texts[0]).buffer, texts[..n][1..]), texts[n]);
      hide Read;
    }
  }

  // The same reader with something written before.
  function Prefixed(before: seq<byte>, r: Reader): Reader {
    r.(output := before + r.output)
  }

  lemma ReadPrefixed(before: seq<byte>, r: Reader, text: seq<byte>)
    requires |r.buffer| == MAX_MESSAGE && |text| <= MAX_MESSAGE
    ensures Read(Prefixed(before, r), text) == Prefixed(before, Read(r, text))
  {
    hide Overlay;
    assert before + (r.output + text) == (before + r.output) + text;
  }

  lemma {:induction false} ReadAllIsReassemble(buffer: seq<byte>, texts: seq<seq<byte>>)
    requires |buffer| == MAX_MESSAGE
    requires forall i :: 0 <= i < |texts| ==> |texts[i]| <= MAX_MESSAGE
    ensures Reassemble(buffer, texts) == (ReadAll(buffer, texts).output, ReadAll(buffer, texts).done)
    decreases |texts|
  {
    if texts != [] {
      hide ReadAll;
      ReadFirst(buffer, texts);
      if texts[0] == [] {
        var rest := ReadAll(buffer, texts[1..]);
        assert texts[0] + rest.output == rest.output;
        ReadAllIsReassemble(buffer, texts[1..]);
      } else if Overlay(buffer, texts[0])[..3] != EOF {
        assert [] + texts[0] == texts[0];
        ReadAllIsReassemble(Overlay(buffer, texts[0]), texts[1..]);
      }
    }
  }

  function Repeated(chunk: seq<byte>, n: nat): seq<byte> {
    if n == 0 then [] else Repeated(chunk, n - 1) + chunk
  }

  /** The first k chunks, each as often as it was delivered. */
  function Spread(chunks: seq<seq<byte>>, delivered: seq<Delivery<seq<byte>>>, k: nat): seq<byte>
    requires k <= |chunks|
  {
    if k == 0 then []
    else Spread(chunks, delivered, k - 1) + Repeated(chunks[k - 1], Times(delivered, k))
  }

  lemma {:induction false} SpreadSame(
    chunks: seq<seq<byte>>, d: seq<Delivery<seq<byte>>>, d': seq<Delivery<seq<byte>>>, k: nat)
    requires k <= |chunks| && forall v :: 1 <= v <= k ==> Times(d, v) == Times(d', v)
    ensures Spread(chunks, d, k) == Spread(chunks, d', k)
  {
    if k > 0 {
      SpreadSame(chunks, d, d', k - 1);
    }
  }

  lemma SpreadUnfolds(chunks: seq<seq<byte>>, d: seq<Delivery<seq<byte>>>, k: nat)
    requires 1 <= k <= |chunks|
    ensures Spread(chunks, d, k) == Spread(chunks, d, k - 1) + Repeated(chunks[k - 1], Times(d, k))
  {
  }

  lemma TimesAfter(d: seq<Delivery<seq<byte>>>, next: Delivery<seq<byte>>)
    ensures forall u :: Times(d + [next], u) == Times(d, u) + if u == next.number then 1 else 0
  {
    forall u ensures Times(d + [next], u) == Times(d, u) + if u == next.number then 1 else 0 {
      TimesGrows(d, next, u);
    }
  }

  // One more delivery of a chunk appends that chunk.
  lemma SpreadGrows(
    chunks: seq<seq<byte>>, d: seq<Delivery<seq<byte>>>, next: Delivery<seq<byte>>, sent: seq<seq<byte>>)
    requires InOrder(d, sent) && Last(d) <= next.number <= Last(d) + 1 && 1 <= next.number <= |chunks|
    ensures 0 <= Last(d)
    ensures Spread(chunks, d + [next], next.number) == Spread(chunks, d, Last(d)) + chunks[next.number - 1]
  {
    hide InOrder, Times, Spread, Repeated, Collapse;
    var v := next.number;
    var c, n, before := chunks[v - 1], Times(d, v), Spread(chunks, d, v - 1);
    CollapseIsPrefix(d, sent);
    TimesAfter(d, next);
    SpreadSame(chunks, d, d + [next], v - 1);
    SpreadUnfolds(chunks, d + [next], v);
    SpreadUnfolds(chunks, d, v);
    DeliveredUpToLast(d, sent, v);
    RepeatedGrows(before, c, n);
    if Last(d) == v {
      assert Spread(chunks, d, v) == before + Repeated(c, n);
    } else {
      assert n == 0;
    }
  }

  lemma RepeatedGrows(before: seq<byte>, chunk: seq<byte>, n: nat)
    ensures before + Repeated(chunk, n + 1) == (before + Repeated(chunk, n)) + chunk
    ensures before + Repeated(chunk, 0) == before
  {
  }

  lemma SameChunkAgain(buffer: seq<byte>, chunks: seq<seq<byte>>, k: nat)
    requires |buffer| == MAX_MESSAGE && 1 <= k <= |chunks|
    requires forall i :: 0 <= i < |chunks| ==> 0 < |chunks[i]| <= MAX_MESSAGE
    ensures Overlay(BufferAfter(buffer, chunks, k), chunks[k - 1]) == BufferAfter(buffer, chunks, k)
  {
  }

  // user2 has read the deliveries so far as it should.
  ghost predicate ReadWell(r: Reader, buffer: seq<byte>, chunks: seq<seq<byte>>, delivered: seq<Delivery<seq<byte>>>)
    requires |buffer| == MAX_MESSAGE && 0 <= Last(delivered) <= |chunks| + 1
    requires forall i :: 0 <= i < |chunks| ==> 0 < |chunks[i]| <= MAX_MESSAGE
  {
    var k := Last(delivered);
    && (r.done <==> k == |chunks| + 1)
    && (k <= |chunks| ==> r.buffer == BufferAfter(buffer, chunks, k))
    && r.output == Spread(chunks, delivered, if k <= |chunks| then k else |chunks|)
  }

  lemma OthersUnchanged(d: seq<Delivery<seq<byte>>>, next: Delivery<seq<byte>>, chunks: seq<seq<byte>>)
    requires next.number == |chunks| + 1
    ensures Spread(chunks, d + [next], |chunks|) == Spread(chunks, d, |chunks|)
  {
    forall u | 1 <= u <= |chunks| ensures Times(d + [next], u) == Times(d, u) {
      TimesGrows(d, next, u);
    }
    SpreadSame(chunks, d, d + [next], |chunks|);
  }

  lemma ReadNext(r: Reader, buffer: seq<byte>, chunks: seq<seq<byte>>, d: seq<Delivery<seq<byte>>>,
                 next: Delivery<seq<byte>>, sent: seq<seq<byte>>)
    requires |buffer| == MAX_MESSAGE && |r.buffer| == MAX_MESSAGE
    requires forall i :: 0 <= i < |chunks| ==> 0 < |chunks[i]| <= MAX_MESSAGE
    requires MarkerFree(buffer, chunks) && InOrder(d, sent) && 0 <= Last(d) <= |chunks| + 1
    requires Last(d) <= next.number <= Last(d) + 1 && 1 <= next.number <= |chunks| + 1
    requires next.content == if next.number <= |chunks| then chunks[next.number - 1] else EOF
    requires ReadWell(r, buffer, chunks, d)
    ensures ReadWell(Read(r, next.content), buffer, chunks, d + [next])
  {
    hide InOrder, MarkerFree, Times, Spread, BufferAfter;
    if next.number == |chunks| + 1 {
      OthersUnchanged(d, next, chunks);
    } else {
      SpreadGrows(chunks, d, next, sent);
      MarkerFreeAt(buffer, chunks, next.number);
      if next.number == Last(d) {
        SameChunkAgain(buffer, chunks, next.number);
      } else {
        NextBuffer(buffer, chunks, next.number);
      }
    }
  }

  lemma NextBuffer(buffer: seq<byte>, chunks: seq<seq<byte>>, k: nat)
    requires |buffer| == MAX_MESSAGE && 1 <= k <= |chunks|
    requires forall i :: 0 <= i < |chunks| ==> 0 < |chunks[i]| <= MAX_MESSAGE
    ensures BufferAfter(buffer, chunks, k) == Overlay(BufferAfter(buffer, chunks, k - 1), chunks[k - 1])
  {
  }

  /** What user2 has made of the deliveries: every chunk as often as it was delivered, and done with the marker. */
  lemma {:induction false} ReadDelivered(
    buffer: seq<byte>, chunks: seq<seq<byte>>, delivered: seq<Delivery<seq<byte>>>, sent: seq<seq<byte>>)
    requires |buffer| == MAX_MESSAGE && InOrder(delivered, sent) && sent <= chunks + [EOF]
    requires forall i :: 0 <= i < |chunks| ==> 0 < |chunks[i]| <= MAX_MESSAGE
    requires MarkerFree(buffer, chunks)
    ensures 0 <= Last(delivered) <= |chunks| + 1
    ensures forall i :: 0 <= i < |delivered| ==> |delivered[i].content| <= MAX_MESSAGE
    ensures ReadWell(ReadAll(buffer, DeliveredTexts(delivered)), buffer, chunks, delivered)
    decreases |delivered|
  {
    hide InOrder, MarkerFree, Times, Read;
    if delivered != [] {
      var d, next := delivered[..|delivered| - 1], delivered[|delivered| - 1];
      LastFollows(delivered, sent);
      ReadDelivered(buffer, chunks, d, sent);
      assert delivered == d + [next];
      assert DeliveredTexts(delivered)[..|d|] == DeliveredTexts(d);
      assert next.content == (chunks + [EOF])[next.number - 1];
      ReadNext(ReadAll(buffer, DeliveredTexts(d)), buffer, chunks, d, next, sent);
    }
  }

  // ---------------------------------------------------------------- when the copy is exact

  lemma {:induction false} RepeatedLength(chunk: seq<byte>, n: nat)
    requires n >= 1 && |chunk| > 0
    ensures |Repeated(chunk, n)| >= |chunk|
    ensures |Repeated(chunk, n)| == |chunk| <==> n == 1
    ensures n == 1 ==> Repeated(chunk, n) == chunk
  {
    if n > 1 {
      RepeatedLength(chunk, n - 1);
    }
  }

  lemma FlattenSnoc(chunks: seq<seq<byte>>, k: nat)
    requires 1 <= k <= |chunks|
    ensures Flatten(chunks[..k]) == Flatten(chunks[..k - 1]) + chunks[k - 1]
  {
    assert chunks[..k] == chunks[..k - 1] + [chunks[k - 1]];
    FlattenAppend(chunks[..k - 1], chunks[k - 1]);
  }

  lemma {:induction false} FlattenAppend(chunks: seq<seq<byte>>, c: seq<byte>)
    ensures Flatten(chunks + [c]) == Flatten(chunks) + c
  {
    if chunks == [] {
      assert [c][1..] == [];
      assert Flatten([c]) == c + [] == c;
    } else {
      assert (chunks + [c])[1..] == chunks[1..] + [c];
      FlattenAppend(chunks[1..], c);
    }
  }

  ghost predicate OnceUpTo(delivered: seq<Delivery<seq<byte>>>, m: nat) {
    forall v :: 1 <= v <= m ==> Times(delivered, v) == 1
  }

  /** None of the numbers 1 to m was ever stored out of order. */
  ghost predicate NoneEarly(early: multiset<int>, m: nat) {
    forall v :: 1 <= v <= m ==> v !in early
  }

  /** The output is the first k chunks exactly when each of them was delivered once. */
  lemma {:induction false} SpreadExact(chunks: seq<seq<byte>>, d: seq<Delivery<seq<byte>>>, k: nat)
    requires k <= |chunks| && forall i :: 0 <= i < |chunks| ==> 0 < |chunks[i]|
    requires forall v :: 1 <= v <= k ==> Times(d, v) >= 1
    ensures |Spread(chunks, d, k)| >= |Flatten(chunks[..k])|
    ensures |Spread(chunks, d, k)| == |Flatten(chunks[..k])| <==> OnceUpTo(d, k)
    ensures OnceUpTo(d, k) ==> Spread(chunks, d, k) == Flatten(chunks[..k])
  {
    hide Times, Repeated;
    if k > 0 {
      SpreadExact(chunks, d, k - 1);
      FlattenSnoc(chunks, k);
      RepeatedLength(chunks[k - 1], Times(d, k));
      assert OnceUpTo(d, k) <==> OnceUpTo(d, k - 1) && Times(d, k) == 1;
    }
  }

  /** End to end: in any run in which user1 has queued some of its messages, user2 has written every chunk as often as
      it was delivered. Once it has left its loop its output is the file exactly when no chunk was ever stored out of
      order; as long as no chunk was, its output is a prefix of the file. */
  lemma FileCopied(actions: seq<Action>, file: seq<byte>, buffer: seq<byte>)
    requires |buffer| == MAX_MESSAGE && 0 !in file
    requires |Chunks(file) + [END_MARKER]| <= 254
    requires MarkerFree(buffer, Chunks(file))
    requires Run(actions).Some? && Run(actions).value.queued <= Chunks(file) + [END_MARKER]
    ensures var w, n := Run(actions).value, |Chunks(file)|; var texts := DeliveredTexts(w.delivered);
      && (forall i :: 0 <= i < |texts| ==> |texts[i]| <= MAX_MESSAGE)
      && var (output, done) := Reassemble(buffer, texts);
      && (done ==> output == Spread(Chunks(file), w.delivered, n))
      && (done ==> (output == file <==> NoneEarly(w.early, n)))
      && (NoneEarly(w.early, n) ==> output <= file)
  {
    hide Run, InOrder, MarkerFree, Times, Chunks, Reassemble, Spread, Flatten, ReadAll, SendInv, RecvInv;
    var w, chunks := Run(actions).value, Chunks(file);
    Reachable(actions);
    QueuedTexts(file, w.queued);
    ReadDelivered(buffer, chunks, w.delivered, Texts(w.queued));
    ReadAllIsReassemble(buffer, DeliveredTexts(w.delivered));
    var k := Last(w.delivered);
    var m := if k <= |chunks| then k else |chunks|;
    OnceUnlessEarly(actions, m);
    assert NoneEarly(w.early, |chunks|) ==> NoneEarly(w.early, m);
    SpreadExact(chunks, w.delivered, m);
    ChunksFlatten(file);
    FlattenPrefix(chunks, m);
    assert chunks[..|chunks|] == chunks;
  }

  lemma OnceUnlessEarly(actions: seq<Action>, m: nat)
    requires Run(actions).Some? && |Run(actions).value.queued| < LAST_SEQ && m <= Last(Run(actions).value.delivered)
    ensures var w := Run(actions).value;
      && (forall v :: 1 <= v <= m ==> Times(w.delivered, v) >= 1)
      && (NoneEarly(w.early, m) ==> OnceUpTo(w.delivered, m))
      && (m < Last(w.delivered) && OnceUpTo(w.delivered, m) ==> NoneEarly(w.early, m))
  {
    hide Run, Times;
    var w := Run(actions).value;
    forall v | 1 <= v <= m
      ensures Times(w.delivered, v) >= 1 && (v !in w.early ==> Times(w.delivered, v) == 1)
    {
      DeliveriesCounted(actions, v);
    }
    if m < Last(w.delivered) && OnceUpTo(w.delivered, m) {
      forall v | 1 <= v <= m ensures v !in w.early {
        DeliveriesCounted(actions, v);
        assert Times(w.delivered, v) == 1;
      }
    }
  }

  lemma QueuedTexts(file: seq<byte>, queued: seq<Message>)
    requires 0 !in file && queued <= Chunks(file) + [END_MARKER]
    ensures Texts(queued) <= Chunks(file) + [EOF]
  {
    hide Chunks;
    ChunksNulFree(file);
    forall i | 0 <= i < |queued| ensures Texts(queued)[i] == (Chunks(file) + [EOF])[i] {
      if i < |Chunks(file)| {
        TextOfNulFree(Chunks(file)[i]);
      } else {
        MarkerText();
      }
    }
  }

  lemma MarkerText()
    ensures Text(END_MARKER) == EOF
  {
    assert END_MARKER[..3] == EOF;
    TextOfCarried(END_MARKER, EOF);
    TextOfNulFree(EOF);
  }

  lemma {:induction false} FlattenPrefix(chunks: seq<seq<byte>>, n: nat)
    requires n <= |chunks|
    ensures Flatten(chunks[..n]) <= Flatten(chunks)
  {
    if n > 0 {
      assert chunks[..n][1..] == chunks[1..][..n - 1];
      FlattenPrefix(chunks[1..], n - 1);
    }
  }
}
