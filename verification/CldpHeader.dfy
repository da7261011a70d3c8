/** The IPv4 header (section 3.1 of RFC 791) of a CLDP packet: its verification, the server's rewriting of a query
    into a reply, and the client's check of that reply. */
module CldpHeader {
  import opened Common
  import opened InternetChecksum

  const HEADER_SIZE: int := 20
  const CLDP_HEADER_SIZE: int := 8
  const CLDP_PROTOCOL: byte := 253
  const QUERY_TYPE: byte := 2
  const RESPONSE_TYPE: byte := 3

  // ---------------------------------------------------------------- fields, as the host loads them

  function Field(h: seq<byte>, at: nat): word
    requires at + 1 < |h|
  {
    Load(h[at], h[at + 1])
  }

  /** The header with its checksum field (bytes 10 and 11) cleared. */
  function Cleared(h: seq<byte>): (r: seq<byte>)
    requires |h| >= HEADER_SIZE
    ensures |r| == |h|
  {
    h[10 := 0][11 := 0]
  }

  function Source(h: seq<byte>): seq<byte>
    requires |h| >= HEADER_SIZE
  {
    h[12..16]
  }

  function Destination(h: seq<byte>): seq<byte>
    requires |h| >= HEADER_SIZE
  {
    h[16..20]
  }

  /** The repository's test: recompute over the cleared header and compare. */
  predicate Accepts(h: seq<byte>)
    requires |h| == HEADER_SIZE
  {
    Field(h, 10) == Checksum(WordsOf(Cleared(h)))
  }

  /** The test of RFC 1071: the one's complement sum of all words, the field included, is all ones. */
  predicate SumsToOnes(h: seq<byte>)
    requires |h| == HEADER_SIZE
  {
    OnesSum(WordsOf(h)) == 0xFFFF
  }

  // ---------------------------------------------------------------- the sum of a header's words

  lemma TailSum(h: seq<byte>, at: nat)
    requires at + 2 <= |h|
    ensures Sum(WordsOf(h[at..])) == Field(h, at) + Sum(WordsOf(h[at + 2..]))
  {
    var t := h[at..];
    assert t[2..] == h[at + 2..];
    assert WordsOf(t)[1..] == WordsOf(t[2..]);
  }

  // The ten words of a header, less its total length, identification and checksum.
  function Others(h: seq<byte>): nat
    requires |h| == HEADER_SIZE
  {
    Field(h, 0) + Field(h, 6) + Field(h, 8) + Field(h, 12) + Field(h, 14) + Field(h, 16) + Field(h, 18)
  }

  lemma HeaderSum(h: seq<byte>)
    requires |h| == HEADER_SIZE
    ensures Sum(WordsOf(h)) == Others(h) + Field(h, 2) + Field(h, 4) + Field(h, 10)
  {
    hide Field, Sum, WordsOf;
    assert h[0..] == h;
    TailSum(h, 0);
    TailSum(h, 2);
    TailSum(h, 4);
    TailSum(h, 6);
    TailSum(h, 8);
    TailSum(h, 10);
    TailSum(h, 12);
    TailSum(h, 14);
    TailSum(h, 16);
    TailSum(h, 18);
    EmptySum(h[20..]);
  }

  lemma EmptySum(t: seq<byte>)
    requires t == []
    ensures Sum(WordsOf(t)) == 0
  {
  }

  lemma ClearedFields(h: seq<byte>)
    requires |h| == HEADER_SIZE
    ensures Others(Cleared(h)) == Others(h)
    ensures Field(Cleared(h), 2) == Field(h, 2) && Field(Cleared(h), 4) == Field(h, 4) && Field(Cleared(h), 10) == 0
  {
  }

  lemma ClearedSum(h: seq<byte>)
    requires |h| == HEADER_SIZE
    ensures Sum(WordsOf(h)) == Sum(WordsOf(Cleared(h))) + Field(h, 10)
  {
    hide Others, Field, Sum, WordsOf, Cleared;
    HeaderSum(h);
    HeaderSum(Cleared(h));
    ClearedFields(h);
  }

  lemma HeaderChecksum(h: seq<byte>)
    requires |h| == HEADER_SIZE
    ensures Checksum(WordsOf(h)) == 0xFFFF - Rep(Sum(WordsOf(h)))
  {
    hide Checksum, OnesSum, Rep, Sum;
    ChecksumIsRfc1071(WordsOf(h));
    OnesSumIsRep(WordsOf(h));
  }

  // ---------------------------------------------------------------- the comparison against the RFC's test

  // Adding c to a sum gives all ones exactly when c is its complement, or both are all ones.
  lemma CompletesToOnes(c: word, n: nat)
    ensures Rep(c + n) == 0xFFFF <==> c == 0xFFFF - Rep(n) || (c == 0xFFFF && Rep(n) == 0xFFFF)
  {
    hide Rep;
    RepPlus(c, n);
  }

  predicate ZeroBytes(b: seq<byte>) {
    forall i :: 0 <= i < |b| ==> b[i] == 0
  }

  lemma ByteInSum(h: seq<byte>, i: nat)
    requires |h| == HEADER_SIZE && i < HEADER_SIZE
    ensures Sum(WordsOf(h)) >= h[i]
  {
    hide Sum, WordsOf;
    HeaderSum(h);
  }

  lemma ZeroSum(h: seq<byte>)
    requires |h| == HEADER_SIZE && ZeroBytes(h)
    ensures Sum(WordsOf(h)) == 0
  {
    hide Sum, WordsOf;
    HeaderSum(h);
  }

  /** Recompute-and-compare and the RFC's test differ only on a received field of 0xFFFF: that the code accepts only
      when the rest of the header is zero. */
  lemma AcceptsIsRfcTest(h: seq<byte>)
    requires |h| == HEADER_SIZE
    ensures Accepts(h) <==> SumsToOnes(h) && (Field(h, 10) == 0xFFFF ==> ZeroBytes(Cleared(h)))
  {
    hide Checksum, OnesSum, Rep, Sum, WordsOf, Field, Cleared;
    var c, n := Field(h, 10), Sum(WordsOf(Cleared(h)));
    HeaderChecksum(Cleared(h));
    OnesSumIsRep(WordsOf(h));
    ClearedSum(h);
    CompletesToOnes(c, n);
    RepZero(n);
    if ZeroBytes(Cleared(h)) {
      ZeroSum(Cleared(h));
    } else {
      var i :| 0 <= i < HEADER_SIZE && Cleared(h)[i] != 0;
      ByteInSum(Cleared(h), i);
    }
  }

  // ---------------------------------------------------------------- damage

  /** Two headers that differ in the word at k and nowhere else. */
  predicate OneWordOff(h: seq<byte>, h': seq<byte>, k: nat) {
    && |h| == HEADER_SIZE && |h'| == HEADER_SIZE && k % 2 == 0 && k < HEADER_SIZE
    && (forall i :: 0 <= i < HEADER_SIZE && i != k && i != k + 1 ==> h'[i] == h[i])
    && h' != h
  }

  lemma FieldsOff(h: seq<byte>, h': seq<byte>, k: nat)
    requires OneWordOff(h, h', k)
    ensures Field(h', k) != Field(h, k)
    ensures forall i: nat :: i < HEADER_SIZE && i % 2 == 0 && i != k ==> Field(h', i) == Field(h, i)
  {
    var i :| 0 <= i < HEADER_SIZE && h'[i] != h[i];
  }

  lemma SumOff(h: seq<byte>, h': seq<byte>, k: nat)
    requires OneWordOff(h, h', k)
    ensures Sum(WordsOf(h')) - Sum(WordsOf(h)) == Field(h', k) - Field(h, k) != 0
  {
    hide Field, Sum, WordsOf;
    FieldsOff(h, h', k);
    HeaderSum(h);
    HeaderSum(h');
  }

  // Numbers that are both positive multiples of 65535, and whose difference is that of two different words.
  lemma RepStays(n: nat, n': nat, x: word, y: word)
    requires Rep(n) == 0xFFFF && n' - n == y - x != 0
    ensures Rep(n') == 0xFFFF <==> n' > 0 && ((x == 0 && y == 0xFFFF) || (x == 0xFFFF && y == 0))
  {
    assert (n - 1) % 0xFFFF == 0xFFFE;
  }

  /** A header that the code accepts, changed in one word, is accepted exactly if the word went from 0 to 0xFFFF or
      back, the header is not all zero now, and a checksum field of 0xFFFF stands in an otherwise zero header. */
  lemma DamageFound(h: seq<byte>, h': seq<byte>, k: nat)
    requires OneWordOff(h, h', k) && Accepts(h)
    ensures Accepts(h') <==>
      && ((Field(h, k) == 0 && Field(h', k) == 0xFFFF) || (Field(h, k) == 0xFFFF && Field(h', k) == 0))
      && !ZeroBytes(h') && (Field(h', 10) == 0xFFFF ==> ZeroBytes(Cleared(h')))
  {
    hide Accepts, OnesSum, Rep, Sum, WordsOf, Field, Cleared;
    AcceptsIsRfcTest(h);
    AcceptsIsRfcTest(h');
    OnesSumIsRep(WordsOf(h));
    OnesSumIsRep(WordsOf(h'));
    SumOff(h, h', k);
    RepStays(Sum(WordsOf(h)), Sum(WordsOf(h')), Field(h, k), Field(h', k));
    if ZeroBytes(h') {
      ZeroSum(h');
    } else {
      var i :| 0 <= i < HEADER_SIZE && h'[i] != 0;
      ByteInSum(h', i);
    }
  }

  // ---------------------------------------------------------------- verification in place

  /** The check in server and client: the field is read, cleared in the buffer and compared with the recomputed value.
      */
  method Verify(buffer: array<byte>) returns (ok: bool)
    requires buffer.Length >= HEADER_SIZE
    modifies buffer
    ensures ok == Accepts(old(buffer[..HEADER_SIZE]))
    ensures buffer[..] == Cleared(old(buffer[..]))
  {
    ghost var was := buffer[..];
    var received := Load(buffer[10], buffer[11]);
    buffer[10] := 0;
    buffer[11] := 0;
    assert buffer[..] == Cleared(was);
    assert buffer[..HEADER_SIZE] == Cleared(was[..HEADER_SIZE]);
    var computed := Calculate(buffer, HEADER_SIZE);
    ok := received == computed;
  }

  // ---------------------------------------------------------------- from query to reply

  /** A header with the checksum of its other bytes stored natively. */
  function Sealed(h: seq<byte>): (r: seq<byte>)
    requires |h| == HEADER_SIZE
    ensures |r| == HEADER_SIZE
  {
    var c := Checksum(WordsOf(Cleared(h)));
    h[10 := c % 256][11 := c / 256]
  }

  // The header send_query and send_hello build on a zeroed buffer.
  function NewHeader(total: word, id: word, source: seq<byte>, destination: seq<byte>): (r: seq<byte>)
    requires |source| == 4 && |destination| == 4
    ensures |r| == HEADER_SIZE
  {
    Sealed([0x45, 0] + BigStore(total) + BigStore(id) + [0, 0, 64, CLDP_PROTOCOL, 0, 0] + source + destination)
  }

  // The server's rewriting of a query: addresses turned round, a new total length and identification, a clear checksum.
  function Readdressed(h: seq<byte>, server: seq<byte>, total: word, id: word): (r: seq<byte>)
    requires |h| == HEADER_SIZE && |server| == 4
    ensures |r| == HEADER_SIZE && r[0] == h[0] && r[1] == h[1] && r[10] == 0 && r[11] == 0
    ensures r[2] == total / 256 && r[3] == total % 256 && r[4] == id / 256 && r[5] == id % 256
    ensures forall i :: 6 <= i < 10 ==> r[i] == h[i]
    ensures forall i :: 12 <= i < 16 ==> r[i] == server[i - 12]
    ensures forall i :: 16 <= i < 20 ==> r[i] == h[i - 4]
  {
    h[..2] + BigStore(total) + BigStore(id) + h[6..10] + [0, 0] + server + Source(h)
  }

  function Reply(h: seq<byte>, server: seq<byte>, total: word, id: word): (r: seq<byte>)
    requires |h| == HEADER_SIZE && |server| == 4
    ensures |r| == HEADER_SIZE
  {
    Sealed(Readdressed(h, server, total, id))
  }

  lemma SealedAccepted(h: seq<byte>)
    requires |h| == HEADER_SIZE
    ensures Accepts(Sealed(h))
    ensures Cleared(Sealed(h)) == Cleared(h)
  {
    hide Checksum, WordsOf;
    var c := Checksum(WordsOf(Cleared(h)));
    assert Cleared(Sealed(h)) == Cleared(h);
    assert Load(c % 256, c / 256) == c;
  }

  lemma RepCongruent(n: nat)
    ensures Rep(n) % 0xFFFF == n % 0xFFFF
  {
    if n > 0 {
      var q, r := (n - 1) / 0xFFFF, (n - 1) % 0xFFFF;
      if r + 1 < 0xFFFF {
        QuotientUnique(n, q, r + 1);
      } else {
        QuotientUnique(n, q + 1, 0);
      }
    }
  }

  lemma ReplyIgnoresChecksum(h: seq<byte>, server: seq<byte>, total: word, id: word)
    requires |h| == HEADER_SIZE && |server| == 4
    ensures Reply(Cleared(h), server, total, id) == Reply(h, server, total, id)
  {
    hide Readdressed;
    assert Readdressed(Cleared(h), server, total, id) == Readdressed(h, server, total, id);
  }

  // The words of a header that passes the RFC's test sum to a multiple of 65535.
  lemma TestedSum(h: seq<byte>)
    requires |h| == HEADER_SIZE && SumsToOnes(h)
    ensures Sum(WordsOf(h)) % 0xFFFF == 0
  {
    hide Sum, WordsOf, OnesSum, Rep;
    OnesSumIsRep(WordsOf(h));
    RepCongruent(Sum(WordsOf(h)));
  }

  /** r answers h: the addresses are turned round, and only checksum, total length and identification may differ
      otherwise. */
  predicate Turned(h: seq<byte>, r: seq<byte>)
    requires |h| == HEADER_SIZE && |r| == HEADER_SIZE
  {
    Source(r) == Destination(h) && Destination(r) == Source(h) && r[..2] == h[..2] && r[6..10] == h[6..10]
  }

  /** The rewriting of a query addressed to this server turns it round, writes length and identification in network
      order, and seals it. */
  lemma ReplyTurns(h: seq<byte>, server: seq<byte>, total: word, id: word)
    requires |h| == HEADER_SIZE && server == Destination(h)
    ensures var r := Reply(h, server, total, id);
      Turned(h, r) && Accepts(r) && r[2..4] == BigStore(total) && r[4..6] == BigStore(id)
  {
    hide Checksum, WordsOf, Readdressed, Accepts;
    SealedAccepted(Readdressed(h, server, total, id));
  }

  lemma TurnedOthers(h: seq<byte>, r: seq<byte>)
    requires |h| == HEADER_SIZE && |r| == HEADER_SIZE && Turned(h, r)
    ensures Others(r) == Others(h)
  {
    assert r[0] == r[..2][0] == h[..2][0] && r[1] == r[..2][1] == h[..2][1];
    forall i | 6 <= i < 10 ensures r[i] == h[i] {
      assert r[i] == r[6..10][i - 6] == h[6..10][i - 6];
    }
    forall i | 12 <= i < 16 ensures r[i] == h[i + 4] && h[i] == r[i + 4] {
      assert r[i] == Source(r)[i - 12] == Destination(h)[i - 12];
      assert h[i] == Source(h)[i - 12] == Destination(r)[i - 12];
    }
  }

  // The fields of a header that a reply changes: checksum, total length and identification.
  function Changing(h: seq<byte>): nat
    requires |h| == HEADER_SIZE
  {
    Field(h, 10) + Field(h, 2) + Field(h, 4)
  }

  lemma MultiplesDiffer(x: nat, y: nat, z: nat) returns (n: int)
    requires (x + z) % 0xFFFF == 0 && (y + z) % 0xFFFF == 0
    ensures x == y + 0xFFFF * n
  {
    n := (x + z) / 0xFFFF - (y + z) / 0xFFFF;
  }

  /** Turning the addresses round permutes words and leaves their sum alone: between two headers that pass the RFC's
      test, as every accepted one does, the checksums differ, up to a multiple of 65535, by exactly the changes of total
      length and identification. */
  lemma ReplyChecksumChange(h: seq<byte>, r: seq<byte>) returns (n: int)
    requires |h| == HEADER_SIZE && |r| == HEADER_SIZE && Turned(h, r) && SumsToOnes(h) && SumsToOnes(r)
    ensures Changing(r) == Changing(h) + 0xFFFF * n
  {
    hide Sum, WordsOf, Others, Field, Turned, SumsToOnes;
    TurnedOthers(h, r);
    TestedSum(h);
    TestedSum(r);
    HeaderSum(h);
    HeaderSum(r);
    n := MultiplesDiffer(Changing(r), Changing(h), Others(h));
  }

  // ---------------------------------------------------------------- the server's loop body and the client's test

  predicate ServerTakes(packet: seq<byte>, server: seq<byte>)
    requires |packet| > HEADER_SIZE
  {
    && packet[9] == CLDP_PROTOCOL
    && Accepts(packet[..HEADER_SIZE])
    && packet[HEADER_SIZE] == QUERY_TYPE
    && Destination(packet[..HEADER_SIZE]) == server
  }

  predicate ClientTakes(header: seq<byte>, client: seq<byte>)
    requires |header| == HEADER_SIZE
  {
    && Destination(header) == client
    && header[9] == CLDP_PROTOCOL
    && Accepts(header)
    && Source(header) != client
  }

  /** The bytes the server sends back for a query. */
  function ReplyPacket(packet: seq<byte>, server: seq<byte>, metadata: seq<byte>, id: word): seq<byte>
    requires |packet| >= HEADER_SIZE + CLDP_HEADER_SIZE && |server| == 4 && |metadata| < 256
  {
    Reply(packet[..HEADER_SIZE], server, HEADER_SIZE + CLDP_HEADER_SIZE + |metadata|, id)
    + [RESPONSE_TYPE, |metadata|] + packet[22..28] + metadata
  }

  /** A query sent by a client is taken by the server it names, and the reply to it by that client unless client and
      server are one host, whatever the metadata and identifications; both headers also pass the test of RFC 1071. */
  lemma QueryIsAnswered(client: seq<byte>, server: seq<byte>, id: word, body: seq<byte>, metadata: seq<byte>, id': word)
    requires |client| == 4 && |server| == 4 && |metadata| < 256
    requires |body| == 9 && body[0] == QUERY_TYPE
    ensures var query := NewHeader(29, id, client, server) + body;
      var reply := ReplyPacket(query, server, metadata, id');
      && ServerTakes(query, server)
      && (ClientTakes(reply[..HEADER_SIZE], client) <==> client != server)
      && Source(reply) == server
      && query[..10] == [0x45, 0, 0, 29, id / 256, id % 256, 0, 0, 64, 253]
      && reply[20..] == [3, |metadata|] + body[2..8] + metadata
      && SumsToOnes(query[..HEADER_SIZE]) && SumsToOnes(reply[..HEADER_SIZE])
  {
    var h := NewHeader(29, id, client, server);
    var query := h + body;
    var total := HEADER_SIZE + CLDP_HEADER_SIZE + |metadata|;
    var r := Reply(h, server, total, id');
    assert query[..HEADER_SIZE] == h && query[HEADER_SIZE] == body[0] && query[9] == h[9];
    assert ReplyPacket(query, server, metadata, id')[..HEADER_SIZE] == r by {
      hide Reply, NewHeader;
    }
    NewHeaderFields(29, id, client, server);
    ReplyTaken(h, server, total, id');
    hide Accepts, NewHeader, Reply, SumsToOnes;
    AcceptsIsRfcTest(h);
    AcceptsIsRfcTest(r);
    assert Source(ReplyPacket(query, server, metadata, id')) == Source(r);
    ReplyBody(h, body, server, metadata, id');
    QueryStart(id, client, server);
    assert query[..10] == h[..10];
    hide ReplyPacket, Source, Destination;
  }

  lemma QueryStart(id: word, client: seq<byte>, server: seq<byte>)
    requires |client| == 4 && |server| == 4
    ensures NewHeader(29, id, client, server)[..10] == [0x45, 0, 0, 29, id / 256, id % 256, 0, 0, 64, 253]
  {
    hide Checksum, WordsOf;
  }

  // The answer keeps the transaction id and what follows it.
  lemma ReplyBody(h: seq<byte>, body: seq<byte>, server: seq<byte>, metadata: seq<byte>, id: word)
    requires |h| == HEADER_SIZE && |body| == 9 && |server| == 4 && |metadata| < 256
    ensures ReplyPacket(h + body, server, metadata, id)[20..] == [3, |metadata|] + body[2..8] + metadata
  {
    hide Reply;
    assert (h + body)[22..28] == body[2..8];
  }

  lemma NewHeaderFields(total: word, id: word, source: seq<byte>, destination: seq<byte>)
    requires |source| == 4 && |destination| == 4
    ensures var h := NewHeader(total, id, source, destination);
      Accepts(h) && Source(h) == source && Destination(h) == destination && h[9] == CLDP_PROTOCOL
  {
    var raw := [0x45, 0] + BigStore(total) + BigStore(id) + [0, 0, 64, CLDP_PROTOCOL, 0, 0] + source + destination;
    SealedAccepted(raw);
    assert raw[12..16] == source && raw[16..20] == destination;
    hide Checksum, WordsOf, Accepts, BigStore;
    assert Sealed(raw)[12..16] == raw[12..16] && Sealed(raw)[16..20] == raw[16..20];
  }

  lemma ReplyTaken(h: seq<byte>, server: seq<byte>, total: word, id: word)
    requires |h| == HEADER_SIZE && server == Destination(h) && h[9] == CLDP_PROTOCOL
    ensures var r := Reply(h, server, total, id);
      Source(r) == server && Accepts(r) && (ClientTakes(r, Source(h)) <==> server != Source(h))
  {
    ReplyTurns(h, server, total, id);
    hide Accepts, Readdressed, Checksum, WordsOf;
    var r := Reply(h, server, total, id);
    assert r[9] == r[6..10][3] == h[6..10][3];
  }

  // ---------------------------------------------------------------- the server's loop body, in place

  /** What the client takes: a CLDP packet to its own address from another host, whose header passes the test of RFC
      1071. */
  lemma TakenExactly(header: seq<byte>, client: seq<byte>)
    requires |header| == HEADER_SIZE
    ensures ClientTakes(header, client) <==>
      && header[16..20] == client && header[12..16] != client && header[9] == 253
      && SumsToOnes(header) && (Field(header, 10) == 0xFFFF ==> ZeroBytes(Cleared(header)))
  {
    hide Accepts, SumsToOnes, Field, Cleared;
    AcceptsIsRfcTest(header);
  }

  /** What the server answers: a CLDP query to its own address whose header passes the test of RFC 1071. */
  lemma AnsweredExactly(packet: seq<byte>, server: seq<byte>)
    requires |packet| > HEADER_SIZE && |server| == 4
    ensures var h := packet[..HEADER_SIZE];
      ServerTakes(packet, server) <==>
        && packet[9] == 253 && packet[20] == 2 && packet[16..20] == server
        && SumsToOnes(h) && (Field(h, 10) == 0xFFFF ==> ZeroBytes(Cleared(h)))
  {
    hide Accepts, SumsToOnes, Field, Cleared;
    AcceptsIsRfcTest(packet[..HEADER_SIZE]);
    assert packet[..HEADER_SIZE][16..20] == packet[16..20];
  }

  /** A query that the server answers, with its header changed in one word on the way, is answered only if the word went
      from 0 to 0xFFFF or back. */
  lemma DamagedNotAnswered(packet: seq<byte>, damaged: seq<byte>, server: seq<byte>, k: nat)
    requires |packet| == |damaged| > HEADER_SIZE && |server| == 4 && ServerTakes(packet, server)
    requires OneWordOff(packet[..HEADER_SIZE], damaged[..HEADER_SIZE], k)
    ensures var x, y := Field(packet, k), Field(damaged, k);
      ServerTakes(damaged, server) ==> (x == 0 && y == 0xFFFF) || (x == 0xFFFF && y == 0)
  {
    hide Accepts, Cleared;
    DamageFound(packet[..HEADER_SIZE], damaged[..HEADER_SIZE], k);
  }

  /** One received packet in the server's buffer. Nothing but the checksum field changes unless a reply is sent. */
  method Answer(buffer: array<byte>, server: seq<byte>, metadata: seq<byte>, id: word) returns (sent: bool)
    requires buffer.Length >= HEADER_SIZE + CLDP_HEADER_SIZE + |metadata| && |server| == 4 && |metadata| < 256
    modifies buffer
    ensures sent == ServerTakes(old(buffer[..]), server)
    ensures var h := old(buffer[..HEADER_SIZE]);
      sent <==>
        && h[9] == 253 && old(buffer[20]) == 2 && h[16..20] == server
        && SumsToOnes(h) && (Field(h, 10) == 0xFFFF ==> ZeroBytes(Cleared(h)))
    ensures !sent ==>
      buffer[..] == if old(buffer[9]) != CLDP_PROTOCOL then old(buffer[..]) else Cleared(old(buffer[..]))
    ensures sent ==> buffer[..] == ReplyPacket(old(buffer[..]), server, metadata, id) + old(buffer[28 + |metadata|..])
  {
    ghost var was := buffer[..];
    hide Accepts, ReplyPacket, SumsToOnes;
    AnsweredExactly(was, server);
    assert was[..HEADER_SIZE] == buffer[..HEADER_SIZE];
    sent := false;
    if buffer[9] != CLDP_PROTOCOL {
      return;
    }
    var ok := Verify(buffer);
    if !ok || buffer[20] != QUERY_TYPE {
      return;
    }
    assert buffer[16..20] == Destination(was[..HEADER_SIZE]);
    if buffer[16..20] != server {
      return;
    }
    PacketIgnoresChecksum(was, server, metadata, id);
    assert buffer[28 + |metadata|..] == was[28 + |metadata|..];
    WriteReply(buffer, server, metadata, id);
    sent := true;
  }

  lemma PacketIgnoresChecksum(packet: seq<byte>, server: seq<byte>, metadata: seq<byte>, id: word)
    requires |packet| >= HEADER_SIZE + CLDP_HEADER_SIZE && |server| == 4 && |metadata| < 256
    ensures ReplyPacket(Cleared(packet), server, metadata, id) == ReplyPacket(packet, server, metadata, id)
  {
    var total := HEADER_SIZE + CLDP_HEADER_SIZE + |metadata|;
    ReplyIgnoresChecksum(packet[..HEADER_SIZE], server, total, id);
    assert Cleared(packet)[..HEADER_SIZE] == Cleared(packet[..HEADER_SIZE]);
    assert Cleared(packet)[22..28] == packet[22..28];
    hide Reply;
  }

  /** The reply written over a verified query. */
  method WriteReply(buffer: array<byte>, server: seq<byte>, metadata: seq<byte>, id: word)
    requires buffer.Length >= HEADER_SIZE + CLDP_HEADER_SIZE + |metadata| && |server| == 4 && |metadata| < 256
    requires buffer[10] == 0 && buffer[11] == 0
    modifies buffer
    ensures buffer[..] == ReplyPacket(old(buffer[..]), server, metadata, id) + old(buffer[28 + |metadata|..])
  {
    ghost var was := buffer[..];
    ghost var r := Reply(was[..HEADER_SIZE], server, HEADER_SIZE + CLDP_HEADER_SIZE + |metadata|, id);
    hide Reply, ReplyPacket;
    assert was[..HEADER_SIZE] == buffer[..HEADER_SIZE];
    Readdress(buffer, server, HEADER_SIZE + CLDP_HEADER_SIZE + |metadata|, id);
    assert buffer[..] == r + was[HEADER_SIZE..];
    assert forall i :: 22 <= i < buffer.Length ==> buffer[i] == was[i];
    buffer[20], buffer[21] := RESPONSE_TYPE, |metadata|;
    forall i | 0 <= i < |metadata| {
      buffer[28 + i] := metadata[i];
    }
    ghost var now := buffer[..];
    assert now[..HEADER_SIZE] == r;
    assert now[22..28] == was[22..28] && now[28 + |metadata|..] == was[28 + |metadata|..];
    assert now[28..28 + |metadata|] == metadata;
    PacketWritten(was, now, server, metadata, id);
  }

  lemma PacketWritten(was: seq<byte>, now: seq<byte>, server: seq<byte>, metadata: seq<byte>, id: word)
    requires |was| == |now| >= HEADER_SIZE + CLDP_HEADER_SIZE + |metadata| && |server| == 4 && |metadata| < 256
    requires now[..HEADER_SIZE] == Reply(was[..HEADER_SIZE], server, HEADER_SIZE + CLDP_HEADER_SIZE + |metadata|, id)
    requires now[20] == RESPONSE_TYPE && now[21] == |metadata| && now[22..28] == was[22..28]
    requires now[28..28 + |metadata|] == metadata && now[28 + |metadata|..] == was[28 + |metadata|..]
    ensures now == ReplyPacket(was, server, metadata, id) + was[28 + |metadata|..]
  {
    hide Reply;
    assert now[HEADER_SIZE..28] == [RESPONSE_TYPE, |metadata|] + now[22..28];
    FourParts(now, HEADER_SIZE, 28, 28 + |metadata|);
    assert now[..HEADER_SIZE] + ([RESPONSE_TYPE, |metadata|] + now[22..28])
      == now[..HEADER_SIZE] + [RESPONSE_TYPE, |metadata|] + now[22..28];
  }

  lemma FourParts(b: seq<byte>, i: nat, j: nat, k: nat)
    requires i <= j <= k <= |b|
    ensures b == b[..i] + b[i..j] + b[j..k] + b[k..]
  {
  }

  /** The rewriting of a verified query's header, its checksum field already clear. */
  method Readdress(buffer: array<byte>, server: seq<byte>, total: word, id: word)
    requires buffer.Length >= HEADER_SIZE && |server| == 4 && buffer[10] == 0 && buffer[11] == 0
    modifies buffer
    ensures buffer[..] == Reply(old(buffer[..HEADER_SIZE]), server, total, id) + old(buffer[HEADER_SIZE..])
  {
    ghost var h := buffer[..HEADER_SIZE];
    forall i | 16 <= i < 20 {
      buffer[i] := buffer[i - 4];
    }
    forall i | 12 <= i < 16 {
      buffer[i] := server[i - 12];
    }
    buffer[2], buffer[3] := total / 256, total % 256;
    buffer[4], buffer[5] := id / 256, id % 256;
    ghost var raw := Readdressed(h, server, total, id);
    hide Readdressed, Checksum, WordsOf;
    assert buffer[..HEADER_SIZE] == raw;
    assert Cleared(raw) == raw;
    var c := Calculate(buffer, HEADER_SIZE);
    buffer[10], buffer[11] := c % 256, c / 256;
  }
}
