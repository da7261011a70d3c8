/** The Internet checksum of CLDP's IPv4 headers: a 32-bit accumulator folded twice, against the end-around-carry sum of
    RFC 1071. */
module InternetChecksum {
  import opened Common

  type word = w: int | 0 <= w < 0x1_0000

  // The most words whose sum is sure to fit the 32-bit accumulator.
  const MAX_WORDS: int := 65537

  // ---------------------------------------------------------------- the code's arithmetic

  // A native 16-bit load on a little-endian host.
  function Load(first: byte, second: byte): word {
    first + 256 * second
  }

  /** The 16-bit words of a buffer as the host loads them; an odd last byte stands alone. */
  function WordsOf(b: seq<byte>): (ws: seq<word>)
    ensures 2 * |ws| - 1 <= |b| <= 2 * |ws|
    ensures forall i :: 0 <= i && 2 * i + 1 < |b| ==> ws[i] == Load(b[2 * i], b[2 * i + 1])
    ensures |b| == 2 * |ws| - 1 ==> ws[|ws| - 1] == b[|b| - 1]
  {
    if |b| == 0 then []
    else if |b| == 1 then [b[0]]
    else [Load(b[0], b[1])] + WordsOf(b[2..])
  }

  function Sum(ws: seq<word>): nat {
    if ws == [] then 0 else ws[0] + Sum(ws[1..])
  }

  // sum >> 16 and sum & 0xFFFF.
  function High(sum: nat): nat {
    sum / 0x1_0000
  }

  function Low(sum: nat): word {
    sum % 0x1_0000
  }

  /** Two folds of a 32-bit sum, and the truncation to 16 bits. */
  function Fold(sum: nat): word {
    var once := High(sum) + Low(sum);
    Low(once + High(once))
  }

  function Checksum(ws: seq<word>): word {
    0xFFFF - Fold(Sum(ws) % 0x1_0000_0000)
  }

  lemma {:induction false} SumSnoc(ws: seq<word>, w: word)
    ensures Sum(ws + [w]) == Sum(ws) + w
  {
    if ws == [] {
      assert [w][1..] == [];
    } else {
      assert (ws + [w])[1..] == ws[1..] + [w];
      SumSnoc(ws[1..], w);
    }
  }

  // The unsigned 32-bit addition of the accumulator.
  function Add(sum: nat, w: word): nat {
    (sum + w) % 0x1_0000_0000
  }

  lemma AddModulo(a: nat, w: word)
    ensures Add(a % 0x1_0000_0000, w) == (a + w) % 0x1_0000_0000
  {
    var q, r := a / 0x1_0000_0000, a % 0x1_0000_0000;
    assert a + w == 0x1_0000_0000 * q + (r + w);
  }

  // The accumulator after k words.
  function Partial(ws: seq<word>, k: nat): nat
    requires k <= |ws|
  {
    Sum(ws[..k]) % 0x1_0000_0000
  }

  lemma PartialStep(ws: seq<word>, k: nat)
    requires k < |ws|
    ensures Partial(ws, k + 1) == Add(Partial(ws, k), ws[k])
  {
    assert ws[..k + 1] == ws[..k] + [ws[k]];
    SumSnoc(ws[..k], ws[k]);
    AddModulo(Sum(ws[..k]), ws[k]);
  }

  lemma PartialWhole(ws: seq<word>)
    ensures Partial(ws, 0) == 0
    ensures Partial(ws, |ws|) == Sum(ws) % 0x1_0000_0000
  {
    assert ws[..|ws|] == ws;
  }

  /** calculate_checksum over the first length bytes of a buffer, with its unsigned 32-bit accumulator. */
  method Calculate(b: array<byte>, length: nat) returns (result: word)
    requires length <= b.Length
    ensures result == Checksum(WordsOf(b[..length]))
  {
    hide WordsOf, Partial, Add, Load, Sum, High, Low;
    var sum: nat := 0;
    var pos := 0;
    var len := length;
    ghost var ws := WordsOf(b[..length]);
    ghost var k := 0;
    PartialWhole(ws);
    while len > 1
      invariant pos + len == length && pos == 2 * k && 0 <= len
      invariant 0 <= k <= |ws| && sum == Partial(ws, k)
    {
      assert ws[k] == Load(b[..length][pos], b[..length][pos + 1]);
      PartialStep(ws, k);
      sum := Add(sum, Load(b[pos], b[pos + 1]));
      pos := pos + 2;
      len := len - 2;
      k := k + 1;
    }
    if len == 1 {
      PartialStep(ws, k);
      sum := Add(sum, b[pos]);
      k := k + 1;
    }
    sum := High(sum) + Low(sum);
    sum := sum + High(sum);
    result := 0xFFFF - Low(sum);
  }

  // ---------------------------------------------------------------- the reference: end-around-carry addition

  function Plus(x: word, y: word): word {
    if x + y > 0xFFFF then x + y - 0xFFFF else x + y
  }

  function OnesSum(ws: seq<word>): word {
    if ws == [] then 0 else Plus(ws[0], OnesSum(ws[1..]))
  }

  // The representative of n modulo 65535 in one's complement: zero only for zero itself.
  function Rep(n: nat): word {
    if n == 0 then 0 else (n - 1) % 0xFFFF + 1
  }

  lemma RepZero(n: nat)
    ensures Rep(n) == 0 <==> n == 0
  {
  }

  lemma RepPlus(x: word, n: nat)
    ensures Plus(x, Rep(n)) == Rep(x + n)
  {
    if n > 0 && x > 0 {
      var q, r := (n - 1) / 0xFFFF, (n - 1) % 0xFFFF;
      assert n - 1 == 0xFFFF * q + r;
      if x + r + 1 > 0xFFFF {
        assert x + n - 1 == 0xFFFF * (q + 1) + (x + r - 0xFFFF);
      } else {
        assert x + n - 1 == 0xFFFF * q + (x + r);
      }
    }
  }

  lemma {:induction false} OnesSumIsRep(ws: seq<word>)
    ensures OnesSum(ws) == Rep(Sum(ws))
  {
    if ws != [] {
      OnesSumIsRep(ws[1..]);
      RepPlus(ws[0], Sum(ws[1..]));
    }
  }

  lemma QuotientUnique(n: nat, q: nat, r: nat)
    requires n == 0xFFFF * q + r && r < 0xFFFF
    ensures n % 0xFFFF == r
  {
  }

  /** Two folds of anything that fits 32 bits give the one's complement representative. */
  lemma FoldIsRep(sum: nat)
    requires sum < 0x1_0000_0000
    ensures Fold(sum) == Rep(sum)
  {
    var hi, lo := sum / 0x1_0000, sum % 0x1_0000;
    if sum > 0 {
      if hi + lo <= 0xFFFF {
        QuotientUnique(sum - 1, hi, hi + lo - 1);
      } else {
        QuotientUnique(sum - 1, hi + 1, hi + lo - 1 - 0xFFFF);
      }
    }
  }

  lemma {:induction false} SumBound(ws: seq<word>)
    ensures Sum(ws) <= 0xFFFF * |ws|
  {
    if ws != [] {
      SumBound(ws[1..]);
    }
  }

  // Every word is 0.
  predicate AllZero(ws: seq<word>) {
    ws == [] || (ws[0] == 0 && AllZero(ws[1..]))
  }

  lemma {:induction false} SumZero(ws: seq<word>)
    ensures Sum(ws) == 0 <==> AllZero(ws)
  {
    if ws != [] {
      SumZero(ws[1..]);
    }
  }

  /** The accumulate-then-fold checksum is the complement of the RFC 1071 sum, for any buffer of up to 65537 words. */
  lemma ChecksumIsRfc1071(ws: seq<word>)
    requires |ws| <= MAX_WORDS
    ensures Checksum(ws) == 0xFFFF - OnesSum(ws)
    ensures Checksum(ws) == 0xFFFF <==> AllZero(ws)
  {
    hide Sum, OnesSum, Fold, Rep, AllZero;
    SumBound(ws);
    SumZero(ws);
    var total := Sum(ws);
    assert total % 0x1_0000_0000 == total;
    FoldIsRep(total);
    OnesSumIsRep(ws);
    RepZero(total);
  }

  function Ones(n: nat): seq<word> {
    seq(n, _ => 0xFFFF)
  }

  function Zeros(n: nat): seq<word> {
    seq(n, _ => 0)
  }

  lemma {:induction false} SumOnes(n: nat, m: nat)
    ensures Sum(Ones(n) + Zeros(m)) == 0xFFFF * n
    decreases n + m
  {
    var ws := Ones(n) + Zeros(m);
    if n > 0 {
      assert ws[1..] == Ones(n - 1) + Zeros(m);
      SumOnes(n - 1, m);
    } else if m > 0 {
      assert ws[1..] == Ones(0) + Zeros(m - 1);
      SumOnes(0, m - 1);
    }
  }

  ghost predicate CorrectFor(n: nat) {
    forall ws: seq<word> :: |ws| == n ==> Checksum(ws) == 0xFFFF - OnesSum(ws)
  }

  /** The bound is tight: the checksum of every n-word buffer is right exactly when n is at most 65537. */
  lemma CorrectExactlyUpTo(n: nat)
    ensures CorrectFor(n) <==> n <= MAX_WORDS
  {
    if n <= MAX_WORDS {
      forall ws: seq<word> | |ws| == n ensures Checksum(ws) == 0xFFFF - OnesSum(ws) {
        ChecksumIsRfc1071(ws);
      }
    } else {
      var ws := Ones(MAX_WORDS + 1) + Zeros(n - MAX_WORDS - 1);
      SumOnes(MAX_WORDS + 1, n - MAX_WORDS - 1);
      OnesSumIsRep(ws);
      assert |ws| == n && Checksum(ws) != 0xFFFF - OnesSum(ws);
    }
  }

  // ---------------------------------------------------------------- byte order

  function Swap(w: word): word {
    w % 256 * 256 + w / 256
  }

  function SwapAll(ws: seq<word>): (r: seq<word>)
    ensures |r| == |ws|
    ensures forall i :: 0 <= i < |ws| ==> r[i] == Swap(ws[i])
  {
    if ws == [] then [] else [Swap(ws[0])] + SwapAll(ws[1..])
  }

  lemma SwapParts(low: byte, high: byte)
    ensures Swap(low + 256 * high) == high + 256 * low
  {
  }

  lemma SwapPlus(x: word, y: word)
    ensures Swap(Plus(x, y)) == Plus(Swap(x), Swap(y))
  {
    var x0, x1, y0, y1 := x % 256, x / 256, y % 256, y / 256;
    SwapParts(x0, x1);
    SwapParts(y0, y1);
    hide Swap;
    var low, high := x0 + y0, x1 + y1;
    var high' := if low > 255 then high + 1 else high;
    var low' := if low > 255 then low - 256 else low;
    if high' <= 255 {
      SwapParts(low', high');
    } else if low' < 255 {
      SwapParts(low' + 1, high' - 256);
    } else {
      SwapParts(0, high' - 255);
    }
  }

  lemma SwapComplement(w: word)
    ensures Swap(0xFFFF - w) == 0xFFFF - Swap(w)
  {
    var low, high := w % 256, w / 256;
    assert w == low + 256 * high;
    SwapParts(255 - low, 255 - high);
    SwapParts(low, high);
    hide Swap;
  }

  lemma {:induction false} OnesSumSwap(ws: seq<word>)
    ensures OnesSum(SwapAll(ws)) == Swap(OnesSum(ws))
  {
    if ws != [] {
      OnesSumSwap(ws[1..]);
      SwapPlus(ws[0], OnesSum(ws[1..]));
      assert SwapAll(ws)[1..] == SwapAll(ws[1..]);
    }
  }

  // The words a big-endian host loads.
  function BigWordsOf(b: seq<byte>): (ws: seq<word>)
    requires |b| % 2 == 0
    ensures 2 * |ws| == |b|
    ensures forall i :: 0 <= i < |ws| ==> ws[i] == Load(b[2 * i + 1], b[2 * i])
  {
    if |b| == 0 then [] else [Load(b[1], b[0])] + BigWordsOf(b[2..])
  }

  // The two bytes a little-endian and a big-endian host store for a word.
  function LittleStore(w: word): seq<byte> {
    [w % 256, w / 256]
  }

  function BigStore(w: word): seq<byte> {
    [w / 256, w % 256]
  }

  lemma BigWordsSwapped(b: seq<byte>)
    requires |b| % 2 == 0
    ensures BigWordsOf(b) == SwapAll(WordsOf(b))
  {
    hide WordsOf, SwapAll, BigWordsOf, Swap;
    var ws := WordsOf(b);
    assert |ws| == |BigWordsOf(b)|;
    forall i | 0 <= i < |ws| ensures BigWordsOf(b)[i] == SwapAll(ws)[i] {
      SwapParts(b[2 * i], b[2 * i + 1]);
    }
  }

  lemma StoreSwap(w: word)
    ensures LittleStore(w) == BigStore(Swap(w))
  {
    SwapParts(w % 256, w / 256);
    hide Swap;
    assert w == w % 256 + 256 * (w / 256);
  }

  /** Swapping the bytes of every word swaps the bytes of the checksum. */
  lemma ChecksumSwap(ws: seq<word>)
    requires |ws| <= MAX_WORDS
    ensures Checksum(SwapAll(ws)) == Swap(Checksum(ws))
  {
    hide Checksum, OnesSum, Swap, SwapAll;
    ChecksumIsRfc1071(ws);
    ChecksumIsRfc1071(SwapAll(ws));
    OnesSumSwap(ws);
    SwapComplement(OnesSum(ws));
  }

  /** Byte-order independence, section 2 (B) of RFC 1071: native loads and a native store put the same two bytes on the
      wire on a little-endian and on a big-endian host. */
  lemma ByteOrderIndependent(b: seq<byte>)
    requires |b| % 2 == 0 && |b| <= 2 * MAX_WORDS
    ensures LittleStore(Checksum(WordsOf(b))) == BigStore(Checksum(BigWordsOf(b)))
  {
    hide Checksum, WordsOf, BigWordsOf, SwapAll, Swap, LittleStore, BigStore;
    BigWordsSwapped(b);
    ChecksumSwap(WordsOf(b));
    StoreSwap(Checksum(WordsOf(b)));
  }
}
