/**
  The IPv4 header checksum of sockets/hw7/client.c: the ones'-complement sum of section 3.1 of
  RFC 791, with the properties section 2 of RFC 1071 claims for it.
*/
module HeaderChecksum {
  import opened Common

  type Byte = x: int | 0 <= x < 256
  type Word = x: int | 0 <= x < 65536

  // ----- The carry loop and its closed form -----

  /** One pass of the carry loop adds the bits above the low 16 back in. */
  function Fold(csum: nat): nat {
    if csum / 65536 == 0 then csum else Fold(csum % 65536 + csum / 65536)
  }

  /** The representative of s modulo 65535 in 1 .. 65535, and 0 for 0 alone. */
  function Reduced(s: nat): Word {
    if s == 0 then 0 else 1 + (s - 1) % 65535
  }

  /** Adding the carries back keeps the sum modulo 65535 and never turns a positive sum into 0. */
  lemma {:induction false} FoldIsReduced(csum: nat)
    ensures Fold(csum) == Reduced(csum)
  {
    if csum / 65536 != 0 {
      FoldIsReduced(csum % 65536 + csum / 65536);
    }
  }

  lemma ReducedUnique(s: nat, r: Word, k: int)
    requires s > 0 && r > 0 && s == r + 65535 * k
    ensures Reduced(s) == r
  {
  }

  /** How many times 65535 was taken out. */
  function Quotient(s: nat): int {
    if s == 0 then 0 else (s - 1) / 65535
  }

  lemma ReducedMeaning(s: nat)
    ensures s == Reduced(s) + 65535 * Quotient(s)
    ensures Reduced(s) == 0 <==> s == 0
  {
  }

  // ----- Sums of words -----

  lemma {:induction false} WordSumBounds(ws: seq<Word>)
    ensures Sum(ws) >= 0
    ensures forall p :: 0 <= p < |ws| ==> Sum(ws) >= ws[p]
  {
    if ws != [] {
      WordSumBounds(ws[1..]);
      forall p | 0 <= p < |ws| ensures Sum(ws) >= ws[p] {
        assert p > 0 ==> ws[p] == ws[1..][p - 1];
      }
    }
  }

  function OnesSum(ws: seq<Word>): Word {
    WordSumBounds(ws);
    Reduced(Sum(ws))
  }

  lemma {:induction false} SumBounded(ws: seq<Word>)
    ensures 0 <= Sum(ws) <= |ws| * 65535
  {
    if ws != [] {
      SumBounded(ws[1..]);
    }
  }

  lemma Without(ws: seq<Word>, k: nat)
    requires k < |ws|
    ensures var rest := ws[..k] + ws[k + 1..];
            Sum(ws) == ws[k] + Sum(rest) && multiset(ws) == multiset{ws[k]} + multiset(rest)
  {
    assert ws == ws[..k] + ([ws[k]] + ws[k + 1..]);
    SumConcat(ws[..k], [ws[k]] + ws[k + 1..]);
    SumConcat([ws[k]], ws[k + 1..]);
    SumConcat(ws[..k], ws[k + 1..]);
  }

  lemma {:induction false} SumOfPermutation(xs: seq<Word>, ys: seq<Word>)
    requires multiset(xs) == multiset(ys)
    ensures Sum(xs) == Sum(ys)
  {
    if xs == [] {
      assert |multiset(ys)| == 0;
    } else {
      assert xs[0] in multiset(ys);
      var k :| 0 <= k < |ys| && ys[k] == xs[0];
      Without(ys, k);
      assert xs == [xs[0]] + xs[1..];
      assert multiset(ys[..k] + ys[k + 1..]) == multiset(ys) - multiset{ys[k]};
      SumOfPermutation(xs[1..], ys[..k] + ys[k + 1..]);
    }
  }

  /** The words may be added in any order (section 2(A) of RFC 1071). */
  lemma OrderDoesNotMatter(xs: seq<Word>, ys: seq<Word>)
    requires multiset(xs) == multiset(ys)
    ensures OnesSum(xs) == OnesSum(ys)
  {
    SumOfPermutation(xs, ys);
  }

  // ----- Byte order -----

  function Swap(w: Word): Word {
    w % 256 * 256 + w / 256
  }

  function Swapped(ws: seq<Word>): seq<Word> {
    seq(|ws|, i requires 0 <= i < |ws| => Swap(ws[i]))
  }

  function Highs(ws: seq<Word>): nat {
    if ws == [] then 0 else ws[0] / 256 + Highs(ws[1..])
  }

  lemma {:induction false} SwappedSum(ws: seq<Word>)
    ensures Sum(Swapped(ws)) == 256 * Sum(ws) - 65535 * Highs(ws)
  {
    if ws != [] {
      assert Swapped(ws)[1..] == Swapped(ws[1..]);
      SwappedSum(ws[1..]);
    }
  }

  /** Swapping the bytes of every word swaps the bytes of the sum (section 2(B) of RFC 1071). */
  lemma ByteOrderIndependence(ws: seq<Word>)
    ensures OnesSum(Swapped(ws)) == Swap(OnesSum(ws))
  {
    SwappedSum(ws);
    WordSumBounds(ws);
    WordSumBounds(Swapped(ws));
    var s, r := Sum(ws), OnesSum(ws);
    ReducedMeaning(s);
    SumZeroOnlyIfSwappedZero(ws);
    if s > 0 {
      ReducedUnique(Sum(Swapped(ws)), Swap(r), 256 * Quotient(s) - Highs(ws) + r / 256);
    }
  }

  lemma {:induction false} SumZeroOnlyIfSwappedZero(ws: seq<Word>)
    ensures Sum(ws) == 0 <==> Sum(Swapped(ws)) == 0
  {
    WordSumBounds(ws);
    WordSumBounds(Swapped(ws));
    if ws != [] {
      WordSumBounds(ws[1..]);
      WordSumBounds(Swapped(ws[1..]));
      assert Swapped(ws)[1..] == Swapped(ws[1..]);
      SumZeroOnlyIfSwappedZero(ws[1..]);
    }
  }

  lemma SwapOfComplement(w: Word)
    ensures Swap(65535 - w) == 65535 - Swap(w)
  {
    var high, low := w / 256, w % 256;
    assert 65535 - w == (255 - high) * 256 + (255 - low);
    assert (65535 - w) / 256 == 255 - high && (65535 - w) % 256 == 255 - low;
  }

  /** So hosts of either byte order store the same two bytes. */
  lemma SameBytesOnBothHosts(ws: seq<Word>)
    ensures Swap(65535 - OnesSum(ws)) == 65535 - OnesSum(Swapped(ws))
  {
    ByteOrderIndependence(ws);
    SwapOfComplement(OnesSum(ws));
  }

  // ----- When the stored checksum verifies -----

  ghost predicate Verifies(ws: seq<Word>) {
    OnesSum(ws) == 65535
  }

  /** Storing the complement of a sum that included the check word p makes the header verify
      exactly when that word was 0, or was 0xFFFF among words not all zero. */
  lemma VerifiesExactly(ws: seq<Word>, p: nat)
    requires p < |ws|
    ensures Verifies(ws[p := 65535 - OnesSum(ws)])
            <==> ws[p] == 0 || (ws[p] == 65535 && exists q :: 0 <= q < |ws| && q != p && ws[q] != 0)
  {
    WordSumBounds(ws);
    var others := Sum(ws) - ws[p];
    SumUpdate(ws, p, 0);
    SumUpdate(ws, p, 65535 - OnesSum(ws));
    WordSumBounds(ws[p := 0]);
    ReducedMeaning(Sum(ws));
    ReducedMeaning(others + 65535 - OnesSum(ws));
    OthersZero(ws, p);
  }

  lemma OthersZero(ws: seq<Word>, p: nat)
    requires p < |ws|
    ensures Sum(ws) == ws[p] <==> forall q :: 0 <= q < |ws| && q != p ==> ws[q] == 0
  {
    SumUpdate(ws, p, 0);
    WordSumBounds(ws[p := 0]);
    if forall q :: 0 <= q < |ws| && q != p ==> ws[q] == 0 {
      SumConstant(ws[p := 0], 0);
    } else {
      var q :| 0 <= q < |ws| && q != p && ws[q] != 0;
      assert ws[p := 0][q] == ws[q];
    }
  }

  // ----- The code -----

  /** Conversions of C's `long` to `short` and of `short` to `unsigned short`. */
  function ToShort(x: int): int {
    if x % 65536 < 32768 then x % 65536 else x % 65536 - 65536
  }

  function ToUnsignedShort(x: int): Word {
    x % 65536
  }

  /** Two bytes of memory as a little-endian host reads them. */
  function Load(low: int, high: int): int {
    low + 256 * high
  }

  /** The ten 16-bit words at byte offset `at`, as a little-endian host reads them. */
  function Words(b: seq<Byte>, at: nat): (ws: seq<Word>)
    requires at + 20 <= |b|
    ensures |ws| == 10
    ensures forall i :: 0 <= i < 10 ==> ws[i] % 256 == b[at + 2 * i] && ws[i] / 256 == b[at + 2 * i + 1]
  {
    seq(10, i requires 0 <= i < 10 => Load(b[at + 2 * i], b[at + 2 * i + 1]))
  }

  lemma DropFirst(ws: seq<Word>, k: nat)
    requires k < |ws|
    ensures Sum(ws[k..]) == ws[k] + Sum(ws[k + 1..])
  {
    assert ws[k..][1..] == ws[k + 1..];
  }

  lemma SumOfTen(ws: seq<Word>)
    requires |ws| == 10
    ensures Sum(ws) == ws[0] as int + ws[1] + ws[2] + ws[3] + ws[4] + ws[5] + ws[6] + ws[7] + ws[8] + ws[9]
  {
    assert ws[0..] == ws && ws[10..] == [];
    DropFirst(ws, 0);
    DropFirst(ws, 1);
    DropFirst(ws, 2);
    DropFirst(ws, 3);
    DropFirst(ws, 4);
    DropFirst(ws, 5);
    DropFirst(ws, 6);
    DropFirst(ws, 7);
    DropFirst(ws, 8);
    DropFirst(ws, 9);
  }

  /** The sum of the words through the twenty bytes, for readers of either byte order. */
  lemma SumThroughBytes(b: seq<Byte>, at: nat)
    requires at + 20 <= |b|
    ensures var x: seq<int> := b[at..at + 20];
            var even := x[0] + x[2] + x[4] + x[6] + x[8] + x[10] + x[12] + x[14] + x[16] + x[18];
            var odd := x[1] + x[3] + x[5] + x[7] + x[9] + x[11] + x[13] + x[15] + x[17] + x[19];
            Sum(Words(b, at)) == even + 256 * odd && Sum(Swapped(Words(b, at))) == 256 * even + odd
  {
    var x: seq<int> := b[at..at + 20];
    var ws := Words(b, at);
    SumOfTen(ws);
    SumOfTen(Swapped(ws));
    forall i | 0 <= i < 10
      ensures ws[i] == x[2 * i] + 256 * x[2 * i + 1] && Swapped(ws)[i] == 256 * x[2 * i] + x[2 * i + 1]
    {
      assert x[2 * i] == b[at + 2 * i] && x[2 * i + 1] == b[at + 2 * i + 1];
    }
  }

  lemma ZeroWord(b: seq<Byte>, at: nat, k: nat)
    requires at + 20 <= |b| && k < 10
    ensures Words(b, at)[k] == 0 <==> b[at + 2 * k] == 0 && b[at + 2 * k + 1] == 0
  {
  }

  lemma AllWordsZero(b: seq<Byte>, at: nat)
    requires at + 20 <= |b|
    ensures (forall k :: 0 <= k < 10 ==> Words(b, at)[k] == 0) <==> forall i :: at <= i < at + 20 ==> b[i] == 0
  {
    forall k | 0 <= k < 10
      ensures Words(b, at)[k] == 0 <==> b[at + 2 * k] == 0 && b[at + 2 * k + 1] == 0
    {
      ZeroWord(b, at, k);
    }
    if forall k :: 0 <= k < 10 ==> Words(b, at)[k] == 0 {
      forall i | at <= i < at + 20 ensures b[i] == 0 {
        assert Words(b, at)[(i - at) / 2] == 0;
      }
    }
  }

  lemma ZeroSum(ws: seq<Word>)
    ensures Sum(ws) == 0 <==> forall k :: 0 <= k < |ws| ==> ws[k] == 0
  {
    WordSumBounds(ws);
    if forall k :: 0 <= k < |ws| ==> ws[k] == 0 {
      SumConstant(ws, 0);
    }
  }

  lemma MultipleOf(s: nat)
    ensures Reduced(s) == 65535 <==> s > 0 && s % 65535 == 0
    ensures (65535 - Reduced(s) + s) % 65535 == 0
  {
    ReducedMeaning(s);
  }

  lemma MultipleInParts(stored: int, even: int, odd: int, s: int)
    requires s == even + 256 * odd && (stored + s) % 65535 == 0
    ensures (stored + even + 256 * odd) % 65535 == 0
  {
    assert stored + s == stored + even + 256 * odd;
  }

  lemma CompletesTheSum(b: seq<Byte>, at: nat)
    requires at + 20 <= |b|
    ensures var x: seq<int> := b[at..at + 20];
            (65535 - OnesSum(Words(b, at))
             + (x[0] + x[2] + x[4] + x[6] + x[8] + x[10] + x[12] + x[14] + x[16] + x[18])
             + 256 * (x[1] + x[3] + x[5] + x[7] + x[9] + x[11] + x[13] + x[15] + x[17] + x[19]))
            % 65535 == 0
  {
    var x: seq<int> := b[at..at + 20];
    var ws := Words(b, at);
    WordSumBounds(ws);
    SumThroughBytes(b, at);
    MultipleOf(Sum(ws));
    var even := x[0] + x[2] + x[4] + x[6] + x[8] + x[10] + x[12] + x[14] + x[16] + x[18];
    var odd := x[1] + x[3] + x[5] + x[7] + x[9] + x[11] + x[13] + x[15] + x[17] + x[19];
    MultipleInParts(65535 - OnesSum(ws), even, odd, Sum(ws));
  }

  lemma ZeroOnlyForZeros(b: seq<Byte>, at: nat)
    requires at + 20 <= |b|
    ensures OnesSum(Words(b, at)) == 0 <==> forall i :: at <= i < at + 20 ==> b[i] == 0
  {
    WordSumBounds(Words(b, at));
    ReducedMeaning(Sum(Words(b, at)));
    ZeroSum(Words(b, at));
    AllWordsZero(b, at);
  }

  lemma VerifiesThroughBytes(b: seq<Byte>, at: nat)
    requires at + 20 <= |b| && b[at] != 0
    ensures var x: seq<int> := b[at..at + 20];
            Verifies(Swapped(Words(b, at))) <==>
            (256 * (x[0] + x[2] + x[4] + x[6] + x[8] + x[10] + x[12] + x[14] + x[16] + x[18])
             + (x[1] + x[3] + x[5] + x[7] + x[9] + x[11] + x[13] + x[15] + x[17] + x[19]))
            % 65535 == 0
  {
    var sent := Swapped(Words(b, at));
    SumThroughBytes(b, at);
    WordSumBounds(sent);
    assert sent[0] != 0;
    MultipleOf(Sum(sent));
  }

  /** The result completes the sum of the words to a multiple of 65535, and is 0xFFFF only for a
      header of zeros. */
  method Checksum(b: array<Byte>, at: nat) returns (r: int, ghost rounds: nat)
    requires at + 20 <= b.Length
    ensures -32768 <= r < 32768
    ensures ToUnsignedShort(r) == 65535 - OnesSum(Words(b[..], at))
    ensures var x: seq<int> := b[at..at + 20];
            (r % 65536
             + (x[0] + x[2] + x[4] + x[6] + x[8] + x[10] + x[12] + x[14] + x[16] + x[18])
             + 256 * (x[1] + x[3] + x[5] + x[7] + x[9] + x[11] + x[13] + x[15] + x[17] + x[19]))
            % 65535 == 0
    ensures r % 65536 == 65535 <==> forall i :: at <= i < at + 20 ==> b[i] == 0
    ensures rounds <= 2
  {
    ghost var ws := Words(b[..], at);
    var csum := AddWords(b, at);
    SumBounded(ws);
    var tmp := csum / 65536;
    rounds := 0;
    while tmp != 0
      invariant csum >= 0 && tmp == csum / 65536
      invariant Fold(csum) == Fold(Sum(ws))
      invariant csum <= if rounds == 0 then 655350 else if rounds == 1 then 65535 + 9 else 65535
      invariant rounds <= 2
      decreases csum
    {
      csum := csum % 65536 + tmp;
      tmp := csum / 65536;
      rounds := rounds + 1;
    }
    FoldIsReduced(Sum(ws));
    r := ToShort(-csum - 1);
    assert b[..][at..at + 20] == b[at..at + 20];
    assert r % 65536 == 65535 - OnesSum(ws);
    CompletesTheSum(b[..], at);
    ZeroOnlyForZeros(b[..], at);
  }

  /** The first loop of `checksum`. */
  method AddWords(b: array<Byte>, at: nat) returns (csum: int)
    requires at + 20 <= b.Length
    ensures csum == Sum(Words(b[..], at))
  {
    ghost var ws := Words(b[..], at);
    csum := 0;
    for i := 0 to 10
      invariant csum == Sum(ws[..i])
    {
      csum := csum + Load(b[at + 2 * i], b[at + 2 * i + 1]);
      assert ws[..i + 1] == ws[..i] + [ws[i]];
      SumConcat(ws[..i], [ws[i]]);
    }
    assert ws[..10] == ws;
  }

  const ETH_HDR_LEN := 14
  const IP_HDR_LEN := 20
  const UDP_HDR_LEN := 8
  const BUFFER_SIZE := 100

  /** Four bytes of memory, as `inet_pton` stores an address. */
  method StoreAddress(b: array<Byte>, at: nat, a0: Byte, a1: Byte, a2: Byte, a3: Byte)
    requires at + 4 <= b.Length
    modifies b
    ensures b[at] == a0 && b[at + 1] == a1 && b[at + 2] == a2 && b[at + 3] == a3
    ensures forall i :: 0 <= i < at || at + 4 <= i < b.Length ==> b[i] == old(b[i])
  {
    b[at], b[at + 1], b[at + 2], b[at + 3] := a0, a1, a2, a3;
  }

  /** The two four-bit fields of the first byte. */
  method StoreVersionAndLength(b: array<Byte>, at: nat)
    requires at < b.Length
    modifies b
    ensures b[at] == 0x45
    ensures forall i :: 0 <= i < b.Length && i != at ==> b[i] == old(b[i])
  {
    b[at] := b[at] % 16 + 16 * 4;
    b[at] := b[at] / 16 * 16 + 5;
  }

  /** The header fields `main` sets; `id` and `check` are not among them. */
  method SetFields(b: array<Byte>)
    requires b.Length == BUFFER_SIZE + ETH_HDR_LEN + IP_HDR_LEN + UDP_HDR_LEN
    modifies b
    ensures b[14] == 0x45 && b[15] == 0 && b[16] == 0 && b[17] == 128
    ensures b[20] == 0 && b[21] == 0 && b[22] == 255 && b[23] == 17
    ensures b[26] == 192 && b[27] == 168 && b[28] == 1 && b[29] == 37
    ensures b[30] == 192 && b[31] == 168 && b[32] == 1 && b[33] == 41
    ensures forall i :: 0 <= i < 14 || 18 <= i < 20 || 24 <= i < 26 || 34 <= i < b.Length ==> b[i] == old(b[i])
  {
    var at := ETH_HDR_LEN;
    StoreVersionAndLength(b, at);
    b[at + 9] := 17;
    b[at + 2], b[at + 3] := 0, IP_HDR_LEN + UDP_HDR_LEN + BUFFER_SIZE;
    b[at + 6], b[at + 7] := 0, 0;
    b[at + 8] := 255;
    b[at + 1] := 0;
    StoreAddress(b, at + 12, 192, 168, 1, 37);
    StoreAddress(b, at + 16, 192, 168, 1, 41);
  }

  /** `check = checksum(header)`: the two bytes of the check field, low byte first. */
  method StoreChecksum(b: array<Byte>, at: nat)
    requires at + 20 <= b.Length
    modifies b
    ensures var ws := Words(old(b[..]), at);
            Words(b[..], at) == ws[5 := 65535 - OnesSum(ws)]
    ensures b[at + 10] == (65535 - OnesSum(Words(old(b[..]), at))) % 256
    ensures b[at + 11] == (65535 - OnesSum(Words(old(b[..]), at))) / 256
    ensures forall i :: 0 <= i < b.Length && i != at + 10 && i != at + 11 ==> b[i] == old(b[i])
  {
    var check, _ := Checksum(b, at);
    var stored := ToUnsignedShort(check);
    b[at + 10], b[at + 11] := stored % 256, stored / 256;
  }

  /** Whether a header verifies once its checksum is stored, by the check bytes it held before. */
  lemma HeaderVerdict(before: seq<Byte>, after: seq<Byte>, at: nat)
    requires at + 20 <= |before| && |after| == |before| && before[at] != 0
    requires Words(after, at) == Words(before, at)[5 := 65535 - OnesSum(Words(before, at))]
    ensures Verifies(Swapped(Words(after, at))) <==>
            || (before[at + 10] == 0 && before[at + 11] == 0)
            || (before[at + 10] == 255 && before[at + 11] == 255)
  {
    var ws := Words(before, at);
    assert ws[0] != 0;
    assert ws[5] == Load(before[at + 10], before[at + 11]);
    VerifiesExactly(ws, 5);
    ByteOrderIndependence(Words(after, at));
  }

  /** The IPv4 part of `main`. The buffer is not cleared first, so `id` and `check` hold whatever
      was there; the packet carries a header that verifies exactly when the two check bytes
      happened to be both 0x00 or both 0xFF. Receivers read the words high byte first. */
  method FillIpHeader(b: array<Byte>)
    requires b.Length == BUFFER_SIZE + ETH_HDR_LEN + IP_HDR_LEN + UDP_HDR_LEN
    modifies b
    ensures Verifies(Swapped(Words(b[..], ETH_HDR_LEN)))
            <==> old((b[24] == 0 && b[25] == 0) || (b[24] == 255 && b[25] == 255))
    ensures var x: seq<int> := b[14..34];
            (256 * (x[0] + x[2] + x[4] + x[6] + x[8] + x[10] + x[12] + x[14] + x[16] + x[18])
             + (x[1] + x[3] + x[5] + x[7] + x[9] + x[11] + x[13] + x[15] + x[17] + x[19]))
            % 65535 == 0
            <==> old((b[24] == 0 && b[25] == 0) || (b[24] == 255 && b[25] == 255))
    ensures forall i :: 0 <= i < 14 || 18 <= i < 20 || 34 <= i < b.Length ==> b[i] == old(b[i])
  {
    SetFields(b);
    ghost var before := b[..];
    StoreChecksum(b, ETH_HDR_LEN);
    ghost var after := b[..];
    HeaderVerdict(before, after, ETH_HDR_LEN);
    VerifiesThroughBytes(after, ETH_HDR_LEN);
    assert after[14..34] == b[14..34];
    assert before[24] == old(b[24]) && before[25] == old(b[25]);
  }
}
