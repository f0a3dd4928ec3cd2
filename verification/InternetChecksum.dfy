/**
 The Internet checksum of RFC 1071 as `checksum` in xbridge computes it: native little-endian
 16-bit words are added up in a 32-bit accumulator, whose halves are then folded together.
 */
module InternetChecksum {
  import opened Bits
  import opened Bytes

  const U16 := 0x1_0000
  const U32 := 0x1_0000_0000
  const ONES := 0xffff

  /** The largest input for which the accumulator cannot overflow. */
  const LIMIT := 131074

  /** The little-endian words of a buffer; an odd last octet is a word of its own. */
  function Words(s: seq<byte>): (ws: seq<nat>)
  {
    if |s| == 0 then []
    else if |s| == 1 then [s[0]]
    else [Word(s[0], s[1])] + Words(s[2..])
  }

  function Word(lo: nat, hi: nat): nat { lo + 0x100 * hi }

  function Sum(ws: seq<nat>): nat
  {
    if ws == [] then 0 else ws[0] + Sum(ws[1..])
  }

  function WordSum(s: seq<byte>): nat { Sum(Words(s)) }

  /** The 16-bit number congruent to n modulo 65535, with 0 kept for 0 itself. */
  function Fold(n: nat): (r: nat)
    ensures r < U16
  {
    if n == 0 then 0 else 1 + (n - 1) % ONES
  }

  /** What the code returns, overflow of the accumulator included. */
  function Checksum16(s: seq<byte>): (r: nat)
    ensures r < U16
  {
    Fold(WordSum(s) % U32)
  }

  // The reference: RFC 1071 section 1, addition with end-around carry.

  function OnesAdd(x: nat, y: nat): nat
  {
    if x + y < U16 then x + y else x + y - ONES
  }

  function OnesComplementSum(ws: seq<nat>): nat
  {
    if ws == [] then 0 else OnesAdd(ws[0], OnesComplementSum(ws[1..]))
  }

  // Arithmetic of the fold.

  lemma FoldResidue(n: nat)
    ensures Fold(n) % ONES == n % ONES && (Fold(n) == 0 <==> n == 0)
  {
  }

  lemma FoldUnique(n: nat, r: nat)
    requires r < U16 && (r == 0 <==> n == 0)
    requires r % ONES == n % ONES
    ensures r == Fold(n)
  {
  }

  /** One turn of the folding loop: strictly smaller, same result. */
  lemma FoldStep(n: nat)
    requires n >= U16
    ensures n / U16 + n % U16 < n
    ensures Fold(n / U16 + n % U16) == Fold(n)
  {
    var m := n / U16 + n % U16;
    assert n == m + (n / U16) * ONES;
    ModUnique(n, ONES, m / ONES + n / U16, m % ONES);
    FoldResidue(m);
    FoldUnique(n, Fold(m));
  }

  lemma FoldSum(x: nat, y: nat)
    ensures Fold(Fold(x) + y) == Fold(x + y) == Fold(x + Fold(y)) == Fold(Fold(x) + Fold(y))
  {
    hide Fold;
    FoldResidue(x);
    FoldResidue(y);
    FoldResidue(Fold(x) + y);
    FoldResidue(x + Fold(y));
    FoldResidue(Fold(x) + Fold(y));
    ModOfSum(x, y, ONES);
    ModOfSum(Fold(x), y, ONES);
    ModOfSum(x, Fold(y), ONES);
    ModOfSum(Fold(x), Fold(y), ONES);
    FoldUnique(x + y, Fold(Fold(x) + y));
    FoldUnique(x + y, Fold(x + Fold(y)));
    FoldUnique(x + y, Fold(Fold(x) + Fold(y)));
  }

  lemma FoldSmall(n: nat)
    requires n < U16
    ensures Fold(n) == n
  {
  }

  // Words and sums of concatenations.

  lemma {:induction false} WordsAppend(a: seq<byte>, b: seq<byte>)
    requires |a| % 2 == 0
    ensures Words(a + b) == Words(a) + Words(b)
  {
    if a == [] {
      assert a + b == b;
    } else {
      WordsAppend(a[2..], b);
      assert (a + b)[2..] == a[2..] + b;
    }
  }

  lemma {:induction false} SumAppend(a: seq<nat>, b: seq<nat>)
    ensures Sum(a + b) == Sum(a) + Sum(b)
  {
    if a == [] {
      assert a + b == b;
    } else {
      SumAppend(a[1..], b);
      assert (a + b)[1..] == a[1..] + b;
    }
  }

  lemma WordSumAppend(a: seq<byte>, b: seq<byte>)
    requires |a| % 2 == 0
    ensures WordSum(a + b) == WordSum(a) + WordSum(b)
  {
    WordsAppend(a, b);
    SumAppend(Words(a), Words(b));
  }

  lemma TwoBytes(lo: byte, hi: byte)
    ensures WordSum([lo, hi]) == Word(lo, hi)
  {
    assert Words([lo, hi]) == [Word(lo, hi)];
    assert Sum([Word(lo, hi)]) == Word(lo, hi) + Sum([]);
  }

  lemma OneByte(b: byte)
    ensures WordSum([b]) == b
  {
    var w: seq<nat> := [b];
    assert Words([b]) == w;
    assert Sum(w) == b + Sum([]);
  }

  /** Addition in a `uint32_t`. */
  function Add32(x: nat, y: nat): nat { (x + y) % U32 }

  lemma Add32Reduced(x: nat, y: nat)
    ensures Add32(x % U32, y) == (x + y) % U32
  {
  }

  lemma NextWord(s: seq<byte>, p: nat)
    requires p % 2 == 0 && p + 2 <= |s|
    ensures WordSum(s[..p + 2]) == WordSum(s[..p]) + Word(s[p], s[p + 1])
  {
    hide WordSum;
    WordSumAppend(s[..p], [s[p], s[p + 1]]);
    TwoBytes(s[p], s[p + 1]);
    assert s[..p] + [s[p], s[p + 1]] == s[..p + 2];
  }

  lemma LastByte(s: seq<byte>, p: nat)
    requires p % 2 == 0 && p + 1 == |s|
    ensures WordSum(s) == WordSum(s[..p]) + s[p]
  {
    hide WordSum;
    WordSumAppend(s[..p], [s[p]]);
    OneByte(s[p]);
    assert s[..p] + [s[p]] == s;
  }

  /**
   `checksum`: the accumulator wraps around at 32 bits, and the second loop ends because every
   turn makes the sum strictly smaller.
   */
  method Checksum(data: seq<byte>) returns (r: nat)
    ensures r == Checksum16(data)
  {
    hide Fold, WordSum, Word, Add32;
    var sum: nat := 0;
    var p, len := 0, |data|;
    assert data[..0] == [];
    Empty();
    while len > 1
      invariant 0 <= p <= |data| && p + len == |data| && p % 2 == 0
      invariant sum == WordSum(data[..p]) % U32
    {
      NextWord(data, p);
      Add32Reduced(WordSum(data[..p]), Word(data[p], data[p + 1]));
      sum := Add32(sum, Word(data[p], data[p + 1]));
      p := p + 2;
      len := len - 2;
    }
    if len != 0 {
      LastByte(data, p);
      Add32Reduced(WordSum(data[..p]), data[p]);
      sum := Add32(sum, data[p]);
    } else {
      assert data[..p] == data;
    }
    assert Fold(sum) == Checksum16(data);
    r := FoldHalves(sum);
  }

  /** The second loop of `checksum`. */
  method FoldHalves(sum0: nat) returns (sum: nat)
    ensures sum == Fold(sum0)
  {
    hide Fold;
    sum := sum0;
    while sum / U16 != 0
      invariant Fold(sum) == Fold(sum0)
      decreases sum
    {
      FoldStep(sum);
      sum := sum / U16 + sum % U16;
    }
    FoldSmall(sum);
  }

  lemma Empty()
    ensures WordSum([]) == 0
  {
  }

  // When the code computes the checksum of the RFC.

  ghost predicate AreU16(ws: seq<nat>) { forall i :: 0 <= i < |ws| ==> ws[i] < U16 }

  lemma {:induction false} WordsAreU16(s: seq<byte>)
    ensures AreU16(Words(s)) && |Words(s)| == (|s| + 1) / 2
  {
    if |s| > 1 {
      WordsAreU16(s[2..]);
    }
  }

  lemma {:induction false} OnesComplementSumIsFold(ws: seq<nat>)
    requires AreU16(ws)
    ensures OnesComplementSum(ws) == Fold(Sum(ws))
  {
    if ws != [] {
      hide Fold;
      OnesComplementSumIsFold(ws[1..]);
      OnesAddIsFold(ws[0], Fold(Sum(ws[1..])));
      FoldSum(ws[0], Sum(ws[1..]));
    }
  }

  lemma OnesAddIsFold(x: nat, y: nat)
    requires x < U16 && y < U16
    ensures OnesAdd(x, y) == Fold(x + y)
  {
    FoldUnique(x + y, OnesAdd(x, y));
  }

  lemma {:induction false} SumBound(ws: seq<nat>)
    requires AreU16(ws)
    ensures Sum(ws) <= |ws| * ONES
  {
    if ws != [] {
      SumBound(ws[1..]);
    }
  }

  lemma NoOverflow(s: seq<byte>)
    requires |s| <= LIMIT
    ensures WordSum(s) < U32 && Checksum16(s) == Fold(WordSum(s))
  {
    hide Words, Sum, Fold;
    WordsAreU16(s);
    SumBound(Words(s));
    MulMono(|Words(s)|, 65537, ONES);
    SmallMod(WordSum(s), U32);
  }

  /**
   For any buffer: the result is the one's-complement sum exactly when the number of overflows
   of the accumulator is a multiple of 65535 and no non-zero sum was reduced to zero.
   */
  lemma ChecksumExactIff(s: seq<byte>)
    ensures var w := WordSum(s);
            Checksum16(s) == OnesComplementSum(Words(s)) <==>
            (w / U32) % ONES == 0 && (w % U32 == 0 ==> w == 0)
  {
    hide Fold, WordSum, Words, OnesComplementSum;
    var w := WordSum(s);
    ReferenceIsFold(s);
    OverflowResidue(w);
    FoldResidue(w);
    FoldResidue(w % U32);
    if (w / U32) % ONES == 0 && (w % U32 == 0 ==> w == 0) {
      FoldUnique(w, Fold(w % U32));
    }
  }

  /** Every overflow loses 2^32, which is 1 modulo 65535. */
  lemma OverflowResidue(w: nat)
    ensures (w % U32) % ONES == w % ONES <==> (w / U32) % ONES == 0
  {
    var q, r := w / U32, w % U32;
    assert w == q * (U32 - 1) + (r + q);
    assert U32 - 1 == (U16 + 1) * ONES;
    assert w == (q * (U16 + 1)) * ONES + (r + q);
    ModUnique(w, ONES, (r + q) / ONES + q * (U16 + 1), (r + q) % ONES);
    ModOfSum(r, q, ONES);
  }

  lemma ReferenceIsFold(s: seq<byte>)
    ensures OnesComplementSum(Words(s)) == Fold(WordSum(s))
  {
    hide Words, Sum, OnesComplementSum, Fold;
    WordsAreU16(s);
    OnesComplementSumIsFold(Words(s));
  }

  /** Up to 131074 octets nothing overflows, so the result is the RFC's, and 0 only for all zeros. */
  lemma ChecksumExact(s: seq<byte>)
    requires |s| <= LIMIT
    ensures Checksum16(s) == OnesComplementSum(Words(s)) == Fold(WordSum(s))
  {
    hide Fold, WordSum, Words, OnesComplementSum;
    NoOverflow(s);
    ReferenceIsFold(s);
  }

  ghost predicate AllZero(s: seq<byte>) { forall i :: 0 <= i < |s| ==> s[i] == 0 }

  lemma {:induction false} WordSumZeroIff(s: seq<byte>)
    ensures WordSum(s) == 0 <==> AllZero(s)
  {
    if |s| == 1 {
      OneByte(s[0]);
      assert s == [s[0]];
    } else if |s| > 1 {
      WordSumZeroIff(s[2..]);
      assert WordSum(s) == Word(s[0], s[1]) + WordSum(s[2..]);
      assert forall i :: 2 <= i < |s| ==> s[i] == s[2..][i - 2];
      assert AllZero(s) <==> s[0] == 0 && s[1] == 0 && AllZero(s[2..]);
    }
  }

  lemma ChecksumZeroIff(s: seq<byte>)
    requires |s| <= LIMIT
    ensures Checksum16(s) == 0 <==> AllZero(s)
  {
    hide Fold, WordSum;
    NoOverflow(s);
    FoldResidue(WordSum(s));
    WordSumZeroIff(s);
  }

  function AllOnes(n: nat): (s: seq<byte>)
  {
    if n == 0 then [] else [0xff, 0xff] + AllOnes(n - 1)
  }

  lemma {:induction false} AllOnesSum(n: nat)
    ensures |AllOnes(n)| == 2 * n && WordSum(AllOnes(n)) == n * ONES
  {
    if n > 0 {
      AllOnesSum(n - 1);
      TwoBytes(0xff, 0xff);
      WordSumAppend([0xff, 0xff], AllOnes(n - 1));
    }
  }

  /** The bound is sharp: one octet more and the code can return a wrong sum. */
  lemma LimitIsSharp()
    ensures var s := AllOnes(65537) + [0xff];
            |s| == LIMIT + 1 && Checksum16(s) == 254 && OnesComplementSum(Words(s)) == 255
  {
    hide AllOnes, WordSum, Words, OnesComplementSum;
    AllOnesSum(65537);
    OneByte(0xff);
    WordSumAppend(AllOnes(65537), [0xff]);
    ReferenceIsFold(AllOnes(65537) + [0xff]);
    assert 65537 * ONES + 0xff == U32 + 254;
  }

  // Partial sums, byte order and word order (RFC 1071, section 2).

  function StoreLe(w: nat): (s: seq<byte>)
    requires w < U16
    ensures |s| == 2
  {
    [w % 0x100, w / 0x100]
  }

  lemma StoreLeSum(w: nat)
    requires w < U16
    ensures WordSum(StoreLe(w)) == w
  {
    TwoBytes(w % 0x100, w / 0x100);
  }

  /** The checksum of a buffer is the checksum of the checksums of its two parts. */
  lemma PartialChecksums(a: seq<byte>, b: seq<byte>)
    requires |a| % 2 == 0 && |a| + |b| <= LIMIT
    ensures Checksum16(a + b) == Checksum16(StoreLe(Checksum16(a)) + StoreLe(Checksum16(b)))
  {
    hide Fold, WordSum, StoreLe, Checksum16;
    var x, y := Checksum16(a), Checksum16(b);
    NoOverflow(a + b);
    NoOverflow(a);
    NoOverflow(b);
    WordSumAppend(a, b);
    StoreLeSum(x);
    StoreLeSum(y);
    WordSumAppend(StoreLe(x), StoreLe(y));
    NoOverflow(StoreLe(x) + StoreLe(y));
    FoldSum(WordSum(a), WordSum(b));
  }

  /** The words of a buffer in network order; an odd last octet is padded with a zero. */
  function NetWords(s: seq<byte>): (ws: seq<nat>)
  {
    if |s| == 0 then []
    else if |s| == 1 then [Word(0, s[0])]
    else [Word(s[1], s[0])] + NetWords(s[2..])
  }

  function Swap16(w: nat): (r: nat)
    requires w < U16
    ensures r < U16
  {
    w / 0x100 + 0x100 * (w % 0x100)
  }

  lemma SwapResidue(w: nat)
    requires w < U16
    ensures (0x100 * w) % ONES == Swap16(w) % ONES && (Swap16(w) == 0 <==> w == 0)
    ensures Swap16(Swap16(w)) == w
  {
    var lo, hi := w % 0x100, w / 0x100;
    assert 0x100 * w == hi * ONES + (hi + 0x100 * lo);
    ModUnique(0x100 * w, ONES, (hi + 0x100 * lo) / ONES + hi, (hi + 0x100 * lo) % ONES);
  }

  lemma {:induction false} NetSum(s: seq<byte>)
    ensures Sum(NetWords(s)) % ONES == (0x100 * WordSum(s)) % ONES
    ensures Sum(NetWords(s)) == 0 <==> WordSum(s) == 0
    ensures AreU16(NetWords(s))
  {
    if |s| == 1 {
      OneByte(s[0]);
      assert s == [s[0]];
      assert Sum(NetWords(s)) == Word(0, s[0]) + Sum([]);
    } else if |s| > 1 {
      NetSum(s[2..]);
      assert WordSum(s) == Word(s[0], s[1]) + WordSum(s[2..]);
      assert Sum(NetWords(s)) == Word(s[1], s[0]) + Sum(NetWords(s[2..]));
      NetStep(s[0], s[1], WordSum(s[2..]), Sum(NetWords(s[2..])));
    }
  }

  /** The sum of the 16-bit numbers that the octets make in network order, the last one padded with zero. */
  function BigEndianSum(s: seq<byte>): nat
  {
    if |s| == 0 then 0
    else if |s| == 1 then 0x100 * s[0] as nat
    else 0x100 * s[0] as nat + s[1] + BigEndianSum(s[2..])
  }

  lemma {:induction false} BigEndianSumIsSum(s: seq<byte>)
    ensures BigEndianSum(s) == Sum(NetWords(s))
  {
    if |s| == 1 {
      assert Sum(NetWords(s)) == Word(0, s[0]) + Sum([]);
    } else if |s| > 1 {
      BigEndianSumIsSum(s[2..]);
      assert Sum(NetWords(s)) == Word(s[1], s[0]) + Sum(NetWords(s[2..]));
    }
  }

  /** Divisibility by 65535 does not depend on the byte order. */
  lemma ResidueInEitherOrder(s: seq<byte>, t: seq<byte>)
    ensures (WordSum(s) + WordSum(t)) % ONES == 0 <==> (BigEndianSum(s) + BigEndianSum(t)) % ONES == 0
  {
    hide WordSum, NetWords, Sum, BigEndianSum;
    BigEndianSumIsSum(s);
    BigEndianSumIsSum(t);
    NetSum(s);
    NetSum(t);
    var x, y := WordSum(s), WordSum(t);
    ModOfSum(BigEndianSum(s), BigEndianSum(t), ONES);
    ModOfSum(0x100 * x, 0x100 * y, ONES);
    assert 0x100 * (x + y) == 0x100 * x + 0x100 * y;
    Unit(x + y);
  }

  /** 256 is a unit modulo 65535. */
  lemma Unit(n: nat)
    ensures n % ONES == 0 <==> (0x100 * n) % ONES == 0
  {
    if n % ONES == 0 {
      ModProduct(n, 0);
    } else if (0x100 * n) % ONES == 0 {
      ModProduct(0x100 * n, 0);
      assert 0x100 * (0x100 * n) == n * ONES + n;
      ModUnique(0x100 * (0x100 * n), ONES, n + n / ONES, n % ONES);
      assert false;
    }
  }

  lemma NetStep(lo: byte, hi: byte, sum: nat, net: nat)
    requires net % ONES == (0x100 * sum) % ONES && (net == 0 <==> sum == 0)
    ensures (Word(hi, lo) + net) % ONES == (0x100 * (Word(lo, hi) + sum)) % ONES
    ensures Word(hi, lo) + net == 0 <==> Word(lo, hi) + sum == 0
  {
    SwapWord(lo, hi);
    hide Word, Swap16;
    var w := Word(lo, hi);
    SwapResidue(w);
    assert 0x100 * (w + sum) == 0x100 * w + 0x100 * sum;
    ModOfSum(Word(hi, lo), net, ONES);
    ModOfSum(0x100 * w, 0x100 * sum, ONES);
  }

  lemma SwapWord(lo: byte, hi: byte)
    ensures Word(lo, hi) < U16 && Swap16(Word(lo, hi)) == Word(hi, lo)
  {
  }

  /**
   Byte order does not matter: the sum of the native words, stored natively, is the network-order
   sum stored in network order.
   */
  lemma ByteOrderIndependence(s: seq<byte>)
    requires |s| <= LIMIT
    ensures OnesComplementSum(NetWords(s)) == Swap16(Checksum16(s))
    ensures Checksum16(s) == Swap16(OnesComplementSum(NetWords(s)))
  {
    hide Fold, WordSum, Swap16, Checksum16, NetWords, Sum, OnesComplementSum;
    NoOverflow(s);
    NetSum(s);
    FoldResidue(WordSum(s));
    var c, n := Checksum16(s), Sum(NetWords(s));
    OnesComplementSumIsFold(NetWords(s));
    SwapResidue(c);
    ModProduct(c, WordSum(s));
    FoldUnique(n, Swap16(c));
  }

  /** What the result says about the octets: their sum in network order, modulo 65535. */
  lemma ChecksumInOctets(s: seq<byte>)
    requires |s| <= 131074
    ensures (0x100 * Checksum16(s)) % 0xffff == BigEndianSum(s) % 0xffff
    ensures Checksum16(s) < 0x1_0000 && (Checksum16(s) == 0 <==> forall i :: 0 <= i < |s| ==> s[i] == 0)
  {
    hide Fold, WordSum, Checksum16, NetWords, Sum, BigEndianSum;
    ChecksumZeroIff(s);
    NoOverflow(s);
    FoldResidue(WordSum(s));
    NetSum(s);
    BigEndianSumIsSum(s);
    ModProduct(Checksum16(s), WordSum(s));
  }

  /** Every pair of octets exchanged. */
  function SwapPairs(s: seq<byte>): (t: seq<byte>)
    requires |s| % 2 == 0
    ensures |t| == |s|
  {
    if s == [] then [] else [s[1], s[0]] + SwapPairs(s[2..])
  }

  lemma {:induction false} SwapPairsWords(s: seq<byte>)
    requires |s| % 2 == 0
    ensures Words(SwapPairs(s)) == NetWords(s)
  {
    if s != [] {
      SwapPairsWords(s[2..]);
      assert SwapPairs(s)[2..] == SwapPairs(s[2..]);
    }
  }

  /** RFC 1071 section 2(B): the checksum of the byte-swapped buffer is the byte-swapped checksum. */
  lemma SwappedBuffer(s: seq<byte>)
    requires |s| % 2 == 0 && |s| <= LIMIT
    ensures Checksum16(SwapPairs(s)) == Swap16(Checksum16(s))
  {
    hide Fold, WordSum, Swap16, Checksum16, NetWords, Words, OnesComplementSum, SwapPairs;
    SwapPairsWords(s);
    ChecksumExact(SwapPairs(s));
    ByteOrderIndependence(s);
  }

  lemma ModProduct(x: nat, y: nat)
    requires x % ONES == y % ONES
    ensures (0x100 * x) % ONES == (0x100 * y) % ONES
  {
    var r := x % ONES;
    ModUnique(0x100 * x, ONES, (0x100 * r) / ONES + 0x100 * (x / ONES), (0x100 * r) % ONES);
    ModUnique(0x100 * y, ONES, (0x100 * r) / ONES + 0x100 * (y / ONES), (0x100 * r) % ONES);
  }

  lemma {:induction false} SumPermutation(a: seq<nat>, b: seq<nat>)
    requires multiset(a) == multiset(b)
    ensures Sum(a) == Sum(b)
    decreases |a|
  {
    if a == [] {
      assert |b| == |multiset(b)| == 0;
    } else {
      assert a[0] in multiset(b);
      var i :| 0 <= i < |b| && b[i] == a[0];
      var rest := b[..i] + b[i + 1..];
      assert a == [a[0]] + a[1..];
      assert b == b[..i] + ([b[i]] + b[i + 1..]);
      assert multiset(rest) == multiset(b) - multiset{b[i]};
      assert multiset(a[1..]) == multiset(a) - multiset{a[0]};
      SumPermutation(a[1..], rest);
      SumAppend(b[..i], [b[i]] + b[i + 1..]);
      SumAppend(b[..i], b[i + 1..]);
    }
  }

  /** Nor does the order of the words. */
  lemma WordOrderIndependence(s: seq<byte>, t: seq<byte>)
    requires multiset(Words(s)) == multiset(Words(t))
    ensures Checksum16(s) == Checksum16(t)
  {
    SumPermutation(Words(s), Words(t));
  }
}
