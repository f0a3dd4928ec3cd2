/**
 `hash256_block` of picosha2 and its bit functions, on the 64-bit `word_t` the code uses. The
 code masks to 32 bits in a few places only; the lemmas here show that this is enough, that is,
 that it computes what FIPS 180-4 computes on 32-bit words.
 */
module Compression {
  import opened Bits
  import opened Bytes
  import opened Padding
  import Fips180

  const WORD := Fips180.WORD
  // Operators of a 64-bit unsigned word: they wrap around.

  function Add64(x: nat, y: nat): nat { (x + y) % WORD64 }

  function Shl64(x: nat, n: nat): nat { ShiftLeft(x, n) % WORD64 }

  function Not64(x: nat): nat
    requires x < WORD64
  {
    WORD64 - 1 - x
  }

  function Mask32(x: nat): nat { And(x, 0xffff_ffff) }

  // The bit functions of the code.

  function Ch(x: nat, y: nat, z: nat): nat
    requires x < WORD64
  {
    Xor(And(x, y), And(Not64(x), z))
  }

  function Maj(x: nat, y: nat, z: nat): nat { Xor(Xor(And(x, y), And(x, z)), And(y, z)) }

  function Rotr(x: nat, n: nat): nat
    requires n < 32
  {
    Mask32(Or(ShiftRight(x, n), Shl64(x, 32 - n)))
  }

  function BSig0(x: nat): nat { Xor(Xor(Rotr(x, 2), Rotr(x, 13)), Rotr(x, 22)) }
  function BSig1(x: nat): nat { Xor(Xor(Rotr(x, 6), Rotr(x, 11)), Rotr(x, 25)) }
  function SSig0(x: nat): nat { Xor(Xor(Rotr(x, 7), Rotr(x, 18)), ShiftRight(x, 3)) }
  function SSig1(x: nat): nat { Xor(Xor(Rotr(x, 17), Rotr(x, 19)), ShiftRight(x, 10)) }

  // Each of them agrees with the 32-bit function of the standard on 32-bit arguments.

  lemma WordIsPow2()
    ensures Pow2(32) == WORD && Pow2(64) == WORD64
  {
    assert Pow2(8) == 0x100;
    Pow2Add(8, 8);
    Pow2Add(16, 16);
    Pow2Add(32, 32);
  }

  lemma Mask32IsMod(x: nat)
    ensures Mask32(x) == x % WORD
  {
    hide Bitwise, ShiftRight, ShiftLeft;
    WordIsPow2();
    AndMask(x, 32);
  }

  lemma ChAgrees(x: nat, y: nat, z: nat)
    requires x < WORD && y < WORD && z < WORD
    ensures Ch(x, y, z) == Fips180.Ch(x, y, z) < WORD
  {
    hide Bitwise, ShiftRight, ShiftLeft;
    WordIsPow2();
    AndLow(Not64(x), z, 32);
    assert Not64(x) % WORD == Fips180.Complement(x);
    AndLow(x, y, 32);
    Fits(XorGate, And(x, y), And(Not64(x), z), 32);
  }

  lemma MajAgrees(x: nat, y: nat, z: nat)
    requires x < WORD && y < WORD && z < WORD
    ensures Maj(x, y, z) == Fips180.Maj(x, y, z) < WORD
  {
    hide Bitwise, ShiftRight, ShiftLeft;
    WordIsPow2();
    Fits(AndGate, x, y, 32);
    Fits(AndGate, x, z, 32);
    Fits(AndGate, y, z, 32);
    Fits(XorGate, And(x, y), And(x, z), 32);
    Fits(XorGate, Xor(And(x, y), And(x, z)), And(y, z), 32);
  }

  /** Bits shifted past the 32nd position are removed by the mask. */
  lemma MaskedOr(lo: nat, hi: nat)
    requires lo < WORD
    ensures Mask32(Or(lo, hi % WORD64)) == Or(lo, hi % WORD) < WORD
  {
    hide Bitwise, ShiftRight, ShiftLeft;
    WordIsPow2();
    Mask32IsMod(Or(lo, hi % WORD64));
    LowBits(OrGate, lo, hi % WORD64, 32);
    assert (hi % WORD64) % WORD == hi % WORD;
  }

  lemma RotrAgrees(x: nat, n: nat)
    requires x < WORD && n < 32
    ensures Rotr(x, n) == Fips180.Rotr(x, n) < WORD
  {
    MaskedOr(ShiftRight(x, n), ShiftLeft(x, 32 - n));
  }

  lemma BigSigmasAgree(x: nat)
    requires x < WORD
    ensures BSig0(x) == Fips180.BigSigma0(x) < WORD
    ensures BSig1(x) == Fips180.BigSigma1(x) < WORD
  {
    hide Bitwise, ShiftRight, ShiftLeft;
    WordIsPow2();
    RotrAgrees(x, 2);
    RotrAgrees(x, 13);
    RotrAgrees(x, 22);
    Fits(XorGate, Rotr(x, 2), Rotr(x, 13), 32);
    Fits(XorGate, Xor(Rotr(x, 2), Rotr(x, 13)), Rotr(x, 22), 32);
    RotrAgrees(x, 6);
    RotrAgrees(x, 11);
    RotrAgrees(x, 25);
    Fits(XorGate, Rotr(x, 6), Rotr(x, 11), 32);
    Fits(XorGate, Xor(Rotr(x, 6), Rotr(x, 11)), Rotr(x, 25), 32);
  }

  lemma SmallSigmasAgree(x: nat)
    requires x < WORD
    ensures SSig0(x) == Fips180.SmallSigma0(x) < WORD
    ensures SSig1(x) == Fips180.SmallSigma1(x) < WORD
  {
    hide Bitwise, ShiftRight, ShiftLeft;
    WordIsPow2();
    RotrAgrees(x, 7);
    RotrAgrees(x, 18);
    Fits(XorGate, Rotr(x, 7), Rotr(x, 18), 32);
    Fits(XorGate, Xor(Rotr(x, 7), Rotr(x, 18)), ShiftRight(x, 3), 32);
    RotrAgrees(x, 17);
    RotrAgrees(x, 19);
    Fits(XorGate, Rotr(x, 17), Rotr(x, 19), 32);
    Fits(XorGate, Xor(Rotr(x, 17), Rotr(x, 19)), ShiftRight(x, 10), 32);
  }

  // Sums are left unmasked until a word is stored; none of them can overflow.

  function Temp1(v: Fips180.Vars, k: nat, w: nat): nat
    requires v.e < WORD64
  {
    Add64(Add64(Add64(Add64(v.h, BSig1(v.e)), Ch(v.e, v.f, v.g)), k), w)
  }

  function Temp2(v: Fips180.Vars): nat { Add64(BSig0(v.a), Maj(v.a, v.b, v.c)) }

  lemma Add64Exact(x: nat, y: nat, m: nat, n: nat)
    requires x < m * WORD && y < n * WORD && m + n <= 8
    ensures Add64(x, y) == x + y < (m + n) * WORD
  {
    assert m * WORD + n * WORD == (m + n) * WORD <= 8 * WORD;
    SmallMod(x + y, WORD64);
  }

  lemma SumsDoNotOverflow(v: Fips180.Vars, k: nat, w: nat)
    requires Fips180.AreWords(v) && k < WORD && w < WORD
    ensures Temp1(v, k, w) == v.h + BSig1(v.e) + Ch(v.e, v.f, v.g) + k + w < 5 * WORD
    ensures Temp2(v) == BSig0(v.a) + Maj(v.a, v.b, v.c) < 2 * WORD
    ensures v.d + Temp1(v, k, w) < WORD64 && Temp1(v, k, w) + Temp2(v) < WORD64
  {
    hide Bitwise, ShiftRight, ShiftLeft, And, Mask32, Ch, Maj, BSig0, BSig1;
    hide Fips180.Ch, Fips180.Maj, Fips180.BigSigma0, Fips180.BigSigma1;
    BigSigmasAgree(v.e);
    ChAgrees(v.e, v.f, v.g);
    BigSigmasAgree(v.a);
    MajAgrees(v.a, v.b, v.c);
    Add64Exact(v.h, BSig1(v.e), 1, 1);
    Add64Exact(v.h + BSig1(v.e), Ch(v.e, v.f, v.g), 2, 1);
    Add64Exact(v.h + BSig1(v.e) + Ch(v.e, v.f, v.g), k, 3, 1);
    Add64Exact(v.h + BSig1(v.e) + Ch(v.e, v.f, v.g) + k, w, 4, 1);
    Add64Exact(BSig0(v.a), Maj(v.a, v.b, v.c), 1, 1);
  }

  /** Masking `e` and `a` alone keeps a round equal to the standard's. */
  lemma RoundAgrees(v: Fips180.Vars, k: nat, w: nat)
    requires Fips180.AreWords(v) && k < WORD && w < WORD
    ensures Fips180.Round(v, k, w) == Fips180.Vars(
      Mask32(Add64(Temp1(v, k, w), Temp2(v))), v.a, v.b, v.c,
      Mask32(Add64(v.d, Temp1(v, k, w))), v.e, v.f, v.g)
  {
    hide Bitwise, ShiftRight, ShiftLeft, And, Mask32, Ch, Maj, BSig0, BSig1;
    hide Fips180.Ch, Fips180.Maj, Fips180.BigSigma0, Fips180.BigSigma1;
    SumsDoNotOverflow(v, k, w);
    BigSigmasAgree(v.e);
    ChAgrees(v.e, v.f, v.g);
    BigSigmasAgree(v.a);
    MajAgrees(v.a, v.b, v.c);
    var t1, t2 := Temp1(v, k, w), Temp2(v);
    Mask32IsMod(Add64(t1, t2));
    Mask32IsMod(Add64(v.d, t1));
    SmallMod(t1 + t2, WORD64);
    SmallMod(v.d + t1, WORD64);
    ModOfSum(t1, t2, WORD);
    ModOfSum(v.d, t1, WORD);
    SmallMod(v.d, WORD);
  }

  // The block function.

  function FromSeq(s: seq<nat>): Fips180.Vars
    requires |s| == 8
  {
    Fips180.Vars(s[0], s[1], s[2], s[3], s[4], s[5], s[6], s[7])
  }

  /** The word the code assembles from four octets with shifts and `|`. */
  function LoadWord(b0: byte, b1: byte, b2: byte, b3: byte): nat
  {
    Or(Or(Or(Shl64(b0, 24), Shl64(b1, 16)), Shl64(b2, 8)), b3)
  }

  lemma LoadWordIsBigEndian(s: seq<byte>)
    requires |s| == 4
    ensures LoadWord(s[0], s[1], s[2], s[3]) == FromBigEndian(s)
  {
    hide Bitwise, ShiftRight, ShiftLeft;
    var b0: nat, b1: nat, b2: nat, b3: nat := s[0], s[1], s[2], s[3];
    SmallPowers();
    ShiftLeftIsProduct(b0, 24);
    ShiftLeftIsProduct(b1, 16);
    ShiftLeftIsProduct(b2, 8);
    OrIsSum(b0, b1 * 0x1_0000, 24);
    OrIsSum(b0 * 0x100 + b1, b2 * 0x100, 16);
    OrIsSum((b0 * 0x100 + b1) * 0x100 + b2, b3, 8);
    FromBigEndian4(s);
  }

  lemma SmallPowers()
    ensures Pow2(8) == 0x100 && Pow2(16) == 0x1_0000 && Pow2(24) == 0x100_0000
  {
    assert Pow2(8) == 0x100;
    Pow2Add(8, 8);
    Pow2Add(8, 16);
  }

  lemma KAreWords(i: nat)
    requires i < |Fips180.K|
    ensures |Fips180.K| == 64 && Fips180.K[i] < WORD
  {
  }

  lemma ScheduleAgrees(block: Block, t: nat, w2: nat, w7: nat, w15: nat, w16: nat)
    requires t >= 16
    requires w2 == Fips180.Schedule(block, t - 2) && w7 == Fips180.Schedule(block, t - 7)
    requires w15 == Fips180.Schedule(block, t - 15) && w16 == Fips180.Schedule(block, t - 16)
    ensures Mask32(Add64(Add64(Add64(SSig1(w2), w7), SSig0(w15)), w16)) == Fips180.Schedule(block, t)
  {
    hide Bitwise, ShiftRight, ShiftLeft, And, Mask32, SSig0, SSig1;
    hide Fips180.SmallSigma0, Fips180.SmallSigma1;
    SmallSigmasAgree(w2);
    SmallSigmasAgree(w15);
    Add64Exact(SSig1(w2), w7, 1, 1);
    Add64Exact(SSig1(w2) + w7, SSig0(w15), 2, 1);
    Add64Exact(SSig1(w2) + w7 + SSig0(w15), w16, 3, 1);
    Mask32IsMod(SSig1(w2) + w7 + SSig0(w15) + w16);
  }

  lemma ScheduleStarts(block: Block, t: nat)
    requires t < 16
    ensures LoadWord(block[t * 4], block[t * 4 + 1], block[t * 4 + 2], block[t * 4 + 3])
         == Fips180.Schedule(block, t)
  {
    hide LoadWord, FromBigEndian;
    LoadWordIsBigEndian(block[4 * t..4 * t + 4]);
  }

  /** The first two loops of `hash256_block`: the message schedule. */
  method PrepareSchedule(block: Block) returns (w: array<nat>)
    ensures fresh(w) && w.Length == 64
    ensures forall j :: 0 <= j < 64 ==> w[j] == Fips180.Schedule(block, j)
  {
    hide LoadWord, Mask32, Add64, SSig0, SSig1, Fips180.Schedule, FromBigEndian;
    w := new nat[64](_ => 0);
    for i := 0 to 16
      invariant forall j :: 0 <= j < i ==> w[j] == Fips180.Schedule(block, j)
    {
      ScheduleStarts(block, i);
      w[i] := LoadWord(block[i * 4], block[i * 4 + 1], block[i * 4 + 2], block[i * 4 + 3]);
    }
    for i := 16 to 64
      invariant forall j :: 0 <= j < i ==> w[j] == Fips180.Schedule(block, j)
    {
      ScheduleAgrees(block, i, w[i - 2], w[i - 7], w[i - 15], w[i - 16]);
      w[i] := Mask32(Add64(Add64(Add64(SSig1(w[i - 2]), w[i - 7]), SSig0(w[i - 15])), w[i - 16]));
    }
  }

  /** The two temporaries of a round, as the code writes them. */
  lemma Temporaries(v: Fips180.Vars, k: nat, w: nat)
    requires v.e < WORD64
    ensures Temp1(v, k, w) == Add64(Add64(Add64(Add64(v.h, BSig1(v.e)), Ch(v.e, v.f, v.g)), k), w)
    ensures Temp2(v) == Add64(BSig0(v.a), Maj(v.a, v.b, v.c))
  {
  }

  /** The third loop: 64 rounds on the working variables. */
  method RunRounds(v0: Fips180.Vars, w: array<nat>, ghost block: Block) returns (v: Fips180.Vars)
    requires Fips180.AreWords(v0) && w.Length == 64
    requires forall j :: 0 <= j < 64 ==> w[j] == Fips180.Schedule(block, j)
    ensures |Fips180.K| == 64 && v == Fips180.Rounds(v0, block, 64)
  {
    KAreWords(0);
    hide Fips180.K, Fips180.Round, Fips180.Schedule, Mask32, BSig0, BSig1, Ch, Maj, Add64, Temp1, Temp2;
    var a, b, c, d, e, f, g, h := v0.a, v0.b, v0.c, v0.d, v0.e, v0.f, v0.g, v0.h;
    for i := 0 to 64
      invariant Fips180.Vars(a, b, c, d, e, f, g, h) == Fips180.Rounds(v0, block, i)
    {
      KAreWords(i);
      RoundAgrees(Fips180.Vars(a, b, c, d, e, f, g, h), Fips180.K[i], w[i]);
      Temporaries(Fips180.Vars(a, b, c, d, e, f, g, h), Fips180.K[i], w[i]);
      var temp1 := Add64(Add64(Add64(Add64(h, BSig1(e)), Ch(e, f, g)), Fips180.K[i]), w[i]);
      var temp2 := Add64(BSig0(a), Maj(a, b, c));
      h := g;
      g := f;
      f := e;
      e := Mask32(Add64(d, temp1));
      d := c;
      c := b;
      b := a;
      a := Mask32(Add64(temp1, temp2));
    }
    v := Fips180.Vars(a, b, c, d, e, f, g, h);
  }

  lemma MaskedSum(x: nat, y: nat)
    requires x < WORD && y < WORD
    ensures Mask32(Add64(x, y)) == (x + y) % WORD
  {
    hide Mask32;
    Add64Exact(x, y, 1, 1);
    Mask32IsMod(x + y);
  }

  lemma WordsOfSeq(s: seq<nat>, i: nat)
    requires |s| == 8 && i < 8
    requires Fips180.AreWords(FromSeq(s))
    ensures s[i] < WORD
  {
  }

  lemma FromSeqOfToSeq(v: Fips180.Vars)
    ensures FromSeq(Fips180.ToSeq(v)) == v
  {
  }

  lemma AddWordsOfSeq(s: seq<nat>, t: seq<nat>, r: seq<nat>)
    requires |s| == |t| == |r| == 8
    requires forall i :: 0 <= i < 8 ==> r[i] == (s[i] + t[i]) % WORD
    ensures FromSeq(r) == Fips180.AddWords(FromSeq(s), FromSeq(t))
  {
  }

  /** The tail: add the working variables in, then mask every word. */
  method AddAndMask(digest: array<nat>, v: Fips180.Vars)
    requires digest.Length == 8
    requires Fips180.AreWords(FromSeq(digest[..])) && Fips180.AreWords(v)
    modifies digest
    ensures FromSeq(digest[..]) == Fips180.AddWords(old(FromSeq(digest[..])), v)
  {
    hide Mask32, Add64, FromSeq, Fips180.AddWords, Fips180.AreWords, Fips180.ToSeq;
    var s := Fips180.ToSeq(v);
    FromSeqOfToSeq(v);
    ghost var h := digest[..];
    forall i | 0 <= i < 8 {
      digest[i] := Add64(digest[i], s[i]);
    }
    for i := 0 to 8
      invariant forall j :: 0 <= j < i ==> digest[j] == (h[j] + s[j]) % WORD
      invariant forall j :: i <= j < 8 ==> digest[j] == Add64(h[j], s[j])
    {
      WordsOfSeq(h, i);
      WordsOfSeq(s, i);
      MaskedSum(h[i], s[i]);
      digest[i] := Mask32(digest[i]);
    }
    AddWordsOfSeq(h, s, digest[..]);
  }

  /** `hash256_block`: the digest words become those of the standard's compression. */
  method HashBlock(digest: array<nat>, block: Block)
    requires digest.Length == 8
    requires Fips180.AreWords(FromSeq(digest[..]))
    modifies digest
    ensures FromSeq(digest[..]) == Fips180.Compress(old(FromSeq(digest[..])), block)
  {
    hide Fips180.K, Fips180.Schedule, Fips180.Rounds, Fips180.AddWords;
    var w := PrepareSchedule(block);
    var v := RunRounds(FromSeq(digest[..]), w, block);
    AddAndMask(digest, v);
  }
}
