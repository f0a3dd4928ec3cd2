/**
 A second description of the compression function, as two sequences of words instead of eight
 variables that are moved along, and of what goes in and comes out octet by octet.
 */
module WorkingVariables {
  import opened Bits
  import opened Bytes
  import opened Padding
  import opened Fips180

  /** The word that four octets make, most significant first. */
  function WordOf(b0: nat, b1: nat, b2: nat, b3: nat): nat
  {
    0x100_0000 * b0 + 0x1_0000 * b1 + 0x100 * b2 + b3
  }

  /** The first 16 words of the schedule are the block. */
  lemma ScheduleStart(block: Block, t: nat)
    requires t < 16
    ensures Schedule(block, t) ==
            WordOf(block[4 * t], block[4 * t + 1], block[4 * t + 2], block[4 * t + 3])
  {
    hide FromBigEndian;
    FromBigEndian4(block[4 * t..4 * t + 4]);
  }

  /** The expansion runs backwards too: any 16 consecutive words give the word before them. */
  lemma ScheduleBackwards(block: Block, t: nat)
    ensures Schedule(block, t) == (Schedule(block, t + 16) - SmallSigma1(Schedule(block, t + 14))
                                   - Schedule(block, t + 9) - SmallSigma0(Schedule(block, t + 1))) % WORD
  {
    hide SmallSigma0, SmallSigma1;
    var s, w := ScheduleRest(block, t), Schedule(block, t);
    var q := (s + w) / WORD;
    assert Schedule(block, t + 16) == (s + w) % WORD;
    assert (s + w) % WORD - s == -q * WORD + w;
    ModUnique((s + w) % WORD - s, WORD, -q, w);
  }

  /** What is added to word t to give word t + 16. */
  function ScheduleRest(block: Block, t: nat): nat
  {
    SmallSigma1(Schedule(block, t + 14)) + Schedule(block, t + 9) + SmallSigma0(Schedule(block, t + 1))
  }

  /** So two blocks with 16 consecutive schedule words in common are the same block. */
  lemma {:induction false} ScheduleInjective(b: Block, c: Block, t: nat)
    requires forall j :: t <= j < t + 16 ==> Schedule(b, j) == Schedule(c, j)
    ensures b == c
  {
    hide *;
    if t == 0 {
      SameStart(b, c);
    } else {
      SameBefore(b, c, t - 1);
      ScheduleInjective(b, c, t - 1);
    }
  }

  lemma SameBefore(b: Block, c: Block, t: nat)
    requires Schedule(b, t + 16) == Schedule(c, t + 16) && Schedule(b, t + 14) == Schedule(c, t + 14)
    requires Schedule(b, t + 9) == Schedule(c, t + 9) && Schedule(b, t + 1) == Schedule(c, t + 1)
    ensures Schedule(b, t) == Schedule(c, t)
  {
    hide *;
    ScheduleBackwards(b, t);
    ScheduleBackwards(c, t);
  }

  lemma SameStart(b: Block, c: Block)
    requires forall j :: 0 <= j < 16 ==> Schedule(b, j) == Schedule(c, j)
    ensures b == c
  {
    hide Schedule;
    forall i | 0 <= i < BLOCK
      ensures b[i] == c[i]
    {
      SameOctets(b, c, i / 4);
    }
  }

  lemma SameOctets(b: Block, c: Block, t: nat)
    requires t < 16 && Schedule(b, t) == Schedule(c, t)
    ensures forall i :: 4 * t <= i < 4 * t + 4 ==> b[i] == c[i]
  {
    ScheduleStart(b, t);
    ScheduleStart(c, t);
    hide Schedule;
    SameWord(b[4 * t], b[4 * t + 1], b[4 * t + 2], b[4 * t + 3],
             c[4 * t], c[4 * t + 1], c[4 * t + 2], c[4 * t + 3]);
  }

  lemma SameWord(b0: byte, b1: byte, b2: byte, b3: byte, c0: byte, c1: byte, c2: byte, c3: byte)
    requires WordOf(b0, b1, b2, b3) == WordOf(c0, c1, c2, c3)
    ensures b0 == c0 && b1 == c1 && b2 == c2 && b3 == c3
  {
  }

  /** The words that pass through `a`: the four given ones in the order d, c, b, a, then one for each round. */
  function A(v: Vars, block: Block, n: nat): nat
    requires n < 68
    decreases n, 1
  {
    match n
    case 0 => v.d
    case 1 => v.c
    case 2 => v.b
    case 3 => v.a
    case _ =>
      (T1(v, block, n) + BigSigma0(A(v, block, n - 1))
       + Maj(A(v, block, n - 1), A(v, block, n - 2), A(v, block, n - 3))) % WORD
  }

  /** The words that pass through `e`. */
  function E(v: Vars, block: Block, n: nat): nat
    requires n < 68
    decreases n, 1
  {
    match n
    case 0 => v.h
    case 1 => v.g
    case 2 => v.f
    case 3 => v.e
    case _ => (A(v, block, n - 4) + T1(v, block, n)) % WORD
  }

  function T1(v: Vars, block: Block, n: nat): nat
    requires 4 <= n < 68
    decreases n, 0
  {
    E(v, block, n - 4) + BigSigma1(E(v, block, n - 1))
    + Ch(E(v, block, n - 1), E(v, block, n - 2), E(v, block, n - 3)) + K[n - 4] + Schedule(block, n - 4)
  }

  /** The eight words of the sequences that a round starts or ends with. */
  function Window(v: Vars, block: Block, n: nat): Vars
    requires n <= 64
  {
    Vars(A(v, block, n + 3), A(v, block, n + 2), A(v, block, n + 1), A(v, block, n),
         E(v, block, n + 3), E(v, block, n + 2), E(v, block, n + 1), E(v, block, n))
  }

  lemma AStep(v: Vars, block: Block, n: nat)
    requires 4 <= n < 68
    ensures A(v, block, n) == (T1(v, block, n) + BigSigma0(A(v, block, n - 1))
                               + Maj(A(v, block, n - 1), A(v, block, n - 2), A(v, block, n - 3))) % WORD
  {
    hide BigSigma0, BigSigma1, Ch, Maj, K, Schedule, T1, E;
  }

  lemma EStep(v: Vars, block: Block, n: nat)
    requires 4 <= n < 68
    ensures E(v, block, n) == (A(v, block, n - 4) + T1(v, block, n)) % WORD
  {
    hide BigSigma0, BigSigma1, Ch, Maj, K, Schedule, T1, A;
  }

  lemma RoundMovesWindow(v: Vars, block: Block, n: nat)
    requires n < 64
    ensures |K| == 64 && Round(Window(v, block, n), K[n], Schedule(block, n)) == Window(v, block, n + 1)
  {
    hide *;
    KLength();
    AStep(v, block, n + 4);
    EStep(v, block, n + 4);
    T1Step(v, block, n + 4);
    Windows(v, block, n);
    Windows(v, block, n + 1);
    RoundWords(Window(v, block, n), K[n], Schedule(block, n), T1(v, block, n + 4));
  }

  lemma ModularSums(x: nat, y: nat, z: nat)
    ensures (x % WORD + y % WORD) % WORD == (x + y) % WORD
    ensures (z + x % WORD) % WORD == (z + x) % WORD
  {
  }

  lemma KLength()
    ensures |K| == 64
  {
  }

  lemma T1Step(v: Vars, block: Block, n: nat)
    requires 4 <= n < 68
    ensures |K| == 64
    ensures T1(v, block, n) ==
            E(v, block, n - 4) + BigSigma1(E(v, block, n - 1))
            + Ch(E(v, block, n - 1), E(v, block, n - 2), E(v, block, n - 3)) + K[n - 4] + Schedule(block, n - 4)
  {
    KLength();
    hide K, E, Schedule, BigSigma1, Ch;
  }

  lemma Windows(v: Vars, block: Block, n: nat)
    requires n <= 64
    ensures Window(v, block, n) ==
            Vars(A(v, block, n + 3), A(v, block, n + 2), A(v, block, n + 1), A(v, block, n),
                 E(v, block, n + 3), E(v, block, n + 2), E(v, block, n + 1), E(v, block, n))
  {
    hide A, E;
  }

  lemma RoundWords(v: Vars, k: nat, w: nat, t1: nat)
    requires t1 == v.h + BigSigma1(v.e) + Ch(v.e, v.f, v.g) + k + w
    ensures Round(v, k, w) == Vars(
      (t1 + BigSigma0(v.a) + Maj(v.a, v.b, v.c)) % WORD, v.a, v.b, v.c, (v.d + t1) % WORD, v.e, v.f, v.g)
  {
    hide BigSigma0, BigSigma1, Ch, Maj;
    ModularSums(t1, BigSigma0(v.a) + Maj(v.a, v.b, v.c), v.d);
  }

  /** After n rounds the eight variables are the last four words of either sequence. */
  lemma {:induction false} RoundsAreSequences(v: Vars, block: Block, n: nat)
    requires n <= 64
    ensures |K| == 64 && Rounds(v, block, n) == Window(v, block, n)
  {
    hide Round, K, Schedule, Window;
    if n == 0 {
      FirstWindow(v, block);
    } else {
      RoundMovesWindow(v, block, n - 1);
      RoundsAreSequences(v, block, n - 1);
    }
  }

  lemma FirstWindow(v: Vars, block: Block)
    ensures |K| == 64 && Window(v, block, 0) == v
  {
  }

  /** Each word of the hash value is its old value plus one of the last words of a sequence. */
  lemma CompressedWords(v: Vars, block: Block, n: nat)
    requires n == 64
    ensures var r := Compress(v, block);
            && r.a == (v.a + A(v, block, n + 3)) % WORD && r.b == (v.b + A(v, block, n + 2)) % WORD
            && r.c == (v.c + A(v, block, n + 1)) % WORD && r.d == (v.d + A(v, block, n)) % WORD
            && r.e == (v.e + E(v, block, n + 3)) % WORD && r.f == (v.f + E(v, block, n + 2)) % WORD
            && r.g == (v.g + E(v, block, n + 1)) % WORD && r.h == (v.h + E(v, block, n)) % WORD
  {
    hide A, E, K, Rounds;
    RoundsAreSequences(v, block, n);
  }

  /** The digest holds the words of the hash value in order, most significant octet first. */
  lemma DigestOctets(v: Vars, k: nat)
    requires AreWords(v) && k < 8
    ensures var w := [v.a, v.b, v.c, v.d, v.e, v.f, v.g, v.h][k];
            var s := Serialize(v);
            w == WordOf(s[4 * k], s[4 * k + 1], s[4 * k + 2], s[4 * k + 3])
  {
    hide ToBigEndian;
    var w := [v.a, v.b, v.c, v.d, v.e, v.f, v.g, v.h][k];
    FourBytes(w);
    var s := Serialize(v);
    var octets := s[4 * k..4 * k + 4];
    assert octets == ToBigEndian(w, 4);
    assert s[4 * k] == octets[0] && s[4 * k + 1] == octets[1] && s[4 * k + 2] == octets[2] && s[4 * k + 3] == octets[3];
    OctetsOfWord(w);
  }

  lemma OctetsOfWord(w: nat)
    requires w < WORD
    ensures w == WordOf(w / 0x100_0000 % 0x100, w / 0x1_0000 % 0x100, w / 0x100 % 0x100, w % 0x100)
  {
    var q := w / 0x100;
    assert w / 0x1_0000 == q / 0x100 && w / 0x100_0000 == q / 0x100 / 0x100;
  }

  /** What is hashed: the message, 0x80, zeros, and eight octets that hold the bit length. */
  lemma PaddedMessage(message: seq<byte>, i: nat)
    requires 8 * |message| < WORD64
    ensures var p := Pad(message);
            && |p| % 64 == 0 && |message| + 9 <= |p| < |message| + 73
            && p[..|message|] == message && p[|message|] == 0x80
            && (|message| < i < |p| - 8 ==> p[i] == 0)
            && FromBigEndian(p[|p| - 8..]) == 8 * |message|
  {
    hide ToBigEndian, FromBigEndian, Pow256;
    assert Pow256(8) == WORD64 by { PowersOf256(); }
    BigEndianRoundTrip(8 * |message|, 8);
    var p := Pad(message);
    assert p[|p| - 8..] == ToBigEndian(8 * |message|, 8);
  }

  lemma PowersOf256()
    ensures Pow256(8) == WORD64
  {
  }
}
