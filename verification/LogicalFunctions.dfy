/**
 What the functions of FIPS 180-4 section 4.1.2 do to single bits, counted from the lowest, and the
 value of a rotation.
 */
module LogicalFunctions {
  import opened Bits
  import Fips180
  import Compression

  const WORD := Fips180.WORD

  /** A rotation to the right by n: the n low bits become the high ones. */
  lemma RotrValue(x: nat, n: nat)
    requires x < WORD && n <= 32
    ensures Fips180.Rotr(x, n) == (x % Pow2(n)) * Pow2(32 - n) + x / Pow2(n) < WORD
  {
    hide Bitwise, ShiftRight, ShiftLeft;
    Compression.WordIsPow2();
    Pow2Add(n, 32 - n);
    ShiftRightIsQuotient(x, n);
    ShiftLeftIsProduct(x, 32 - n);
    Halves(x, Pow2(n), Pow2(32 - n));
    OrIsSum(x % Pow2(n), x / Pow2(n), 32 - n);
    BitwiseCommutes(OrGate, x / Pow2(n), (x % Pow2(n)) * Pow2(32 - n));
  }

  lemma Halves(x: nat, p: nat, q: nat)
    requires p > 0 && q > 0 && x < p * q
    ensures x / p < q
    ensures (x * q) % (p * q) == (x % p) * q
    ensures (x % p) * q + x / p < p * q
  {
    var d, r := x / p, x % p;
    assert x == d * p + r;
    if d >= q {
      MulMono(q, d, p);
    }
    MulMono(r, p - 1, q);
    assert r * q <= p * q - q;
    assert x * q == d * (p * q) + r * q;
    ModUnique(x * q, p * q, d, r * q);
  }

  /** Bit i of the result is bit i + n of the word, cyclically. */
  lemma RotrAt(x: nat, n: nat, i: nat)
    requires x < WORD && n <= 32 && i < 32
    ensures BitAt(Fips180.Rotr(x, n), i) == BitAt(x, (i + n) % 32)
  {
    hide BitAt, Fips180.Rotr, Pow2;
    RotrValue(x, n);
    var lo, hi := x % Pow2(n), x / Pow2(n);
    assert x == hi * Pow2(n) + lo;
    Compression.WordIsPow2();
    Pow2Add(n, 32 - n);
    Halves(x, Pow2(n), Pow2(32 - n));
    JoinAt(lo, hi, 32 - n, i);
    if i < 32 - n {
      JoinAt(hi, lo, n, i + n);
    } else {
      JoinAt(hi, lo, n, i + n - 32);
    }
  }

  /** Ch chooses bit i of y or of z, by bit i of x. */
  lemma ChAt(x: nat, y: nat, z: nat, i: nat)
    requires x < WORD && i < 32
    ensures BitAt(Fips180.Ch(x, y, z), i) == if BitAt(x, i) == 1 then BitAt(y, i) else BitAt(z, i)
  {
    hide BitAt, Bitwise, Pow2;
    Compression.WordIsPow2();
    ComplementAt(x, 32, i);
    BitwiseAt(AndGate, x, y, i);
    BitwiseAt(AndGate, Fips180.Complement(x), z, i);
    BitwiseAt(XorGate, And(x, y), And(Fips180.Complement(x), z), i);
  }

  /** Maj is the majority of the three bits. */
  lemma MajAt(x: nat, y: nat, z: nat, i: nat)
    ensures BitAt(Fips180.Maj(x, y, z), i) == if BitAt(x, i) + BitAt(y, i) + BitAt(z, i) >= 2 then 1 else 0
  {
    hide BitAt, Bitwise;
    BitwiseAt(AndGate, x, y, i);
    BitwiseAt(AndGate, x, z, i);
    BitwiseAt(AndGate, y, z, i);
    BitwiseAt(XorGate, And(x, y), And(x, z), i);
    BitwiseAt(XorGate, Xor(And(x, y), And(x, z)), And(y, z), i);
  }

  lemma Xor3At(a: nat, b: nat, c: nat, i: nat)
    ensures BitAt(Xor(Xor(a, b), c), i) == (BitAt(a, i) + BitAt(b, i) + BitAt(c, i)) % 2
  {
    hide BitAt, Bitwise;
    BitwiseAt(XorGate, a, b, i);
    BitwiseAt(XorGate, Xor(a, b), c, i);
  }

  /** The number of ones, modulo 2, at three positions counted cyclically. */
  function Parity(x: nat, i: nat, j: nat, k: nat): nat
  {
    (BitAt(x, i % 32) + BitAt(x, j % 32) + BitAt(x, k % 32)) % 2
  }

  lemma BigSigmasAt(x: nat, i: nat)
    requires x < WORD && i < 32
    ensures BitAt(Fips180.BigSigma0(x), i) == Parity(x, i + 2, i + 13, i + 22)
    ensures BitAt(Fips180.BigSigma1(x), i) == Parity(x, i + 6, i + 11, i + 25)
  {
    hide BitAt, Xor, Fips180.Rotr;
    RotrAt(x, 2, i);
    RotrAt(x, 13, i);
    RotrAt(x, 22, i);
    Xor3At(Fips180.Rotr(x, 2), Fips180.Rotr(x, 13), Fips180.Rotr(x, 22), i);
    RotrAt(x, 6, i);
    RotrAt(x, 11, i);
    RotrAt(x, 25, i);
    Xor3At(Fips180.Rotr(x, 6), Fips180.Rotr(x, 11), Fips180.Rotr(x, 25), i);
  }

  /** In the small ones the third term is a shift: beyond the top it is 0. */
  lemma SmallSigmasAt(x: nat, i: nat)
    requires x < WORD && i < 32
    ensures BitAt(Fips180.SmallSigma0(x), i) ==
            (BitAt(x, (i + 7) % 32) + BitAt(x, (i + 18) % 32) + if i + 3 < 32 then BitAt(x, i + 3) else 0) % 2
    ensures BitAt(Fips180.SmallSigma1(x), i) ==
            (BitAt(x, (i + 17) % 32) + BitAt(x, (i + 19) % 32) + if i + 10 < 32 then BitAt(x, i + 10) else 0) % 2
  {
    hide BitAt, Xor, Fips180.Rotr, ShiftRight;
    RotrAt(x, 7, i);
    RotrAt(x, 18, i);
    ShiftRightAt(x, 3, i);
    Xor3At(Fips180.Rotr(x, 7), Fips180.Rotr(x, 18), ShiftRight(x, 3), i);
    RotrAt(x, 17, i);
    RotrAt(x, 19, i);
    ShiftRightAt(x, 10, i);
    Xor3At(Fips180.Rotr(x, 17), Fips180.Rotr(x, 19), ShiftRight(x, 10), i);
    BeyondTheTop(x, i + 3);
    BeyondTheTop(x, i + 10);
  }

  lemma BeyondTheTop(x: nat, i: nat)
    requires x < WORD
    ensures i >= 32 ==> BitAt(x, i) == 0
  {
    if i >= 32 {
      Compression.WordIsPow2();
      JoinAt(0, x, 32, i);
      hide Pow2;
      assert 0 / Pow2(i - 32) == 0;
    }
  }
}
