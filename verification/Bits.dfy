/**
 Bitwise operators on unsigned words, seen as natural numbers.

 Conjunction, disjunction and exclusive or do not depend on the width of the word, so one
 definition serves both the 64-bit words of the implementation and the 32-bit words of the
 standard. What does depend on the width (complement, left shift, addition) is written with an
 explicit modulus where it is used.
 */
module Bits {

  /** One more than the largest 64-bit word. */
  const WORD64 := 0x1_0000_0000_0000_0000

  function Pow2(n: nat): (p: nat)
    ensures p > 0
  {
    if n == 0 then 1 else 2 * Pow2(n - 1)
  }

  datatype Gate = AndGate | OrGate | XorGate

  /** A gate on single bits. */
  function Bit(g: Gate, a: nat, b: nat): (r: nat)
    ensures r < 2
  {
    match g
    case AndGate => if a == 1 && b == 1 then 1 else 0
    case OrGate => if a == 1 || b == 1 then 1 else 0
    case XorGate => if a == b then 0 else 1
  }

  /** The same gate applied at every bit position. */
  function Bitwise(g: Gate, x: nat, y: nat): nat
    decreases x + y
  {
    if x == 0 && y == 0 then 0 else 2 * Bitwise(g, x / 2, y / 2) + Bit(g, x % 2, y % 2)
  }

  function And(x: nat, y: nat): nat { Bitwise(AndGate, x, y) }
  function Or(x: nat, y: nat): nat { Bitwise(OrGate, x, y) }
  function Xor(x: nat, y: nat): nat { Bitwise(XorGate, x, y) }

  /** A gate acts on the lowest bits and on the rest separately. */
  lemma Cons(g: Gate, x: nat, y: nat, a: nat, b: nat)
    requires a < 2 && b < 2
    ensures Bitwise(g, 2 * x + a, 2 * y + b) == 2 * Bitwise(g, x, y) + Bit(g, a, b)
  {
    assert (2 * x + a) / 2 == x && (2 * x + a) % 2 == a;
    assert (2 * y + b) / 2 == y && (2 * y + b) % 2 == b;
  }

  lemma {:induction false} Pow2Add(m: nat, n: nat)
    ensures Pow2(m + n) == Pow2(m) * Pow2(n)
  {
    if m > 0 {
      Pow2Add(m - 1, n);
      assert Pow2(m + n) == 2 * Pow2(m - 1 + n);
      assert 2 * (Pow2(m - 1) * Pow2(n)) == (2 * Pow2(m - 1)) * Pow2(n);
    }
  }

  /** Shift towards the low end, dropping the bits that fall off. */
  function ShiftRight(x: nat, n: nat): (r: nat)
    ensures r <= x
    decreases n
  {
    if n == 0 then x else ShiftRight(x / 2, n - 1)
  }

  /** Shift towards the high end; no bit is lost, the width is imposed by the caller. */
  function ShiftLeft(x: nat, n: nat): nat
    decreases n
  {
    if n == 0 then x else 2 * ShiftLeft(x, n - 1)
  }

  /** The k lowest bits of x. */
  function Low(x: nat, k: nat): nat
  {
    if k == 0 then 0 else 2 * Low(x / 2, k - 1) + x % 2
  }

  /** Dividing by 2p is dropping the lowest bit and dividing by p. */
  lemma HalfOfQuotient(x: nat, p: nat)
    requires p > 0
    ensures x / (2 * p) == (x / 2) / p && x % (2 * p) == 2 * ((x / 2) % p) + x % 2
  {
    var q, r := (x / 2) / p, (x / 2) % p;
    QuotientStep(x, q, p, r);
    ModUnique(x, 2 * p, q, 2 * r + x % 2);
  }

  lemma QuotientStep(x: nat, q: nat, p: nat, r: nat)
    requires x / 2 == q * p + r
    ensures x == q * (2 * p) + (2 * r + x % 2)
  {
    assert 2 * (q * p) == q * (2 * p);
  }

  lemma {:induction false} LowIsMod(x: nat, k: nat)
    ensures Low(x, k) == x % Pow2(k)
  {
    if k > 0 {
      LowIsMod(x / 2, k - 1);
      HalfOfQuotient(x, Pow2(k - 1));
    }
  }

  lemma ModUnique(x: int, m: int, q: int, r: int)
    requires m > 0 && 0 <= r < m && x == q * m + r
    ensures x % m == r && x / m == q
  {
    var d := x / m - q;
    assert d * m == r - x % m by {
      assert x == (x / m) * m + x % m;
      assert d * m == (x / m) * m - q * m;
    }
    if d >= 1 {
      MulMono(1, d, m);
    } else if d <= -1 {
      MulMono(d, -1, m);
    }
  }

  lemma MulMono(a: int, b: int, m: int)
    requires a <= b && m >= 0
    ensures a * m <= b * m
  {
  }

  lemma ModOfSum(x: nat, y: nat, m: nat)
    requires m > 0
    ensures (x + y) % m == (x % m + y % m) % m
  {
    var r := x % m + y % m;
    var q := x / m + y / m + r / m;
    assert x + y == q * m + r % m by {
      assert x == (x / m) * m + x % m;
      assert y == (y / m) * m + y % m;
      assert r == (r / m) * m + r % m;
      assert q * m == (x / m) * m + (y / m) * m + (r / m) * m;
    }
    ModUnique(x + y, m, q, r % m);
  }

  lemma LowCons(x: nat, a: nat, k: nat)
    requires a < 2 && k > 0
    ensures Low(2 * x + a, k) == 2 * Low(x, k - 1) + a
  {
    assert (2 * x + a) / 2 == x && (2 * x + a) % 2 == a;
  }

  lemma {:induction false} LowBitwise(g: Gate, x: nat, y: nat, k: nat)
    ensures Low(Bitwise(g, x, y), k) == Bitwise(g, Low(x, k), Low(y, k))
  {
    if k > 0 {
      LowBitwise(g, x / 2, y / 2, k - 1);
      LowBitwiseCons(g, x / 2, y / 2, x % 2, y % 2, k);
    }
  }

  lemma LowBitwiseCons(g: Gate, u: nat, v: nat, a: nat, b: nat, k: nat)
    requires a < 2 && b < 2 && k > 0
    requires Low(Bitwise(g, u, v), k - 1) == Bitwise(g, Low(u, k - 1), Low(v, k - 1))
    ensures Low(Bitwise(g, 2 * u + a, 2 * v + b), k) == Bitwise(g, Low(2 * u + a, k), Low(2 * v + b, k))
  {
    calc {
      Low(Bitwise(g, 2 * u + a, 2 * v + b), k);
      { Cons(g, u, v, a, b); }
      Low(2 * Bitwise(g, u, v) + Bit(g, a, b), k);
      { LowCons(Bitwise(g, u, v), Bit(g, a, b), k); }
      2 * Bitwise(g, Low(u, k - 1), Low(v, k - 1)) + Bit(g, a, b);
      { Cons(g, Low(u, k - 1), Low(v, k - 1), a, b); }
      Bitwise(g, 2 * Low(u, k - 1) + a, 2 * Low(v, k - 1) + b);
      { LowCons(u, a, k); LowCons(v, b, k); }
      Bitwise(g, Low(2 * u + a, k), Low(2 * v + b, k));
    }
  }

  /** The low bits of a result depend only on the low bits of the operands. */
  lemma LowBits(g: Gate, x: nat, y: nat, k: nat)
    ensures Bitwise(g, x, y) % Pow2(k) == Bitwise(g, x % Pow2(k), y % Pow2(k))
  {
    LowBitwise(g, x, y, k);
    LowIsMod(x, k);
    LowIsMod(y, k);
    LowIsMod(Bitwise(g, x, y), k);
  }

  lemma SmallMod(x: nat, m: nat)
    requires x < m
    ensures x % m == x
  {
  }

  /** Words that fit in k bits give results that fit in k bits. */
  lemma Fits(g: Gate, x: nat, y: nat, k: nat)
    requires x < Pow2(k) && y < Pow2(k)
    ensures Bitwise(g, x, y) < Pow2(k)
  {
    LowBits(g, x, y, k);
    SmallMod(x, Pow2(k));
    SmallMod(y, Pow2(k));
  }

  lemma {:induction false} AndBounded(x: nat, y: nat)
    ensures And(x, y) <= y
  {
    if x != 0 || y != 0 {
      AndBounded(x / 2, y / 2);
    }
  }

  /** Bits of the first operand above the second one's width cannot reach a conjunction. */
  lemma AndLow(x: nat, y: nat, k: nat)
    requires y < Pow2(k)
    ensures And(x, y) == And(x % Pow2(k), y) < Pow2(k)
  {
    LowBits(AndGate, x, y, k);
    AndBounded(x, y);
    SmallMod(y, Pow2(k));
    SmallMod(And(x, y), Pow2(k));
  }

  /** Masking with k ones keeps the k low bits. */
  lemma {:induction false} AndMask(x: nat, k: nat)
    ensures And(x, Pow2(k) - 1) == x % Pow2(k)
  {
    LowBits(AndGate, x, Pow2(k) - 1, k);
    AndOnes(x % Pow2(k), k);
    AndBounded(x, Pow2(k) - 1);
    SmallMod(Pow2(k) - 1, Pow2(k));
    SmallMod(And(x, Pow2(k) - 1), Pow2(k));
  }

  lemma {:induction false} AndOnes(x: nat, k: nat)
    requires x < Pow2(k)
    ensures And(x, Pow2(k) - 1) == x
  {
    if k > 0 {
      AndOnes(x / 2, k - 1);
      Cons(AndGate, x / 2, Pow2(k - 1) - 1, x % 2, 1);
    }
  }

  lemma {:induction false} ShiftRightIsQuotient(x: nat, n: nat)
    ensures ShiftRight(x, n) == x / Pow2(n)
  {
    if n > 0 {
      ShiftRightIsQuotient(x / 2, n - 1);
      HalfOfQuotient(x, Pow2(n - 1));
    }
  }

  lemma {:induction false} ShiftLeftIsProduct(x: nat, n: nat)
    ensures ShiftLeft(x, n) == x * Pow2(n)
  {
    if n > 0 {
      ShiftLeftIsProduct(x, n - 1);
      assert 2 * (x * Pow2(n - 1)) == x * (2 * Pow2(n - 1));
    }
  }

  /** Joining disjoint fields with `|` is adding them. */
  lemma {:induction false} OrIsSum(hi: nat, lo: nat, k: nat)
    requires lo < Pow2(k)
    ensures Or(hi * Pow2(k), lo) == hi * Pow2(k) + lo
  {
    if k == 0 {
      OrZero(hi);
    } else {
      var p := Pow2(k - 1);
      assert hi * Pow2(k) == 2 * (hi * p);
      OrIsSum(hi, lo / 2, k - 1);
      Cons(OrGate, hi * p, lo / 2, 0, lo % 2);
    }
  }

  lemma {:induction false} OrZero(x: nat)
    ensures Or(x, 0) == x
  {
    if x > 0 {
      OrZero(x / 2);
    }
  }

  /** Masking with a shifted mask. */
  lemma {:induction false} AndShifted(x: nat, m: nat, k: nat)
    ensures And(x, ShiftLeft(m, k)) == ShiftLeft(And(ShiftRight(x, k), m), k)
  {
    if k > 0 {
      AndShifted(x / 2, m, k - 1);
      Cons(AndGate, x / 2, ShiftLeft(m, k - 1), x % 2, 0);
    }
  }

  lemma {:induction false} BitwiseCommutes(g: Gate, x: nat, y: nat)
    ensures Bitwise(g, x, y) == Bitwise(g, y, x)
    decreases x + y
  {
    if x != 0 || y != 0 {
      BitwiseCommutes(g, x / 2, y / 2);
    }
  }

  /** The high half of an octet. */
  lemma AndHighNibble(x: nat)
    ensures And(0xf0, x) == 16 * ((x / 16) % 16)
  {
    assert Pow2(4) == 16;
    hide Bitwise, ShiftRight, ShiftLeft, Pow2;
    BitwiseCommutes(AndGate, 0xf0, x);
    ShiftLeftIsProduct(15, 4);
    AndShifted(x, 15, 4);
    AndMask(ShiftRight(x, 4), 4);
    ShiftRightIsQuotient(x, 4);
    ShiftLeftIsProduct((x / 16) % 16, 4);
  }

  /** Flipping at least one bit changes a number. */
  lemma {:induction false} XorChanges(x: nat, y: nat)
    requires y > 0
    ensures Xor(x, y) != x
    decreases x + y
  {
    if y / 2 > 0 {
      XorChanges(x / 2, y / 2);
    }
  }

  // Single bits, counted from the lowest.

  function BitAt(x: nat, i: nat): (b: nat)
    ensures b < 2
  {
    (x / Pow2(i)) % 2
  }

  lemma LowestBit(x: nat)
    ensures BitAt(x, 0) == x % 2
  {
  }

  lemma HigherBit(x: nat, i: nat)
    requires i > 0
    ensures BitAt(x, i) == BitAt(x / 2, i - 1)
  {
    HalfOfQuotient(x, Pow2(i - 1));
  }

  /** What the gates are, as arithmetic on bits. */
  lemma Gates(a: nat, b: nat)
    requires a < 2 && b < 2
    ensures Bit(AndGate, a, b) == a * b
    ensures Bit(OrGate, a, b) == a + b - a * b
    ensures Bit(XorGate, a, b) == (a + b) % 2
  {
  }

  lemma {:induction false} BitwiseAt(g: Gate, x: nat, y: nat, i: nat)
    ensures BitAt(Bitwise(g, x, y), i) == Bit(g, BitAt(x, i), BitAt(y, i))
  {
    hide BitAt;
    BitwiseHalves(g, x, y);
    if i == 0 {
      LowestBit(x);
      LowestBit(y);
      LowestBit(Bitwise(g, x, y));
    } else {
      HigherBit(x, i);
      HigherBit(y, i);
      HigherBit(Bitwise(g, x, y), i);
      BitwiseAt(g, x / 2, y / 2, i - 1);
    }
  }

  lemma BitwiseHalves(g: Gate, x: nat, y: nat)
    ensures Bitwise(g, x, y) / 2 == Bitwise(g, x / 2, y / 2)
    ensures Bitwise(g, x, y) % 2 == Bit(g, x % 2, y % 2)
  {
  }

  /** Two fields next to each other. */
  lemma {:induction false} JoinAt(hi: nat, lo: nat, k: nat, i: nat)
    requires lo < Pow2(k)
    ensures BitAt(hi * Pow2(k) + lo, i) == if i < k then BitAt(lo, i) else BitAt(hi, i - k)
  {
    hide BitAt;
    if k > 0 {
      var x := hi * Pow2(k) + lo;
      HalfOfJoin(hi, lo, Pow2(k - 1));
      if i == 0 {
        LowestBit(x);
        LowestBit(lo);
      } else {
        HigherBit(x, i);
        HigherBit(lo, i);
        JoinAt(hi, lo / 2, k - 1, i - 1);
      }
    }
  }

  lemma HalfOfJoin(hi: nat, lo: nat, p: nat)
    ensures (hi * (2 * p) + lo) / 2 == hi * p + lo / 2 && (hi * (2 * p) + lo) % 2 == lo % 2
  {
    assert hi * (2 * p) == 2 * (hi * p);
  }

  lemma {:induction false} ComplementAt(x: nat, k: nat, i: nat)
    requires x < Pow2(k) && i < k
    ensures BitAt(Pow2(k) - 1 - x, i) == 1 - BitAt(x, i)
  {
    hide BitAt;
    var c := Pow2(k) - 1 - x;
    assert c / 2 == Pow2(k - 1) - 1 - x / 2 && c % 2 == 1 - x % 2;
    if i == 0 {
      LowestBit(x);
      LowestBit(c);
    } else {
      HigherBit(x, i);
      HigherBit(c, i);
      ComplementAt(x / 2, k - 1, i - 1);
    }
  }

  /** Shifting right moves every bit down. */
  lemma {:induction false} ShiftRightAt(x: nat, n: nat, i: nat)
    ensures BitAt(ShiftRight(x, n), i) == BitAt(x, i + n)
    decreases n
  {
    hide BitAt;
    if n > 0 {
      ShiftRightAt(x / 2, n - 1, i);
      HigherBit(x, i + n);
    }
  }
}
