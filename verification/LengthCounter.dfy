/**
 The byte counter of the hasher: a 64-bit number kept as four base-65536 digits, least
 significant first (`data_length_digits_`).
 */
module LengthCounter {
  import opened Bits
  import opened Bytes
  import opened Compression

  const DIGIT := 0x1_0000

  /** The weight of digit i; the weight of the carry out of the last digit is 2^64. */
  function Weight(i: nat): nat
    requires i <= 4
  {
    match i
    case 0 => 1
    case 1 => DIGIT
    case 2 => 0x1_0000_0000
    case 3 => 0x1_0000_0000_0000
    case _ => WORD64
  }

  function Value(d: seq<nat>): nat
    requires |d| == 4
  {
    d[0] + DIGIT * d[1] + 0x1_0000_0000 * d[2] + 0x1_0000_0000_0000 * d[3]
  }

  ghost predicate Normal(d: seq<nat>)
  {
    |d| == 4 && d[0] < DIGIT && d[1] < DIGIT && d[2] < DIGIT && d[3] < DIGIT
  }

  /** The number held by the digits together with a carry waiting to be added at digit i. */
  function Total(d: seq<nat>, carry: nat, i: nat): nat
    requires |d| == 4 && i <= 4
  {
    Value(d) + carry * Weight(i)
  }

  lemma SplitDigit(x: nat)
    ensures ShiftRight(x, 16) == x / DIGIT && And(x, 65535) == x % DIGIT
    ensures x == (x / DIGIT) * DIGIT + x % DIGIT
  {
    SmallPowers();
    ShiftRightIsQuotient(x, 16);
    AndMask(x, 16);
  }

  lemma SetDigit(d: seq<nat>, i: nat, x: nat)
    requires |d| == 4 && i < 4
    ensures Value(d[i := x]) == Value(d) - d[i] * Weight(i) + x * Weight(i)
  {
  }

  lemma WeightStep(i: nat)
    requires i < 4
    ensures Weight(i + 1) == DIGIT * Weight(i)
  {
  }

  /** Adding the carry into digit i, with or without passing the excess on. */
  lemma DigitStep(d: seq<nat>, i: nat, carry: nat)
    requires |d| == 4 && i < 4
    ensures var x := d[i] + carry;
            && Total(d[i := x], 0, i) == Total(d, carry, i)
            && Total(d[i := And(x, 65535)], ShiftRight(x, 16), i + 1) == Total(d, carry, i)
  {
    hide And, ShiftRight, Value, Weight;
    var x := d[i] + carry;
    SplitDigit(x);
    SetDigit(d, i, x);
    SetDigit(d, i, x % DIGIT);
    WeightStep(i);
    assert x * Weight(i) == d[i] * Weight(i) + carry * Weight(i);
    assert x * Weight(i) == (x / DIGIT) * (DIGIT * Weight(i)) + (x % DIGIT) * Weight(i) by {
      calc {
        x * Weight(i);
        ((x / DIGIT) * DIGIT + x % DIGIT) * Weight(i);
        ((x / DIGIT) * DIGIT) * Weight(i) + (x % DIGIT) * Weight(i);
        (x / DIGIT) * (DIGIT * Weight(i)) + (x % DIGIT) * Weight(i);
      }
    }
  }

  /** The first addition may wrap around; that costs a multiple of 2^64. */
  lemma FirstDigit(d: seq<nat>, n: nat)
    requires Normal(d) && n < WORD64
    ensures Add64(d[0], n) < WORD64
    ensures Total(d[0 := Add64(d[0], n)], 0, 0) == Value(d) + n
         || Total(d[0 := Add64(d[0], n)], 0, 0) + WORD64 == Value(d) + n
  {
    SetDigit(d, 0, Add64(d[0], n));
  }

  lemma LastDigit(d: seq<nat>, carry: nat, i: nat, sum: nat)
    requires Normal(d) && i <= 4
    requires carry == 0 || i == 4
    requires Total(d, carry, i) == sum || Total(d, carry, i) + WORD64 == sum
    ensures Value(d) == sum % WORD64
  {
    ModUnique(sum, WORD64, if Total(d, carry, i) == sum then carry else carry + 1, Value(d));
  }

  /** No carry overflows: only the first digit can hold a whole word, and it gets none. */
  lemma CarryFits(x: nat, carry: nat)
    requires (x < WORD64 && carry == 0) || (x < DIGIT && carry < WORD64 / DIGIT)
    ensures Add64(x, carry) == x + carry
    ensures And(x + carry, 65535) < DIGIT && ShiftRight(x + carry, 16) < WORD64 / DIGIT
  {
    hide And, ShiftRight;
    SplitDigit(x + carry);
  }

  /**
   `add_to_data_length`. The loop stops at the first digit that needs no carry; the counter
   still advances by exactly n, modulo 2^64.
   */
  method AddToDataLength(digits: array<nat>, n: nat)
    requires digits.Length == 4 && Normal(digits[..]) && n < WORD64
    modifies digits
    ensures Normal(digits[..])
    ensures Value(digits[..]) == (old(Value(digits[..])) + n) % WORD64
  {
    hide And, ShiftRight, Add64, Total, Value;
    ghost var sum := Value(digits[..]) + n;
    FirstDigit(digits[..], n);
    ghost var d: seq<nat> := digits[..];
    var carry: nat := 0;
    digits[0] := Add64(digits[0], n);
    assert digits[..] == d[0 := Add64(d[0], n)];
    ghost var total := Total(digits[..], 0, 0);
    var i := 0;
    while i < 4
      invariant 0 <= i <= 4
      invariant forall j :: 0 <= j < 4 && j != i ==> digits[j] < DIGIT
      invariant i == 0 ==> carry == 0 && digits[0] < WORD64
      invariant 0 < i < 4 ==> digits[i] < DIGIT && carry < WORD64 / DIGIT
      invariant Total(digits[..], carry, i) == total
    {
      d := digits[..];
      DigitStep(d, i, carry);
      CarryFits(d[i], carry);
      digits[i] := Add64(digits[i], carry);
      assert digits[..] == d[i := d[i] + carry];
      if digits[i] >= 65536 {
        assert d[i := And(digits[i], 65535)] == digits[..][i := And(digits[i], 65535)];
        carry := ShiftRight(digits[i], 16);
        digits[i] := And(digits[i], 65535);
      } else {
        break;
      }
      i := i + 1;
    }
    LastDigit(digits[..], if i == 4 then carry else 0, i, sum);
  }

  /** The 3-bit left shift of one digit, with the bits shifted out of the digit below. */
  lemma ShiftDigit(before: nat, carry: nat)
    requires before < DIGIT && carry < 8
    ensures var b := And(Or(Shl64(before, 3), carry), 65535);
            var c := And(ShiftRight(before, 13), 65535);
            && b < DIGIT && c < 8
            && b + c * DIGIT == 8 * before + carry
  {
    hide Bitwise, ShiftRight, ShiftLeft;
    assert Pow2(3) == 8;
    assert Pow2(13) == 0x2000 by {
      assert Pow2(8) == 0x100 && Pow2(5) == 0x20;
      Pow2Add(8, 5);
    }
    ShiftLeftIsProduct(before, 3);
    OrIsSum(before, carry, 3);
    SplitDigit(8 * before + carry);
    ShiftRightIsQuotient(before, 13);
    SplitDigit(before / 0x2000);
    assert (8 * before + carry) / DIGIT == before / 0x2000;
  }

  /** One digit as the code writes it: high octet first. */
  function Octets(x: nat): (s: seq<byte>)
    ensures |s| == 2
  {
    [x / 0x100 % 0x100, x % 0x100]
  }

  /** The eight octets in which four digits are written, most significant first. */
  function DigitBytes(d: seq<nat>): (s: seq<byte>)
    requires |d| == 4
    ensures |s| == 8
  {
    Octets(d[3]) + Octets(d[2]) + Octets(d[1]) + Octets(d[0])
  }

  lemma DigitByteAt(d: seq<nat>, i: nat)
    requires |d| == 4 && i < 4
    ensures DigitBytes(d)[6 - 2 * i] == d[i] / 0x100 % 0x100
    ensures DigitBytes(d)[7 - 2 * i] == d[i] % 0x100
  {
  }

  lemma AppendDigit(v: nat, x: nat, n: nat, u: nat)
    requires x < DIGIT && u == v * DIGIT + x
    ensures ToBigEndian(u, n + 2) == ToBigEndian(v, n) + Octets(x)
  {
    assert u / 0x100 == v * 0x100 + x / 0x100 && u % 0x100 == x % 0x100;
    assert u / 0x100 / 0x100 == v && u / 0x100 % 0x100 == x / 0x100 % 0x100;
    assert ToBigEndian(u / 0x100, n + 1) == ToBigEndian(v, n) + [x / 0x100 % 0x100];
  }

  lemma AppendDigits(d: seq<nat>, v1: nat, v2: nat, v3: nat)
    requires Normal(d)
    requires v1 == d[3] * DIGIT + d[2] && v2 == v1 * DIGIT + d[1] && v3 == v2 * DIGIT + d[0]
    ensures DigitBytes(d) == ToBigEndian(v3, 8)
  {
    assert ToBigEndian(0, 0) == [];
    hide ToBigEndian, Octets;
    AppendDigit(0, d[3], 0, d[3]);
    assert [] + Octets(d[3]) == Octets(d[3]);
    AppendDigit(d[3], d[2], 2, v1);
    AppendDigit(v1, d[1], 4, v2);
    AppendDigit(v2, d[0], 6, v3);
  }

  lemma DigitBytesAreBigEndian(d: seq<nat>)
    requires Normal(d)
    ensures DigitBytes(d) == ToBigEndian(Value(d), 8)
  {
    hide ToBigEndian, DigitBytes;
    var v1 := d[3] * DIGIT + d[2];
    AppendDigits(d, v1, v1 * DIGIT + d[1], Value(d));
  }

  /** The digits while the code is shifting them: below i they are done, from i on they are 8 times larger. */
  function Mixed(bits: seq<nat>, d: seq<nat>, i: nat): (m: seq<nat>)
    requires |bits| == |d| == 4
    ensures |m| == 4
  {
    seq(4, j requires 0 <= j < 4 => if j < i then bits[j] else 8 * d[j])
  }

  lemma ShiftedDigits(d: seq<nat>, bits: seq<nat>, carry: nat)
    requires |d| == 4 && Normal(bits) && Total(bits, carry, 4) == 8 * Value(d)
    ensures DigitBytes(bits) == ToBigEndian(8 * Value(d), 8)
  {
    hide ToBigEndian, Value;
    DigitBytesAreBigEndian(bits);
    assert Pow256(8) == WORD64;
    ToBigEndianModulo(Value(bits), carry, 8);
  }

  lemma MixedStep(bits: seq<nat>, d: seq<nat>, i: nat, carry: nat, b: nat, c: nat)
    requires |bits| == |d| == 4 && i < 4
    requires d[i] < DIGIT && carry < 8
    requires b == And(Or(Shl64(d[i], 3), carry), 65535) && c == And(ShiftRight(d[i], 13), 65535)
    ensures b < DIGIT && c < 8
    ensures Total(Mixed(bits[i := b], d, i + 1), c, i + 1) == Total(Mixed(bits, d, i), carry, i)
  {
    hide And, Or, ShiftRight, Shl64, Total;
    ShiftDigit(d[i], carry);
    DigitStep(Mixed(bits, d, i), i, carry);
    SplitDigit(8 * d[i] + carry);
    ModUnique(8 * d[i] + carry, DIGIT, c, b);
    assert Mixed(bits[i := b], d, i + 1) == Mixed(bits, d, i)[i := b];
  }

  /** `write_data_bit_length`: eight octets holding 8 times the counter, modulo 2^64. */
  method WriteDataBitLength(digits: array<nat>, out: array<byte>, begin: nat)
    requires digits.Length == 4 && Normal(digits[..])
    requires begin + 8 <= out.Length
    modifies out
    ensures out[..begin] == old(out[..begin])
    ensures out[begin..begin + 8] == ToBigEndian(8 * Value(digits[..]), 8)
    ensures out[begin + 8..] == old(out[begin + 8..])
  {
    hide DigitBytes, ShiftRight, Value, ToBigEndian;
    var bits := ShiftDigits(digits);
    ghost var b: seq<nat> := bits[..];
    ghost var s := DigitBytes(b);
    var p := begin;
    var i := 3;
    while i >= 0
      invariant -1 <= i <= 3 && p == begin + 2 * (3 - i) && bits[..] == b
      invariant out[..begin] == old(out[..begin]) && out[begin + 8..] == old(out[begin + 8..])
      invariant forall j :: 0 <= j < p - begin ==> out[begin + j] == s[j]
    {
      ShiftRightIsQuotient(bits[i], 8);
      SmallPowers();
      DigitByteAt(b, i);
      out[p] := ShiftRight(bits[i], 8) % 0x100;
      p := p + 1;
      out[p] := bits[i] % 0x100;
      p := p + 1;
      i := i - 1;
    }
    assert out[begin..begin + 8] == s;
  }

  /** The first loop of `write_data_bit_length`: from a byte count to a bit count. */
  method ShiftDigits(digits: array<nat>) returns (bits: array<nat>)
    requires digits.Length == 4 && Normal(digits[..])
    ensures fresh(bits) && bits.Length == 4
    ensures DigitBytes(bits[..]) == ToBigEndian(8 * Value(digits[..]), 8)
  {
    hide And, Or, ShiftRight, Shl64, Total, Value;
    bits := new nat[4](i requires 0 <= i < 4 reads digits => digits[i]);
    ghost var d: seq<nat> := digits[..];
    var carry: nat := 0;
    StartMixed(bits[..], d);
    for i := 0 to 4
      invariant carry < 8
      invariant forall j :: 0 <= j < i ==> bits[j] < DIGIT
      invariant forall j :: i <= j < 4 ==> bits[j] == d[j] < DIGIT
      invariant Total(Mixed(bits[..], d, i), carry, i) == 8 * Value(d)
    {
      var before := bits[i];
      ghost var s: seq<nat> := bits[..];
      bits[i] := Shl64(bits[i], 3);
      bits[i] := Or(bits[i], carry);
      bits[i] := And(bits[i], 65535);
      MixedStep(s, d, i, carry, bits[i], And(ShiftRight(before, 13), 65535));
      assert bits[..] == s[i := bits[i]];
      carry := And(ShiftRight(before, 13), 65535);
    }
    assert Mixed(bits[..], d, 4) == bits[..];
    ShiftedDigits(d, bits[..], carry);
  }

  lemma StartMixed(bits: seq<nat>, d: seq<nat>)
    requires |bits| == |d| == 4
    ensures Total(Mixed(bits, d, 0), 0, 0) == 8 * Value(d)
  {
  }
}
