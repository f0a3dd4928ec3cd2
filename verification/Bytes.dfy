/** Octets, and the way numbers are laid out in them. */
module Bytes {

  type byte = x: nat | x < 0x100

  /** The value of a byte string read with the most significant octet first. */
  function FromBigEndian(s: seq<byte>): nat
  {
    if s == [] then 0 else FromBigEndian(s[..|s| - 1]) * 0x100 + s[|s| - 1]
  }

  /** The n octets of v, most significant first; a v that needs more than n octets is cut. */
  function ToBigEndian(v: nat, n: nat): (s: seq<byte>)
    ensures |s| == n
  {
    if n == 0 then [] else ToBigEndian(v / 0x100, n - 1) + [v % 0x100]
  }

  function Zeros(n: nat): (s: seq<byte>)
    ensures |s| == n
  {
    seq(n, _ => 0)
  }

  function Pow256(n: nat): (p: nat)
    ensures p > 0
  {
    if n == 0 then 1 else 0x100 * Pow256(n - 1)
  }

  lemma FromBigEndian4(s: seq<byte>)
    requires |s| == 4
    ensures var b: seq<nat> := s;
            FromBigEndian(s) == 0x100_0000 * b[0] + 0x1_0000 * b[1] + 0x100 * b[2] + b[3]
  {
    assert FromBigEndian(s[..1]) == s[0] by {
      assert s[..1][..0] == [];
    }
    assert s[..2][..1] == s[..1] && s[..3][..2] == s[..2];
    assert FromBigEndian(s[..2]) == FromBigEndian(s[..1]) * 0x100 + s[1];
    assert FromBigEndian(s[..3]) == FromBigEndian(s[..2]) * 0x100 + s[2];
  }

  lemma {:induction false} BigEndianBound(s: seq<byte>)
    ensures FromBigEndian(s) < Pow256(|s|)
  {
    if s != [] {
      BigEndianBound(s[..|s| - 1]);
    }
  }

  /** Reading back what was laid out: exact for every v that fits. */
  lemma {:induction false} BigEndianRoundTrip(v: nat, n: nat)
    requires v < Pow256(n)
    ensures FromBigEndian(ToBigEndian(v, n)) == v
  {
    if n > 0 {
      BigEndianRoundTrip(v / 0x100, n - 1);
      assert ToBigEndian(v, n)[..n - 1] == ToBigEndian(v / 0x100, n - 1);
    }
  }

  /** Only the value modulo 256^n is visible in n octets. */
  lemma {:induction false} ToBigEndianModulo(v: nat, q: nat, n: nat)
    ensures ToBigEndian(v + q * Pow256(n), n) == ToBigEndian(v, n)
  {
    if n > 0 {
      var p := q * Pow256(n - 1);
      assert q * Pow256(n) == 0x100 * p;
      assert (v + 0x100 * p) / 0x100 == v / 0x100 + p;
      assert (v + 0x100 * p) % 0x100 == v % 0x100;
      ToBigEndianModulo(v / 0x100, q, n - 1);
    }
  }

  /** Two equal layouts are layouts of numbers equal modulo 256^n. */
  lemma {:induction false} ToBigEndianInjective(v: nat, w: nat, n: nat)
    requires v < Pow256(n) && w < Pow256(n)
    requires ToBigEndian(v, n) == ToBigEndian(w, n)
    ensures v == w
  {
    BigEndianRoundTrip(v, n);
    BigEndianRoundTrip(w, n);
  }

  lemma FourBytes(x: nat)
    ensures ToBigEndian(x, 4) == [x / 0x100_0000 % 0x100, x / 0x1_0000 % 0x100, x / 0x100 % 0x100, x % 0x100]
  {
    assert ToBigEndian(x / 0x100 / 0x100 / 0x100, 1) == [x / 0x100_0000 % 0x100];
    assert ToBigEndian(x / 0x100 / 0x100, 2) == [x / 0x100_0000 % 0x100, x / 0x1_0000 % 0x100];
    assert ToBigEndian(x / 0x100, 3) == [x / 0x100_0000 % 0x100, x / 0x1_0000 % 0x100, x / 0x100 % 0x100];
  }
}
