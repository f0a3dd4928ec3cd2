/** `output_hex`: octets as text on a formatted stream, two lower-case hexadecimal digits each. */
module HexOutput {
  import opened Bytes

  const LOWER := "0123456789abcdef"
  const UPPER := "0123456789ABCDEF"

  datatype Base = Oct | Dec | Hexadecimal

  datatype Adjust = Left | Right | Internal

  /** The formatting flags of a stream besides the base; streams start with (false, false, Right). */
  datatype Flags = Flags(upper: bool, showBase: bool, adjust: Adjust)

  const PLAIN := Flags(false, false, Right)

  function Radix(b: Base): (r: nat)
    ensures 8 <= r <= 16
  {
    match b case Oct => 8 case Dec => 10 case Hexadecimal => 16
  }

  /** An unsigned integer in the given base, without leading zeros. */
  function Digits(v: nat, b: Base, upper: bool): (s: string)
    ensures |s| >= 1
    decreases v
  {
    var digit := [(if upper then UPPER else LOWER)[v % Radix(b)]];
    if v < Radix(b) then digit else Digits(v / Radix(b), b, upper) + digit
  }

  function Prefix(v: nat, b: Base, f: Flags): string
  {
    if !f.showBase || v == 0 || b == Dec then ""
    else if b == Oct then "0"
    else if f.upper then "0X" else "0x"
  }

  function Fill(width: nat, used: nat, c: char): string
  {
    if width <= used then "" else seq(width - used, _ => c)
  }

  /** What inserting v into a stream writes. */
  function Field(v: nat, b: Base, f: Flags, width: nat, c: char): string
  {
    var prefix, digits := Prefix(v, b, f), Digits(v, b, f.upper);
    var fill := Fill(width, |prefix| + |digits|, c);
    match f.adjust
    case Left => prefix + digits + fill
    case Right => fill + prefix + digits
    case Internal => prefix + fill + digits
  }

  /** An output stream: its text and its format; the width holds for one insertion. */
  class Stream {
    var text: string
    var base: Base
    var flags: Flags
    var width: nat
    var fill: char

    constructor ()
      ensures text == "" && base == Dec && flags == PLAIN && width == 0 && fill == ' '
    {
      text, base, flags, width, fill := "", Dec, PLAIN, 0, ' ';
    }

    /** `<<` of an unsigned integer. */
    method Insert(v: nat)
      modifies this`text, this`width
      ensures text == old(text + Field(v, base, flags, width, fill)) && width == 0
    {
      text := text + Field(v, base, flags, width, fill);
      width := 0;
    }

    /** `output_hex`, on a stream in any state. */
    method OutputHex(bytes: seq<byte>)
      modifies this
      ensures text == old(text) + Fields(bytes, flags)
      ensures flags == PLAIN ==> text == old(text) + Hex(bytes)
      ensures base == Dec && flags == old(flags)
      ensures bytes == [] ==> width == old(width) && fill == old(fill)
      ensures bytes != [] ==> width == 0 && fill == '0'
    {
      hide Field, Hex, HexPair;
      base := Hexadecimal;
      var first := 0;
      while first != |bytes|
        invariant 0 <= first <= |bytes|
        invariant text == old(text) + Fields(bytes[..first], flags)
        invariant base == Hexadecimal && flags == old(flags)
        invariant if first == 0 then width == old(width) && fill == old(fill) else width == 0 && fill == '0'
        decreases |bytes| - first
      {
        width := 2;
        fill := '0';
        Insert(bytes[first]);
        assert bytes[..first + 1][..first] == bytes[..first];
        first := first + 1;
      }
      base := Dec;
      assert bytes[..first] == bytes;
      PlainFields(bytes);
    }
  }

  /** `bytes_to_hex_string`: a stream of its own has the plain flags. */
  method BytesToHexString(bytes: seq<byte>) returns (s: string)
    ensures s == Hex(bytes)
  {
    var oss := new Stream();
    oss.OutputHex(bytes);
    assert "" + Hex(bytes) == Hex(bytes);
    s := oss.text;
  }

  /** What the loop writes under the given flags. */
  function Fields(bytes: seq<byte>, f: Flags): string
  {
    if bytes == [] then ""
    else Fields(bytes[..|bytes| - 1], f) + Field(bytes[|bytes| - 1], Hexadecimal, f, 2, '0')
  }

  /** The two characters of one octet. */
  function HexPair(b: byte): (s: string)
    ensures |s| == 2
  {
    [LOWER[b / 16], LOWER[b % 16]]
  }

  function Hex(bytes: seq<byte>): (s: string)
    ensures |s| == 2 * |bytes|
  {
    if bytes == [] then "" else Hex(bytes[..|bytes| - 1]) + HexPair(bytes[|bytes| - 1])
  }

  /** These flags make every octet its two lower-case digits. */
  ghost predicate Faithful(f: Flags)
  {
    forall b: byte :: Field(b, Hexadecimal, f, 2, '0') == HexPair(b)
  }

  /** Width 2 and fill 0 do so exactly on streams that print no base, in lower case, not adjusted to the left. */
  lemma FaithfulIff(f: Flags)
    ensures Faithful(f) <==> !f.upper && !f.showBase && f.adjust != Left
  {
    if !f.upper && !f.showBase && f.adjust != Left {
      forall b: byte
        ensures Field(b, Hexadecimal, f, 2, '0') == HexPair(b)
      {
        FieldIsPair(b, f);
      }
    } else {
      WrongField(f);
    }
  }

  lemma DigitsOfByte(b: byte, upper: bool)
    ensures var table := if upper then UPPER else LOWER;
            Digits(b, Hexadecimal, upper) == if b < 16 then [table[b]] else [table[b / 16], table[b % 16]]
  {
    if b >= 16 {
      assert Digits(b / 16, Hexadecimal, upper) == [(if upper then UPPER else LOWER)[b / 16]];
    }
  }

  lemma FieldIsPair(b: byte, f: Flags)
    requires !f.upper && !f.showBase && f.adjust != Left
    ensures Field(b, Hexadecimal, f, 2, '0') == HexPair(b)
  {
    DigitsOfByte(b, false);
    assert LOWER[0] == '0';
  }

  /** Otherwise 160 (upper case) or 5 comes out wrong. */
  lemma WrongField(f: Flags)
    requires f.upper || f.showBase || f.adjust == Left
    ensures !Faithful(f)
  {
    var b: byte := if f.upper then 160 else 5;
    var field := Field(b, Hexadecimal, f, 2, '0');
    DigitsOfByte(b, f.upper);
    if f.showBase {
      assert |field| > 2;
    } else if f.upper {
      assert field[0] == UPPER[10] == 'A' && HexPair(b)[0] == LOWER[10] == 'a';
    } else {
      assert field[0] == LOWER[5] == '5' && HexPair(b)[0] == LOWER[0] == '0';
    }
    assert field != HexPair(b);
  }

  lemma {:induction false} PlainFields(bytes: seq<byte>)
    ensures Fields(bytes, PLAIN) == Hex(bytes)
  {
    hide Field, HexPair;
    if bytes != [] {
      PlainFields(bytes[..|bytes| - 1]);
      FieldIsPair(bytes[|bytes| - 1], PLAIN);
    }
  }

  // Reading the text back.

  function DigitValue(c: char): (v: nat)
    ensures v < 16
  {
    if '0' <= c <= '9' then (c - '0') as int
    else if 'a' <= c <= 'f' then (c - 'a') as int + 10
    else 0
  }

  function Unhex(s: string): seq<byte>
    requires |s| % 2 == 0
  {
    if s == "" then []
    else
      var n := |s| - 2;
      Unhex(s[..n]) + [16 * DigitValue(s[n]) + DigitValue(s[n + 1])]
  }

  lemma PairRoundTrip(b: byte)
    ensures 16 * DigitValue(HexPair(b)[0]) + DigitValue(HexPair(b)[1]) == b
  {
    DigitRoundTrip(b / 16);
    DigitRoundTrip(b % 16);
  }

  lemma DigitRoundTrip(v: nat)
    requires v < 16
    ensures DigitValue(LOWER[v]) == v
  {
  }

  lemma UnhexAppend(s: string, p: string)
    requires |s| % 2 == 0 && |p| == 2
    ensures |s + p| % 2 == 0
    ensures Unhex(s + p) == Unhex(s) + [16 * DigitValue(p[0]) + DigitValue(p[1])]
  {
    assert (s + p)[..|s|] == s;
  }

  lemma HexAppend(bytes: seq<byte>, b: byte)
    ensures Hex(bytes + [b]) == Hex(bytes) + HexPair(b)
  {
    assert (bytes + [b])[..|bytes|] == bytes;
  }

  lemma EmptyRoundTrip()
    ensures Unhex(Hex([])) == []
  {
  }

  /** The text determines the octets: nothing is lost, and no two digests print alike. */
  lemma {:induction false} HexRoundTrip(bytes: seq<byte>)
    ensures Unhex(Hex(bytes)) == bytes
  {
    hide *;
    if bytes == [] {
      EmptyRoundTrip();
    } else {
      var front, b := bytes[..|bytes| - 1], bytes[|bytes| - 1];
      HexRoundTrip(front);
      HexAppend(front, b);
      UnhexAppend(Hex(front), HexPair(b));
      PairRoundTrip(b);
      assert bytes == front + [b];
    }
  }
}
