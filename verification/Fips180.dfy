/**
 SHA-256 as FIPS 180-4 defines it: pad the whole message, parse it into 512-bit blocks, iterate
 the compression function over them. Words are natural numbers below 2^32.
 */
module Fips180 {
  import opened Bits
  import opened Bytes
  import opened Padding
  import opened Streaming

  const WORD := 0x1_0000_0000

  // Section 4.1.2: the logical functions.

  function Complement(x: nat): nat { WORD - 1 - x % WORD }

  function Rotr(x: nat, n: nat): nat
    requires n <= 32
  {
    Or(ShiftRight(x, n), ShiftLeft(x, 32 - n) % WORD)
  }

  function Ch(x: nat, y: nat, z: nat): nat { Xor(And(x, y), And(Complement(x), z)) }

  function Maj(x: nat, y: nat, z: nat): nat { Xor(Xor(And(x, y), And(x, z)), And(y, z)) }

  function BigSigma0(x: nat): nat { Xor(Xor(Rotr(x, 2), Rotr(x, 13)), Rotr(x, 22)) }
  function BigSigma1(x: nat): nat { Xor(Xor(Rotr(x, 6), Rotr(x, 11)), Rotr(x, 25)) }
  function SmallSigma0(x: nat): nat { Xor(Xor(Rotr(x, 7), Rotr(x, 18)), ShiftRight(x, 3)) }
  function SmallSigma1(x: nat): nat { Xor(Xor(Rotr(x, 17), Rotr(x, 19)), ShiftRight(x, 10)) }

  // Section 4.2.2: the round constants.

  const K: seq<nat> :=
    [0x428a2f98, 0x71374491, 0xb5c0fbcf, 0xe9b5dba5, 0x3956c25b, 0x59f111f1, 0x923f82a4, 0xab1c5ed5] +
    [0xd807aa98, 0x12835b01, 0x243185be, 0x550c7dc3, 0x72be5d74, 0x80deb1fe, 0x9bdc06a7, 0xc19bf174] +
    [0xe49b69c1, 0xefbe4786, 0x0fc19dc6, 0x240ca1cc, 0x2de92c6f, 0x4a7484aa, 0x5cb0a9dc, 0x76f988da] +
    [0x983e5152, 0xa831c66d, 0xb00327c8, 0xbf597fc7, 0xc6e00bf3, 0xd5a79147, 0x06ca6351, 0x14292967] +
    [0x27b70a85, 0x2e1b2138, 0x4d2c6dfc, 0x53380d13, 0x650a7354, 0x766a0abb, 0x81c2c92e, 0x92722c85] +
    [0xa2bfe8a1, 0xa81a664b, 0xc24b8b70, 0xc76c51a3, 0xd192e819, 0xd6990624, 0xf40e3585, 0x106aa070] +
    [0x19a4c116, 0x1e376c08, 0x2748774c, 0x34b0bcb5, 0x391c0cb3, 0x4ed8aa4a, 0x5b9cca4f, 0x682e6ff3] +
    [0x748f82ee, 0x78a5636f, 0x84c87814, 0x8cc70208, 0x90befffa, 0xa4506ceb, 0xbef9a3f7, 0xc67178f2]

  // Section 6.2.2: one block.

  /** The eight working variables, and equally the eight words of a hash value. */
  datatype Vars = Vars(a: nat, b: nat, c: nat, d: nat, e: nat, f: nat, g: nat, h: nat)

  function ToSeq(v: Vars): (s: seq<nat>)
    ensures |s| == 8
  {
    [v.a, v.b, v.c, v.d, v.e, v.f, v.g, v.h]
  }

  predicate AreWords(v: Vars)
  {
    v.a < WORD && v.b < WORD && v.c < WORD && v.d < WORD &&
    v.e < WORD && v.f < WORD && v.g < WORD && v.h < WORD
  }

  /** Section 5.3.3: the initial hash value. */
  const H0: Vars := Vars(
    0x6a09e667, 0xbb67ae85, 0x3c6ef372, 0xa54ff53a, 0x510e527f, 0x9b05688c, 0x1f83d9ab, 0x5be0cd19)

  /** Word t of the message schedule of a block. */
  function Schedule(block: Block, t: nat): (w: nat)
    ensures w < WORD
  {
    if t < 16 then
      BigEndianBound(block[4 * t..4 * t + 4]);
      FromBigEndian(block[4 * t..4 * t + 4])
    else
      (SmallSigma1(Schedule(block, t - 2)) + Schedule(block, t - 7) +
       SmallSigma0(Schedule(block, t - 15)) + Schedule(block, t - 16)) % WORD
  }

  /** One round with constant k and schedule word w. */
  function Round(v: Vars, k: nat, w: nat): Vars
  {
    var t1 := (v.h + BigSigma1(v.e) + Ch(v.e, v.f, v.g) + k + w) % WORD;
    var t2 := (BigSigma0(v.a) + Maj(v.a, v.b, v.c)) % WORD;
    Vars((t1 + t2) % WORD, v.a, v.b, v.c, (v.d + t1) % WORD, v.e, v.f, v.g)
  }

  /** The working variables after the first t rounds. */
  function Rounds(v: Vars, block: Block, t: nat): (r: Vars)
    requires t <= |K|
    ensures AreWords(v) ==> AreWords(r)
  {
    if t == 0 then v else Round(Rounds(v, block, t - 1), K[t - 1], Schedule(block, t - 1))
  }

  function AddWords(u: Vars, v: Vars): (r: Vars)
    ensures AreWords(r)
  {
    Vars((u.a + v.a) % WORD, (u.b + v.b) % WORD, (u.c + v.c) % WORD, (u.d + v.d) % WORD,
         (u.e + v.e) % WORD, (u.f + v.f) % WORD, (u.g + v.g) % WORD, (u.h + v.h) % WORD)
  }

  function Compress(v: Vars, block: Block): (r: Vars)
    ensures AreWords(r)
  {
    AddWords(v, Rounds(v, block, |K|))
  }

  /** The digest: the eight words of the final hash value, each most significant octet first. */
  function Serialize(v: Vars): (s: seq<byte>)
    ensures |s| == 32
  {
    ToBigEndian(v.a, 4) + ToBigEndian(v.b, 4) + ToBigEndian(v.c, 4) + ToBigEndian(v.d, 4) +
    ToBigEndian(v.e, 4) + ToBigEndian(v.f, 4) + ToBigEndian(v.g, 4) + ToBigEndian(v.h, 4)
  }

  function Sha256(message: seq<byte>): (digest: seq<byte>)
    ensures |digest| == 32
  {
    Serialize(Iterate(Compress, H0, Pad(message)))
  }

  /** SHA-256 computed piecemeal: start, absorb the chunks, finish, serialize. */
  lemma StreamingDigest(chunks: seq<seq<byte>>)
    ensures Serialize(Finish(Compress, AbsorbAll(Compress, Start(H0), chunks))) == Sha256(Flatten(chunks))
  {
    hide Compress, Finish, AbsorbAll, Flatten, Serialize, Iterate, Pad;
    ChunksDoNotMatter(Compress, H0, chunks);
  }
}
