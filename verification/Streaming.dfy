/**
 The incremental view of an iterated hash: what the hasher's three fields mean, what one `process`
 call and `finish` do to them, and why the digest does not depend on how the message was cut.
 Nothing here depends on the compression function f, so everything is stated for all of them.
 */
module Streaming {
  import opened Bits
  import opened Bytes
  import opened Padding

  /** The hash value after all the blocks of a padded message (FIPS 180-4 section 6.2.2, outer loop). */
  function Iterate<S>(f: (S, Block) -> S, v: S, data: seq<byte>): S
    requires IsWhole(|data|)
  {
    if data == [] then v
    else
      var n := |data| - BLOCK;
      f(Iterate(f, v, data[..n]), data[n..])
  }

  /** The unconsumed tail of the input, the byte counter, and the hash value so far. */
  datatype State<S> = State(buffer: seq<byte>, length: nat, chain: S)

  ghost predicate IsState<S>(s: State<S>) { |s.buffer| < BLOCK && s.length < WORD64 }

  function Start<S>(v: S): State<S> { State([], 0, v) }

  /** The largest prefix of n octets that is made of whole blocks. */
  function Whole(n: nat): (w: nat)
    ensures w <= n && IsWhole(w) && n - w < BLOCK
  {
    n - n % BLOCK
  }

  /** One `process` call. */
  function Absorb<S>(f: (S, Block) -> S, s: State<S>, chunk: seq<byte>): State<S>
  {
    var all := s.buffer + chunk;
    var n := Whole(|all|);
    State(all[n..], (s.length + |chunk|) % WORD64, Iterate(f, s.chain, all[..n]))
  }

  function AbsorbAll<S>(f: (S, Block) -> S, s: State<S>, chunks: seq<seq<byte>>): State<S>
  {
    if chunks == [] then s else Absorb(f, AbsorbAll(f, s, chunks[..|chunks| - 1]), chunks[|chunks| - 1])
  }

  function Flatten(chunks: seq<seq<byte>>): seq<byte>
  {
    if chunks == [] then [] else Flatten(chunks[..|chunks| - 1]) + chunks[|chunks| - 1]
  }

  /** Putting chunks together is concatenation, in order. */
  lemma {:induction false} FlattenAppend(a: seq<seq<byte>>, b: seq<seq<byte>>)
    ensures Flatten(a + b) == Flatten(a) + Flatten(b)
    ensures |b| == 1 ==> Flatten(b) == b[0]
    decreases |b|
  {
    if b == [] {
      assert a + b == a;
    } else {
      var n := |b| - 1;
      FlattenAppend(a, b[..n]);
      assert (a + b)[..|a| + n] == a + b[..n];
    }
  }

  /** What `finish` compresses: the padding of the whole message, from the last whole block on. */
  function Tail(buffer: seq<byte>, length: nat): (t: seq<byte>)
    ensures IsWhole(|t|)
  {
    PaddedLength(|buffer|);
    buffer + [0x80] + Zeros(ZeroCount(|buffer|)) + ToBigEndian(8 * length, 8)
  }

  function Finish<S>(f: (S, Block) -> S, s: State<S>): S
  {
    Iterate(f, s.chain, Tail(s.buffer, s.length))
  }

  lemma WholeIs(n: nat, w: nat)
    requires w <= n && IsWhole(w) && n - w < BLOCK
    ensures Whole(n) == w
  {
  }

  lemma SumOfBlocks(m: nat, n: nat)
    requires IsWhole(m) && IsWhole(n)
    ensures IsWhole(m + n)
  {
  }

  lemma IterateNothing<S>(f: (S, Block) -> S, v: S)
    ensures Iterate(f, v, []) == v
  {
  }

  lemma IterateStep<S>(f: (S, Block) -> S, v: S, data: seq<byte>, block: Block)
    requires IsWhole(|data|)
    ensures IsWhole(|data + block|)
    ensures Iterate(f, v, data + block) == f(Iterate(f, v, data), block)
  {
    assert (data + block)[..|data|] == data && (data + block)[|data|..] == block;
  }

  lemma LastBlock(n: nat)
    requires IsWhole(n) && n > 0
    ensures n >= BLOCK && IsWhole(n - BLOCK)
  {
  }

  lemma {:induction false} IterateAppend<S>(f: (S, Block) -> S, v: S, a: seq<byte>, b: seq<byte>)
    requires IsWhole(|a|) && IsWhole(|b|)
    ensures IsWhole(|a| + |b|)
    ensures Iterate(f, v, a + b) == Iterate(f, Iterate(f, v, a), b)
    decreases |b|
  {
    hide Iterate, IsWhole;
    SumOfBlocks(|a|, |b|);
    if b == [] {
      assert a + b == a;
      IterateNothing(f, Iterate(f, v, a));
    } else {
      LastBlock(|b|);
      var front, block: Block := b[..|b| - BLOCK], b[|b| - BLOCK..];
      IterateAppend(f, v, a, front);
      IterateStep(f, v, a + front, block);
      IterateStep(f, Iterate(f, v, a), front, block);
      assert b == front + block;
      assert a + b == a + front + block;
    }
  }

  lemma LengthsAdd(l: nat, a: nat, b: nat)
    ensures ((l + a) % WORD64 + b) % WORD64 == (l + (a + b)) % WORD64
  {
  }

  lemma OneBlock<S>(f: (S, Block) -> S, v: S, b: seq<byte>)
    requires |b| == BLOCK
    ensures Iterate(f, v, b) == f(v, b)
  {
    assert b[..0] == [] && b[0..] == b;
  }

  lemma NextBlock<S>(f: (S, Block) -> S, v: S, data: seq<byte>, i: nat)
    requires IsWhole(i) && i + BLOCK <= |data|
    ensures IsWhole(i + BLOCK)
    ensures Iterate(f, v, data[..i + BLOCK]) == f(Iterate(f, v, data[..i]), data[i..i + BLOCK])
  {
    hide Iterate;
    IterateAppend(f, v, data[..i], data[i..i + BLOCK]);
    OneBlock(f, Iterate(f, v, data[..i]), data[i..i + BLOCK]);
    assert data[..i] + data[i..i + BLOCK] == data[..i + BLOCK];
  }

  /** Up to 55 octets leave room for the length in the same block. */
  lemma ShortTail<S>(f: (S, Block) -> S, v: S, buffer: seq<byte>, length: nat)
    requires |buffer| <= 55
    ensures var b := buffer + [0x80] + Zeros(55 - |buffer|) + ToBigEndian(8 * length, 8);
            |b| == BLOCK && Iterate(f, v, Tail(buffer, length)) == f(v, b)
  {
    hide Iterate, ToBigEndian;
    OneBlock(f, v, Tail(buffer, length));
  }

  /** From 56 octets on, a second block of zeros takes the length. */
  lemma LongTail<S>(f: (S, Block) -> S, v: S, buffer: seq<byte>, length: nat)
    requires 56 <= |buffer| < BLOCK
    ensures var b := buffer + [0x80] + Zeros(63 - |buffer|);
            var c := Zeros(56) + ToBigEndian(8 * length, 8);
            |b| == |c| == BLOCK && Iterate(f, v, Tail(buffer, length)) == f(f(v, b), c)
  {
    hide Iterate, ToBigEndian;
    var b := buffer + [0x80] + Zeros(63 - |buffer|);
    var c := Zeros(56) + ToBigEndian(8 * length, 8);
    assert ZeroCount(|buffer|) == 119 - |buffer|;
    assert Zeros(119 - |buffer|) == Zeros(63 - |buffer|) + Zeros(56);
    assert Tail(buffer, length) == b + c;
    IterateAppend(f, v, b, c);
    OneBlock(f, v, b);
    OneBlock(f, f(v, b), c);
  }

  /** Cutting a chunk in two changes nothing: `process` is an action of byte strings on states. */
  lemma AbsorbAppend<S>(f: (S, Block) -> S, s: State<S>, a: seq<byte>, b: seq<byte>)
    ensures Absorb(f, Absorb(f, s, a), b) == Absorb(f, s, a + b)
  {
    hide Iterate, Whole;
    var all := s.buffer + a;
    var n := Whole(|all|);
    var rest := all[n..] + b;
    var m := Whole(|rest|);
    BuffersAppend(s.buffer, a, b);
    LengthsAdd(s.length, |a|, |b|);
    IterateAppend(f, s.chain, all[..n], rest[..m]);
  }

  lemma BuffersAppend(buffer: seq<byte>, a: seq<byte>, b: seq<byte>)
    ensures var all, both := buffer + a, buffer + (a + b);
            var n := Whole(|all|);
            var rest := all[n..] + b;
            var m := Whole(|rest|);
            && Whole(|both|) == n + m
            && both[..n + m] == all[..n] + rest[..m]
            && both[n + m..] == rest[m..]
  {
    hide Whole;
    var all, both := buffer + a, buffer + (a + b);
    var n := Whole(|all|);
    var rest := all[n..] + b;
    assert both == all + b;
    assert both == all[..n] + rest;
    SumOfBlocks(n, Whole(|rest|));
    WholeIs(|both|, n + Whole(|rest|));
  }

  lemma AbsorbNothing<S>(f: (S, Block) -> S, s: State<S>)
    requires IsState(s)
    ensures Absorb(f, s, []) == s
  {
    assert s.buffer + [] == s.buffer;
    WholeIs(|s.buffer|, 0);
  }

  lemma {:induction false} AbsorbAllIsAbsorb<S>(f: (S, Block) -> S, s: State<S>, chunks: seq<seq<byte>>)
    requires IsState(s)
    ensures AbsorbAll(f, s, chunks) == Absorb(f, s, Flatten(chunks))
  {
    if chunks == [] {
      AbsorbNothing(f, s);
    } else {
      var n := |chunks| - 1;
      AbsorbAllIsAbsorb(f, s, chunks[..n]);
      AbsorbAppend(f, s, Flatten(chunks[..n]), chunks[n]);
    }
  }

  /** After any input: the buffer is its unconsumed tail, the chain its whole blocks, the counter its length. */
  lemma StateAfter<S>(f: (S, Block) -> S, v: S, message: seq<byte>)
    ensures var s := Absorb(f, Start(v), message);
            var n := Whole(|message|);
            && IsState(s)
            && s.buffer == message[n..]
            && s.chain == Iterate(f, v, message[..n])
            && s.length == |message| % WORD64
  {
    hide Iterate, Whole;
    assert [] + message == message;
  }

  lemma TailIsEndOfPad(message: seq<byte>)
    ensures var n := Whole(|message|);
            Pad(message) == message[..n] + Tail(message[n..], |message| % WORD64)
  {
    hide ToBigEndian;
    var n := Whole(|message|);
    var q := |message| / WORD64;
    assert |message| == |message| % WORD64 + q * WORD64;
    assert Pow256(8) == WORD64;
    ToBigEndianModulo(8 * (|message| % WORD64), 8 * q, 8);
    assert ZeroCount(|message|) == ZeroCount(|message[n..]|);
    assert message == message[..n] + message[n..];
  }

  /** `finish` turns the state reached by a message into the final hash value of that message. */
  lemma FinishAfter<S>(f: (S, Block) -> S, v: S, message: seq<byte>)
    ensures Finish(f, Absorb(f, Start(v), message)) == Iterate(f, v, Pad(message))
  {
    hide Iterate, Pad, Tail;
    var n := Whole(|message|);
    StateAfter(f, v, message);
    TailIsEndOfPad(message);
    IterateAppend(f, v, message[..n], Tail(message[n..], |message| % WORD64));
  }

  /** Whatever the chunk boundaries, the result is that of the whole padded message. */
  lemma ChunksDoNotMatter<S>(f: (S, Block) -> S, v: S, chunks: seq<seq<byte>>)
    ensures Finish(f, AbsorbAll(f, Start(v), chunks)) == Iterate(f, v, Pad(Flatten(chunks)))
  {
    hide Absorb, Finish, Iterate, Pad;
    AbsorbAllIsAbsorb(f, Start(v), chunks);
    FinishAfter(f, v, Flatten(chunks));
  }
}
