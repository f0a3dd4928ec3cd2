/**
 `hash256_one_by_one`, the stateful hasher of picosha2, and the two `hash256_impl` drivers.
 `fed` is everything processed since the last `init`; `Valid` says that the three real fields
 are determined by it.
 */
module Hasher {
  import opened Bytes
  import opened Compression
  import opened LengthCounter
  import opened Padding
  import opened Streaming
  import Fips180
  import Bits

  class Hash256OneByOne {
    var buffer: seq<byte>
    const digits: array<nat>
    const h: array<nat>
    ghost var fed: seq<byte>

    /** The arrays have their fixed sizes; true from construction on. */
    ghost predicate Shaped()
    {
      digits != h && digits.Length == 4 && h.Length == 8
    }

    ghost function GetState(): State<Fips180.Vars>
      requires Shaped()
      reads this, digits, h
    {
      State(buffer, Value(digits[..]), FromSeq(h[..]))
    }

    ghost predicate Valid()
      reads this, digits, h
    {
      Shaped() && Normal(digits[..]) && Fips180.AreWords(FromSeq(h[..])) &&
      GetState() == Absorb(Fips180.Compress, Start(Fips180.H0), fed)
    }

    constructor ()
      ensures Valid() && fed == []
      ensures fresh(digits) && fresh(h)
    {
      digits := new nat[4];
      h := new nat[8];
      new;
      Init();
    }

    method Init()
      requires Shaped()
      modifies this, digits, h
      ensures Valid() && fed == []
    {
      hide Iterate, Fips180.Compress, Absorb;
      buffer := [];
      fed := [];
      forall i | 0 <= i < 4 {
        digits[i] := 0;
      }
      forall i | 0 <= i < 8 {
        h[i] := Fips180.ToSeq(Fips180.H0)[i];
      }
      assert digits[..] == [0, 0, 0, 0] && h[..] == Fips180.ToSeq(Fips180.H0);
      AbsorbNothing(Fips180.Compress, Start(Fips180.H0));
    }

    method Process(chunk: seq<byte>)
      requires Valid()
      modifies this, digits, h
      ensures Valid() && fed == old(fed) + chunk
      ensures GetState() == Absorb(Fips180.Compress, old(GetState()), chunk)
    {
      hide Iterate, Fips180.Compress, Fips180.AreWords, Value, FromSeq, Normal, Whole;
      ghost var s := GetState();
      AbsorbAppend(Fips180.Compress, Start(Fips180.H0), fed, chunk);
      LengthsAdd(0, |chunk|, s.length);
      AddToDataLength(digits, |chunk| % Bits.WORD64);
      buffer := buffer + chunk;
      fed := fed + chunk;
      var i := CompressBlocks();
      buffer := buffer[i..];
    }

    /** The loop of `process`: compress every full block of the buffer. */
    method CompressBlocks() returns (i: nat)
      requires Shaped() && Fips180.AreWords(FromSeq(h[..]))
      modifies h
      ensures i == Whole(|buffer|)
      ensures Fips180.AreWords(FromSeq(h[..]))
      ensures FromSeq(h[..]) == Iterate(Fips180.Compress, old(FromSeq(h[..])), buffer[..i])
    {
      hide Iterate, Fips180.Compress, Fips180.AreWords, FromSeq, Whole;
      ghost var v := FromSeq(h[..]);
      IterateNothing(Fips180.Compress, v);
      i := 0;
      assert buffer[..i] == [];
      while i + 64 <= |buffer|
        invariant i <= |buffer| && i % 64 == 0
        invariant Fips180.AreWords(FromSeq(h[..]))
        invariant FromSeq(h[..]) == Iterate(Fips180.Compress, v, buffer[..i])
      {
        NextBlock(Fips180.Compress, v, buffer, i);
        HashBlock(h, buffer[i..i + 64]);
        i := i + 64;
      }
      WholeIs(|buffer|, i);
    }

    /** The end of `finish`, common to its two cases: append the bit length and compress. */
    method CompressLastBlock(temp: array<byte>, ghost front: seq<byte>)
      requires Shaped() && Normal(digits[..]) && Fips180.AreWords(FromSeq(h[..]))
      requires temp.Length == 64 && temp[..56] == front
      requires temp as object != h && temp as object != digits
      modifies h, temp
      ensures Fips180.AreWords(FromSeq(h[..]))
      ensures FromSeq(h[..]) ==
              Fips180.Compress(old(FromSeq(h[..])), front + ToBigEndian(8 * old(Value(digits[..])), 8))
    {
      hide Fips180.Compress, Fips180.AreWords, Value, FromSeq, Normal, ToBigEndian;
      WriteDataBitLength(digits, temp, 56);
      assert h[..] == old(h[..]) && digits[..] == old(digits[..]);
      assert temp[..] == temp[..56] + temp[56..64];
      HashBlock(h, temp[..]);
    }

    /** After `finish` the chaining words are the final hash value of everything fed. */
    method Finish()
      requires Valid()
      modifies h
      ensures Fips180.AreWords(FromSeq(h[..]))
      ensures FromSeq(h[..]) == Streaming.Finish(Fips180.Compress, old(GetState()))
      ensures FromSeq(h[..]) == Iterate(Fips180.Compress, Fips180.H0, Pad(fed))
    {
      hide Iterate, Fips180.Compress, Fips180.AreWords, Pad, Value, FromSeq, Normal;
      hide ToBigEndian, Tail;
      ghost var s := GetState();
      FinishAfter(Fips180.Compress, Fips180.H0, fed);
      assert |buffer| < 64 by { StateAfter(Fips180.Compress, Fips180.H0, fed); }
      var temp := new byte[64](_ => 0);
      var remains := |buffer|;
      forall i | 0 <= i < remains {
        temp[i] := buffer[i];
      }
      temp[remains] := 0x80;
      if remains > 55 {
        forall i | remains + 1 <= i < 64 {
          temp[i] := 0;
        }
        LongTail(Fips180.Compress, s.chain, buffer, s.length);
        assert temp[..] == buffer + [0x80] + Zeros(63 - remains) && h[..] == old(h[..]);
        HashBlock(h, temp[..]);
        ghost var v := h[..];
        assert Fips180.AreWords(FromSeq(v));
        forall i | 0 <= i < 64 - 4 {
          temp[i] := 0;
        }
        assert temp[..56] == Zeros(56) && h[..] == v && digits[..] == old(digits[..]);
        CompressLastBlock(temp, Zeros(56));
      } else {
        forall i | remains + 1 <= i < 64 - 4 {
          temp[i] := 0;
        }
        ShortTail(Fips180.Compress, s.chain, buffer, s.length);
        assert temp[..56] == buffer + [0x80] + Zeros(55 - remains);
        assert h[..] == old(h[..]) && digits[..] == old(digits[..]);
        CompressLastBlock(temp, buffer + [0x80] + Zeros(55 - remains));
      }
    }
  
    /** Writes as much of the digest as fits; anything beyond 32 octets is left alone. */
    method GetHashBytes(out: array<byte>)
      requires Shaped() && out as object != h
      modifies out
      ensures var n := if out.Length < 32 then out.Length else 32;
              && out[..n] == Fips180.Serialize(FromSeq(h[..]))[..n]
              && out[n..] == old(out[n..])
    {
      hide FromSeq, Fips180.Serialize, Bits.ShiftRight;
      ghost var v: seq<nat> := h[..];
      ghost var digest := Fips180.Serialize(FromSeq(v));
      var first := 0;
      for k := 0 to 8
        invariant first == if out.Length < 4 * k then out.Length else 4 * k
        invariant h[..] == v && out[first..] == old(out[first..])
        invariant forall j :: 0 <= j < first ==> out[j] == digest[j]
      {
        var i := 0;
        while i < 4 && first != out.Length
          invariant 0 <= i <= 4
          invariant first == if out.Length < 4 * k + i then out.Length else 4 * k + i
          invariant h[..] == v && out[first..] == old(out[first..])
          invariant forall j :: 0 <= j < first ==> out[j] == digest[j]
        {
          DigestByte(v, k, i);
          out[first] := Bits.ShiftRight(h[k], 24 - 8 * i) % 0x100;
          first := first + 1;
          i := i + 1;
        }
      }
    }
  }

  /** The random-access `hash256_impl`: the whole range in one `process`. */
  method Hash256(src: seq<byte>, out: array<byte>)
    modifies out
    ensures var n := if out.Length < 32 then out.Length else 32;
            out[..n] == Fips180.Sha256(src)[..n] && out[n..] == old(out[n..])
  {
    hide Iterate, Fips180.Compress, Pad, Fips180.Serialize, FromSeq;
    var hasher := new Hash256OneByOne();
    hasher.Process(src);
    assert [] + src == src;
    hasher.Finish();
    hasher.GetHashBytes(out);
  }

  /** The inner loop of the input-iterator driver: up to `buffer.Length` octets from `first` on. */
  method FillBuffer(buffer: array<byte>, src: seq<byte>, first: nat) returns (size: nat, next: nat)
    requires first < |src|
    modifies buffer
    ensures next == if |src| - first < buffer.Length then |src| else first + buffer.Length
    ensures size == next - first && buffer[..size] == src[first..next]
  {
    size, next := buffer.Length, first;
    var i := 0;
    while i != buffer.Length
      invariant 0 <= i <= buffer.Length == size && next == first + i <= |src|
      invariant buffer[..i] == src[first..next]
      decreases buffer.Length - i
    {
      if next == |src| {
        size := i;
        break;
      }
      buffer[i] := src[next];
      i := i + 1;
      next := next + 1;
    }
  }

  /**
   The input-iterator `hash256_impl`, for any buffer size of at least one: same digest. A buffer
   of size 0 is harmless only for an empty input, on any other the outer loop never advances.
   */
  method Hash256Buffered(src: seq<byte>, out: array<byte>, bufferSize: int)
    requires bufferSize > 0 || (bufferSize == 0 && src == [])
    modifies out
    ensures var n := if out.Length < 32 then out.Length else 32;
            out[..n] == Fips180.Sha256(src)[..n] && out[n..] == old(out[n..])
  {
    hide Iterate, Fips180.Compress, Pad, Fips180.Serialize, Fips180.AreWords, FromSeq, Value, Normal, Absorb;
    var buffer := new byte[bufferSize](_ => 0);
    var hasher := new Hash256OneByOne();
    var first := 0;
    while first != |src|
      invariant 0 <= first <= |src|
      invariant hasher.Valid() && fresh(hasher) && fresh(hasher.digits) && fresh(hasher.h)
      invariant hasher.h as object != buffer && hasher.digits as object != buffer
      invariant hasher.fed == src[..first]
      invariant out[..] == old(out[..])
      decreases |src| - first
    {
      label pass:
      var size, next := FillBuffer(buffer, src, first);
      assert hasher.h[..] == old@pass(hasher.h[..]) && hasher.digits[..] == old@pass(hasher.digits[..]);
      hasher.Process(buffer[..size]);
      assert src[..first] + src[first..next] == src[..next];
      first := next;
    }
    assert src[..first] == src;
    hasher.Finish();
    hasher.GetHashBytes(out);
  }

  /**
   `init`, any number of `process` calls, `finish` and `get_hash_bytes`, on a hasher that may have
   been used before: the digest is that of the chunks put together.
   */
  method HashChunks(hasher: Hash256OneByOne, chunks: seq<seq<byte>>, out: array<byte>)
    requires hasher.Shaped() && out as object != hasher.h && out as object != hasher.digits
    modifies hasher, hasher.digits, hasher.h, out
    ensures var n := if out.Length < 32 then out.Length else 32;
            out[..n] == Fips180.Sha256(Flatten(chunks))[..n] && out[n..] == old(out[n..])
  {
    hide Iterate, Fips180.Compress, Pad, Fips180.Serialize, Fips180.AreWords, FromSeq, Value, Normal, Absorb;
    hasher.Init();
    for i := 0 to |chunks|
      invariant hasher.Valid() && hasher.fed == Flatten(chunks[..i])
      invariant out[..] == old(out[..])
    {
      hasher.Process(chunks[i]);
      assert chunks[..i + 1][..i] == chunks[..i];
    }
    assert chunks[..|chunks|] == chunks;
    hasher.Finish();
    hasher.GetHashBytes(out);
  }

  lemma DigestWord(v: Fips180.Vars, k: nat, i: nat)
    requires k < 8 && i < 4
    ensures Fips180.Serialize(v)[4 * k + i] == ToBigEndian(Fips180.ToSeq(v)[k], 4)[i]
  {
    hide ToBigEndian;
  }

  /** `get_hash_bytes` takes octet i of word k with a shift. */
  lemma DigestByte(h: seq<nat>, k: nat, i: nat)
    requires |h| == 8 && k < 8 && i < 4
    ensures Fips180.Serialize(FromSeq(h))[4 * k + i] == Bits.ShiftRight(h[k], 24 - 8 * i) % 0x100
  {
    hide Bits.ShiftRight, Fips180.Serialize, ToBigEndian;
    DigestWord(FromSeq(h), k, i);
    FourBytes(h[k]);
    ByteShift(h[k], i);
  }

  lemma ByteShift(x: nat, i: nat)
    requires i < 4
    ensures Bits.ShiftRight(x, 24 - 8 * i) ==
            if i == 0 then x / 0x100_0000 else if i == 1 then x / 0x1_0000 else if i == 2 then x / 0x100 else x
  {
    SmallPowers();
    hide Bits.ShiftRight, Bits.Pow2;
    if i < 3 {
      Bits.ShiftRightIsQuotient(x, 24 - 8 * i);
    } else {
      NoShift(x);
    }
  }

  lemma NoShift(x: nat)
    ensures Bits.ShiftRight(x, 0) == x
  {
  }
}
