/** The streaming form: a 64-byte buffer that is compressed whenever it fills. What was fed in so far is
    the compressed blocks followed by the buffered tail. */
module Sha256Stream {
  import opened Bytes
  import opened Sha256Spec

  const MAX_MESSAGE: nat := 0x2000_0000_0000_0000

  class Sha256 {
    const suite: Suite
    const data: array<byte>
    var datalen: nat
    var bitlen: nat
    var state: Hash
    ghost var blocks: seq<block>  // the blocks already compressed

    ghost predicate Absorbed()
      reads this`state, this`blocks
    {
      state == Digested()
    }

    /** The hash state after all complete blocks. */
    ghost function Digested(): Hash
      reads this`blocks
    {
      Absorb(suite, H0, blocks)
    }

    ghost predicate Valid()
      reads this, data
    {
      && data.Length == 64 == |suite.k| && datalen < 64 && Absorbed()
      && bitlen == 512 * |blocks| && 64 * |blocks| + datalen < MAX_MESSAGE
    }

    /** Everything fed in so far. */
    ghost function Message(): seq<byte>
      requires Valid()
      reads this, data
    {
      Joined(blocks) + data[..datalen]
    }

    constructor ()
      ensures Valid() && Message() == [] && fresh(data) && suite == SHA256
    {
      suite := SHA256;
      data := new byte[64](_ => 0);
      datalen, bitlen, state, blocks := 0, 0, H0, [];
    }

    /** The message schedule of one block. */
    method Schedule(block: seq<byte>) returns (m: array<word>)
      requires |block| == 64 == |suite.k|
      ensures fresh(m) && m[..] == Words(suite, block, |suite.k|)
    {
      m := new word[|suite.k|](_ => 0);
      for i := 0 to 16
        invariant m[..i] == Words(suite, block, i)
      {
        m[i] := BigEndianWord(block, 4 * i);
      }
      for i := 16 to |suite.k|
        invariant m[..i] == Words(suite, block, i)
      {
        assert forall j :: 0 <= j < i ==> m[j] == m[..i][j];
        m[i] := Expand(suite, m[i - 2], m[i - 7], m[i - 15], m[i - 16]);
      }
      assert m[..|suite.k|] == m[..];
    }

    method RunRounds(m: array<word>) returns (r: Hash)
      requires m.Length == |suite.k|
      ensures r == Rounds(suite, state, m[..], |suite.k|)
    {
      var Hash(a, b, c, d, e, f, g, h) := state;
      for i := 0 to |suite.k|
        invariant Hash(a, b, c, d, e, f, g, h) == Rounds(suite, state, m[..], i)
      {
        var t1 := Temp1(suite, e, f, g, h, suite.k[i], m[i]);
        var t2 := Temp2(suite, a, b, c);
        h, g, f, e, d, c, b, a := g, f, e, Sum(d, t1), c, b, a, Sum(t1, t2);
      }
      r := Hash(a, b, c, d, e, f, g, h);
    }

    method Transform()
      requires data.Length == 64 == |suite.k|
      modifies this`state
      ensures state == Compress(suite, old(state), data[..])
    {
      var m := Schedule(data[..]);
      var r := RunRounds(m);
      state := SumHash(state, r);
    }

    /** `sha256_transform` on the full buffer. */
    method CompressBuffer()
      requires data.Length == 64 == |suite.k| && Absorbed()
      modifies this`state, this`blocks
      ensures Absorbed() && |blocks| == |old(blocks)| + 1 && Joined(blocks) == Joined(old(blocks)) + data[..]
    {
      MoreBlocks(suite, blocks, data[..]);
      Transform();
      blocks := blocks + [data[..]];
    }

    /** The loop body of `sha256_update`. */
    method Push(b: byte)
      requires Valid() && 64 * |blocks| + datalen + 1 < MAX_MESSAGE
      modifies this, data
      ensures Valid() && Message() == old(Message()) + [b]
    {
      ghost var front, before := Joined(blocks), data[..datalen];
      Store(b, before);
      Assoc(front, before, [b]);
      if datalen == 64 {
        Flush(before + [b]);
      }
    }

    /** A full buffer is compressed, counted and emptied. */
    method Flush(ghost full: seq<byte>)
      requires data.Length == 64 == |suite.k| && data[..64] == full && Absorbed()
      requires bitlen == 512 * |blocks| && 64 * |blocks| + 64 < MAX_MESSAGE
      modifies this
      ensures Valid() && Message() == Joined(old(blocks)) + full
    {
      AllOfIt(data[..]);
      CompressBuffer();
      Advance();
      NothingLeft(Joined(blocks), data[..]);
    }

    method Advance()
      requires data.Length == 64 == |suite.k| && Absorbed()
      requires bitlen + 512 == 512 * |blocks| && 64 * |blocks| < MAX_MESSAGE
      modifies this`bitlen, this`datalen
      ensures Valid() && datalen == 0
    {
      bitlen := (bitlen + 512) % U64;
      datalen := 0;
    }

    /** Appends one byte to the buffer. */
    method Store(b: byte, ghost before: seq<byte>)
      requires data.Length == 64 && datalen < 64 && data[..datalen] == before
      modifies this`datalen, data
      ensures datalen == old(datalen) + 1 && data[..datalen] == before + [b]
    {
      data[datalen] := b;
      datalen := datalen + 1;
    }

    method Update(bytes: seq<byte>)
      requires Valid() && |Message()| + |bytes| < MAX_MESSAGE
      modifies this, data
      ensures Valid() && Message() == old(Message()) + bytes
    {
      ghost var before := Message();
      for i := 0 to |bytes|
        invariant Valid() && Message() == before + bytes[..i]
      {
        Push(bytes[i]);
        Assoc(before, bytes[..i], [bytes[i]]);
        TakeNext(bytes, i);
      }
      assert bytes[..|bytes|] == bytes;
    }

    /** The byte 0x80 behind the buffered tail, then zeros up to `end`. */
    method Terminate(end: nat, ghost tail: seq<byte>)
      requires data.Length == 64 && datalen < end <= 64 && data[..datalen] == tail
      modifies data
      ensures data[..end] == tail + [0x80] + Zeros(end - datalen - 1)
    {
      var i := datalen;
      data[i] := 0x80;
      i := i + 1;
      while i < end
        invariant datalen < i <= end
        invariant data[..i] == tail + [0x80] + Zeros(i - datalen - 1)
      {
        data[i] := 0x00;
        i := i + 1;
      }
    }

    /** The length word, most significant byte first. */
    method PutLength(ghost front: seq<byte>)
      requires data.Length == 64 && data[..56] == front
      modifies data
      ensures data[..] == front + BigEndian64(bitlen)
    {
      data[63] := LowByte(bitlen);
      data[62] := LowByte(bitlen / 0x100);
      data[61] := LowByte(bitlen / 0x1_0000);
      data[60] := LowByte(bitlen / 0x100_0000);
      data[59] := LowByte(bitlen / 0x1_0000_0000);
      data[58] := LowByte(bitlen / 0x100_0000_0000);
      data[57] := LowByte(bitlen / 0x1_0000_0000_0000);
      data[56] := LowByte(bitlen / 0x100_0000_0000_0000);
    }

    /** Counts the buffered tail: now bitlen is the length of the whole message. */
    method CountRest()
      requires bitlen == 512 * |blocks| && datalen < 64 && 64 * |blocks| + datalen < MAX_MESSAGE
      modifies this`bitlen
      ensures bitlen == 512 * |blocks| + 8 * datalen
    {
      bitlen := (bitlen + datalen * 8) % U64;
    }

    /** Padding that fits the current block. */
    method FinishInOne(ghost tail: seq<byte>)
      requires Valid() && datalen < 56 && data[..datalen] == tail
      modifies this, data
      ensures Absorbed() && Joined(blocks) == Pad(Joined(old(blocks)) + tail)
    {
      ghost var front := Joined(blocks);
      CountRest();
      Terminate(56, tail);
      PutLength(tail + [0x80] + Zeros(55 - |tail|));
      OneBlock(front, |blocks|, tail, bitlen);
      CompressBuffer();
    }

    /** The rest of a block that has no room for the length. */
    method FinishBlock(ghost tail: seq<byte>)
      requires Valid() && datalen >= 56 && data[..datalen] == tail
      modifies this`state, this`blocks, data
      ensures Absorbed() && |blocks| == |old(blocks)| + 1
      ensures Joined(blocks) == Joined(old(blocks)) + (tail + [0x80] + Zeros(63 - |tail|))
    {
      Terminate(64, tail);
      assert data[..64] == data[..];
      CompressBuffer();
    }

    /** Padding that spills into a second block. */
    method FinishInTwo(ghost tail: seq<byte>)
      requires Valid() && datalen >= 56 && data[..datalen] == tail
      modifies this, data
      ensures Absorbed() && Joined(blocks) == Pad(Joined(old(blocks)) + tail)
    {
      ghost var front, n := Joined(blocks), |blocks|;
      FinishBlock(tail);
      LengthBlock();
      TwoBlocks(front, n, tail, bitlen);
      CompressBuffer();
    }

    method LengthBlock()
      requires data.Length == 64 && bitlen + 8 * datalen < U64
      modifies data, this`bitlen
      ensures bitlen == old(bitlen) + 8 * datalen
      ensures data[..] == Zeros(56) + BigEndian64(bitlen)
    {
      ClearFront();
      bitlen := (bitlen + datalen * 8) % U64;
      PutLength(Zeros(56));
    }

    /** Clears the first 56 bytes of the buffer. */
    method ClearFront()
      requires data.Length == 64
      modifies data
      ensures data[..56] == Zeros(56)
    {
      for i := 0 to 56
        invariant data[..i] == Zeros(i)
      {
        data[i] := 0;
      }
    }

    /** Byte i of each of the eight words. */
    method PutColumn(hash: array<byte>, i: nat)
      requires hash.Length == 32 && hash != data && i < 4
      modifies hash
      ensures Column(hash[..], state, i)
      ensures forall k :: 0 <= k < i && Column(old(hash[..]), state, k) ==> Column(hash[..], state, k)
    {
      hash[i] := WordBytes(state.a)[i];
      hash[i + 4] := WordBytes(state.b)[i];
      hash[i + 8] := WordBytes(state.c)[i];
      hash[i + 12] := WordBytes(state.d)[i];
      hash[i + 16] := WordBytes(state.e)[i];
      hash[i + 20] := WordBytes(state.f)[i];
      hash[i + 24] := WordBytes(state.g)[i];
      hash[i + 28] := WordBytes(state.h)[i];
    }

    /** The eight words of the hash, byte i of each in turn, most significant first. */
    method Output(hash: array<byte>)
      requires hash.Length == 32 && hash != data
      modifies hash
      ensures hash[..] == HashBytes(state)
    {
      for i := 0 to 4
        invariant forall k :: 0 <= k < i ==> Column(hash[..], state, k)
      {
        ghost var before := hash[..];
        PutColumn(hash, i);
        forall k | 0 <= k < i + 1
          ensures Column(hash[..], state, k)
        {
          assert k < i ==> Column(before, state, k);
        }
      }
      ColumnsAreHash(hash[..], state);
    }

    /** `sha256_final`: the digest of everything fed in, however it was split. */
    method Final(hash: array<byte>)
      requires Valid() && hash.Length == 32 && hash != data
      modifies this, data, hash
      ensures hash[..] == Digest(suite, old(Message()))
    {
      ghost var m := Message();
      if datalen < 56 {
        FinishInOne(data[..datalen]);
      } else {
        FinishInTwo(data[..datalen]);
      }
      assert |blocks| == PadBlocks(|m|);
      CutOfJoined(blocks);
      Output(hash);
    }
  }

  ghost predicate Column(hash: seq<byte>, v: Hash, i: nat)
    requires |hash| == 32 && i < 4
  {
    && hash[i] == WordBytes(v.a)[i] && hash[i + 4] == WordBytes(v.b)[i]
    && hash[i + 8] == WordBytes(v.c)[i] && hash[i + 12] == WordBytes(v.d)[i]
    && hash[i + 16] == WordBytes(v.e)[i] && hash[i + 20] == WordBytes(v.f)[i]
    && hash[i + 24] == WordBytes(v.g)[i] && hash[i + 28] == WordBytes(v.h)[i]
  }

  lemma ColumnsAreHash(hash: seq<byte>, v: Hash)
    requires |hash| == 32 && forall i :: 0 <= i < 4 ==> Column(hash, v, i)
    ensures hash == HashBytes(v)
  {
    assert Column(hash, v, 0) && Column(hash, v, 1) && Column(hash, v, 2) && Column(hash, v, 3);
    assert hash[..4] == WordBytes(v.a) && hash[4..8] == WordBytes(v.b);
    assert hash[8..12] == WordBytes(v.c) && hash[12..16] == WordBytes(v.d);
    assert hash[16..20] == WordBytes(v.e) && hash[20..24] == WordBytes(v.f);
    assert hash[24..28] == WordBytes(v.g) && hash[28..] == WordBytes(v.h);
    assert hash == hash[..4] + hash[4..8] + hash[8..12] + hash[12..16]
                 + hash[16..20] + hash[20..24] + hash[24..28] + hash[28..];
  }

  lemma MoreBlocks(u: Suite, bs: seq<block>, b: block)
    ensures Absorb(u, H0, bs + [b]) == Compress(u, Absorb(u, H0, bs), b)
    ensures Joined(bs + [b]) == Joined(bs) + b
  {
    assert (bs + [b])[..|bs|] == bs;
  }

  lemma OneBlock(front: seq<byte>, n: nat, tail: seq<byte>, bits: nat)
    requires |front| == 64 * n && |tail| < 56 && bits == 8 * |front + tail|
    ensures front + (tail + [0x80] + Zeros(55 - |tail|) + BigEndian64(bits)) == Pad(front + tail)
  {
    assert ZeroCount(|front + tail|) == 55 - |tail|;
    Regroup(front, tail, Zeros(55 - |tail|), BigEndian64(bits));
  }

  lemma Regroup(front: seq<byte>, tail: seq<byte>, zeros: seq<byte>, length: seq<byte>)
    ensures (front + tail) + ([0x80] + zeros + length) == front + (tail + [0x80] + zeros + length)
  {
  }

  lemma TwoBlocks(front: seq<byte>, n: nat, tail: seq<byte>, bits: nat)
    requires |front| == 64 * n && 56 <= |tail| < 64 && bits == 8 * |front + tail|
    ensures (front + (tail + [0x80] + Zeros(63 - |tail|))) + (Zeros(56) + BigEndian64(bits)) == Pad(front + tail)
  {
    assert ZeroCount(|front + tail|) == 119 - |tail|;
    assert Zeros(119 - |tail|) == Zeros(63 - |tail|) + Zeros(56);
  }

  lemma AllOfIt(s: seq<byte>)
    ensures s[..|s|] == s
  {
  }

  lemma NothingLeft(s: seq<byte>, t: seq<byte>)
    ensures s + t[..0] == s
  {
  }
}
