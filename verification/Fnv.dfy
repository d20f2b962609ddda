/** FNV-1a-64, the layout hash of a save buffer and the digest of a frame: what one step does, and that it
    never merges two states. */
module Fnv {
  import opened Bytes

  const OFFSET: nat := 0xcbf29ce484222325
  const PRIME: nat := 0x100000001b3

  /** The inverse of the prime modulo 2^64. */
  const UNPRIME: nat := 0xce965057aff6957b

  /** The product with the prime in 64 bits. */
  function Scale(h: nat): (r: nat)
    ensures r < U64
  {
    h * PRIME % U64
  }

  function Hash(s: seq<byte>, h: nat): nat {
    if s == [] then h else Scale(Xor(Hash(s[..|s| - 1], h), s[|s| - 1]))
  }

  /** The byte is exclusive-or'ed into the state's low bits first, and the result multiplied by the prime. */
  lemma StepExactly(front: seq<byte>, b: byte, h: nat, x: nat)
    requires h < U64 && x < U64
    requires forall i: nat :: i < 64 ==> (Bit(x, i) <==> Bit(Hash(front, h), i) != Bit(b, i))
    ensures Hash(front + [b], h) == x * 1099511628211 % 0x1_0000_0000_0000_0000
    ensures Hash([], OFFSET) == 14695981039346656037
  {
    HashRange(front, h);
    var y := Xor(Hash(front, h), b);
    XorFits64(Hash(front, h), b);
    Pow2OfBytes(8);
    Pow256Values();
    forall i: nat | i < 8 * 8
      ensures Bit(x, i) <==> Bit(y, i)
    {
      XorBit(Hash(front, h), b, i);
    }
    SameBits(x, y, 8 * 8);
    assert (front + [b])[..|front|] == front;
  }

  method Fnv1a64(p: array<byte>, n: nat) returns (h: nat)
    requires n <= p.Length
    ensures h == Hash(p[..n], OFFSET)
  {
    h := OFFSET;
    for i := 0 to n
      invariant h == Hash(p[..i], OFFSET)
    {
      assert p[..i + 1][..i] == p[..i];
      h := Scale(Xor(h, p[i]));
    }
  }

  lemma MixFits(h: nat, b: byte)
    requires h < U64
    ensures Xor(h, b) < U64
  {
    XorFits64(h, b);
  }

  lemma UnScale(h: nat)
    requires h < U64
    ensures Scale(h) * UNPRIME % U64 == h
  {
    var q := h * PRIME / U64;
    assert h * PRIME == q * U64 + Scale(h);
    assert PRIME * UNPRIME == 1 + 0xce9650590f * U64;
    Multiple(h, Scale(h) * UNPRIME, h * 0xce9650590f - q * UNPRIME);
  }

  /** One step never merges two hash states. */
  lemma StepInjective(g: nat, h: nat, b: byte)
    requires g < U64 && h < U64 && Scale(Xor(g, b)) == Scale(Xor(h, b))
    ensures g == h
  {
    MixFits(g, b);
    MixFits(h, b);
    UnScale(Xor(g, b));
    UnScale(Xor(h, b));
    XorUndone(g, b);
    XorUndone(h, b);
  }

  /** From one state, different bytes lead to different states. */
  lemma ByteMatters(h: nat, b: byte, c: byte)
    requires h < U64 && b != c
    ensures Scale(Xor(h, b)) != Scale(Xor(h, c))
  {
    MixFits(h, b);
    MixFits(h, c);
    UnScale(Xor(h, b));
    UnScale(Xor(h, c));
    XorCommutes(h, b);
    XorCommutes(h, c);
    XorUndone(b, h);
    XorUndone(c, h);
  }

  lemma HashRange(s: seq<byte>, h: nat)
    requires h < U64
    ensures Hash(s, h) < U64
  {
  }

  /** States that differ stay different over any common input. */
  lemma {:induction false} NeverMerge(g: nat, h: nat, s: seq<byte>)
    requires g < U64 && h < U64 && g != h
    ensures Hash(s, g) != Hash(s, h)
  {
    if s != [] {
      var front, last := s[..|s| - 1], s[|s| - 1];
      NeverMerge(g, h, front);
      HashRange(front, g);
      HashRange(front, h);
      if Hash(s, g) == Hash(s, h) {
        StepInjective(Hash(front, g), Hash(front, h), last);
      }
    }
  }

  lemma {:induction false} HashAppend(s: seq<byte>, t: seq<byte>, h: nat)
    ensures Hash(s + t, h) == Hash(t, Hash(s, h))
    decreases |t|
  {
    if t == [] {
      assert s + t == s;
    } else {
      HashAppend(s, t[..|t| - 1], h);
      assert (s + t)[..|s + t| - 1] == s + t[..|t| - 1];
    }
  }

  lemma SplitAt(s: seq<byte>, i: nat, b: byte)
    requires i < |s|
    ensures s == s[..i] + [s[i]] + s[i + 1..] && s[i := b] == s[..i] + [b] + s[i + 1..]
  {
  }

  /** Changing one byte always changes the hash. */
  lemma OneByteDetected(s: seq<byte>, i: nat, b: byte)
    requires i < |s| && s[i] != b
    ensures Hash(s, OFFSET) != Hash(s[i := b], OFFSET)
  {
    var front, back := s[..i], s[i + 1..];
    var h := Hash(front, OFFSET);
    HashRange(front, OFFSET);
    ByteMatters(h, s[i], b);
    NextByte(front, s[i]);
    NextByte(front, b);
    NeverMerge(Hash(front + [s[i]], OFFSET), Hash(front + [b], OFFSET), back);
    HashAppend(front + [s[i]], back, OFFSET);
    HashAppend(front + [b], back, OFFSET);
    SplitAt(s, i, b);
  }

  lemma NextByte(front: seq<byte>, b: byte)
    ensures Hash(front + [b], OFFSET) == Scale(Xor(Hash(front, OFFSET), b))
  {
    assert (front + [b])[..|front|] == front;
  }
}
