/** SHA-256 as FIPS 180-4 defines it, one message at a time, and the streaming form. */
module Sha256Spec {
  import opened Bytes
  import opened Rotation

  /** 32-bit words: sums are taken modulo 2^32, the rest is bitwise. */
  type word = x: nat | x < U32

  function Sum(a: nat, b: nat): word { (a + b) % U32 }

  function XorWord(a: word, b: word): word {
    WordSize();
    XorFits(a, b, 32);
    Xor(a, b)
  }

  /** Section 3.2: rotation and shift to the right. */
  function Rotr(x: word, n: nat): word {
    RotatedFits(x, n);
    Rotated(x, n)
  }

  function Xor3(a: word, b: word, c: word): word { XorWord(XorWord(a, b), c) }

  /** Section 4.1.2. */
  function Ch(x: word, y: word, z: word): word { XorWord(And(x, y), And(U32 - 1 - x, z)) }
  function Maj(x: word, y: word, z: word): word { Xor3(And(x, y), And(x, z), And(y, z)) }
  function BigSigma0(x: word): word { Xor3(Rotr(x, 2), Rotr(x, 13), Rotr(x, 22)) }
  function BigSigma1(x: word): word { Xor3(Rotr(x, 6), Rotr(x, 11), Rotr(x, 25)) }
  function SmallSigma0(x: word): word { Xor3(Rotr(x, 7), Rotr(x, 18), Right(x, 3)) }
  function SmallSigma1(x: word): word { Xor3(Rotr(x, 17), Rotr(x, 19), Right(x, 10)) }

  /** Section 4.2.2. */
  const K0: seq<word> := [0x428a2f98, 0x71374491, 0xb5c0fbcf, 0xe9b5dba5,
                           0x3956c25b, 0x59f111f1, 0x923f82a4, 0xab1c5ed5]
  const K1: seq<word> := [0xd807aa98, 0x12835b01, 0x243185be, 0x550c7dc3,
                           0x72be5d74, 0x80deb1fe, 0x9bdc06a7, 0xc19bf174]
  const K2: seq<word> := [0xe49b69c1, 0xefbe4786, 0x0fc19dc6, 0x240ca1cc,
                           0x2de92c6f, 0x4a7484aa, 0x5cb0a9dc, 0x76f988da]
  const K3: seq<word> := [0x983e5152, 0xa831c66d, 0xb00327c8, 0xbf597fc7,
                           0xc6e00bf3, 0xd5a79147, 0x06ca6351, 0x14292967]
  const K4: seq<word> := [0x27b70a85, 0x2e1b2138, 0x4d2c6dfc, 0x53380d13,
                           0x650a7354, 0x766a0abb, 0x81c2c92e, 0x92722c85]
  const K5: seq<word> := [0xa2bfe8a1, 0xa81a664b, 0xc24b8b70, 0xc76c51a3,
                           0xd192e819, 0xd6990624, 0xf40e3585, 0x106aa070]
  const K6: seq<word> := [0x19a4c116, 0x1e376c08, 0x2748774c, 0x34b0bcb5,
                           0x391c0cb3, 0x4ed8aa4a, 0x5b9cca4f, 0x682e6ff3]
  const K7: seq<word> := [0x748f82ee, 0x78a5636f, 0x84c87814, 0x8cc70208,
                           0x90befffa, 0xa4506ceb, 0xbef9a3f7, 0xc67178f2]
  const K := (K0 + K1 + K2 + K3) + (K4 + K5 + K6 + K7)

  /** The constants and the six bitwise functions. Everything below takes them as an argument:
      how blocks, rounds and padding fit together does not depend on which they are. */
  datatype Suite = Suite(k: seq<word>, ch: (word, word, word) -> word, maj: (word, word, word) -> word,
                         bigSigma0: word -> word, bigSigma1: word -> word,
                         smallSigma0: word -> word, smallSigma1: word -> word)

  const SHA256 := Suite(K, Ch, Maj, BigSigma0, BigSigma1, SmallSigma0, SmallSigma1)

  datatype Hash = Hash(a: word, b: word, c: word, d: word, e: word, f: word, g: word, h: word)

  /** Section 5.3.3. */
  const H0 := Hash(0x6a09e667, 0xbb67ae85, 0x3c6ef372, 0xa54ff53a,
                   0x510e527f, 0x9b05688c, 0x1f83d9ab, 0x5be0cd19)

  function BigEndianWord(block: seq<byte>, j: nat): word
    requires j + 4 <= |block|
  {
    0x100_0000 * block[j] as int + 0x1_0000 * block[j + 1] as int + 0x100 * block[j + 2] as int + block[j + 3] as int
  }

  /** Section 6.2.2 step 1: the first n words of the message schedule. */
  function Words(u: Suite, block: seq<byte>, n: nat): (w: seq<word>)
    requires |block| == 64
    ensures |w| == n
  {
    if n == 0 then []
    else
      var w := Words(u, block, n - 1);
      w + [if n <= 16 then BigEndianWord(block, 4 * (n - 1)) else Expand(u, w[n - 3], w[n - 8], w[n - 16], w[n - 17])]
  }

  function Expand(u: Suite, w2: word, w7: word, w15: word, w16: word): word {
    Sum(Sum(Sum(u.smallSigma1(w2), w7), u.smallSigma0(w15)), w16)
  }

  function Temp1(u: Suite, e: word, f: word, g: word, h: word, k: word, w: word): word {
    Sum(Sum(Sum(Sum(h, u.bigSigma1(e)), u.ch(e, f, g)), k), w)
  }

  function Temp2(u: Suite, a: word, b: word, c: word): word {
    Sum(u.bigSigma0(a), u.maj(a, b, c))
  }

  /** Section 6.2.2 step 3, for one t. */
  function Round(u: Suite, v: Hash, k: word, w: word): Hash {
    var t1 := Temp1(u, v.e, v.f, v.g, v.h, k, w);
    var t2 := Temp2(u, v.a, v.b, v.c);
    Hash(Sum(t1, t2), v.a, v.b, v.c, Sum(v.d, t1), v.e, v.f, v.g)
  }

  function Rounds(u: Suite, v: Hash, w: seq<word>, t: nat): Hash
    requires t <= |u.k| && t <= |w|
  {
    if t == 0 then v else Round(u, Rounds(u, v, w, t - 1), u.k[t - 1], w[t - 1])
  }

  function SumHash(v: Hash, r: Hash): Hash {
    Hash(Sum(v.a, r.a), Sum(v.b, r.b), Sum(v.c, r.c), Sum(v.d, r.d),
         Sum(v.e, r.e), Sum(v.f, r.f), Sum(v.g, r.g), Sum(v.h, r.h))
  }

  /** Section 6.2.2 step 4. */
  function Compress(u: Suite, v: Hash, block: seq<byte>): Hash
    requires |block| == 64
  {
    SumHash(v, Rounds(u, v, Words(u, block, |u.k|), |u.k|))
  }

  type block = b: seq<byte> | |b| == 64 witness Zeros(64)

  /** Compression folded over the blocks. */
  function Absorb(u: Suite, v: Hash, blocks: seq<block>): Hash {
    if blocks == [] then v
    else Compress(u, Absorb(u, v, blocks[..|blocks| - 1]), blocks[|blocks| - 1])
  }

  /** Section 5.2.1: a padded message cut into blocks. */
  function Cut(s: seq<byte>, n: nat): (blocks: seq<block>)
    requires |s| == 64 * n
    ensures |blocks| == n
  {
    if n == 0 then [] else Cut(s[..64 * (n - 1)], n - 1) + [s[64 * (n - 1)..]]
  }

  function Joined(blocks: seq<block>): (s: seq<byte>)
    ensures |s| == 64 * |blocks|
  {
    if blocks == [] then [] else Joined(blocks[..|blocks| - 1]) + blocks[|blocks| - 1]
  }

  lemma {:induction false} CutOfJoined(blocks: seq<block>)
    ensures Cut(Joined(blocks), |blocks|) == blocks
  {
    if blocks != [] {
      var front, last := blocks[..|blocks| - 1], blocks[|blocks| - 1];
      CutOfJoined(front);
      assert Joined(blocks)[..64 * (|blocks| - 1)] == Joined(front);
      assert Joined(blocks)[64 * (|blocks| - 1)..] == last;
      assert blocks == front + [last];
    }
  }

  function LowByte(n: nat): byte {
    n % 256
  }

  function BigEndian64(n: nat): (s: seq<byte>)
    ensures |s| == 8
  {
    [LowByte(n / 0x100_0000_0000_0000), LowByte(n / 0x1_0000_0000_0000),
     LowByte(n / 0x100_0000_0000), LowByte(n / 0x1_0000_0000),
     LowByte(n / 0x100_0000), LowByte(n / 0x1_0000), LowByte(n / 0x100), LowByte(n)]
  }

  /** Section 5.1.1: the fewest blocks that hold the message, 0x80 and the 64-bit length. */
  function PadBlocks(length: nat): (n: nat)
    ensures 64 * n - 64 < length + 9 <= 64 * n
  {
    (length + 72) / 64
  }

  function ZeroCount(length: nat): (z: nat)
    ensures z < 64
  {
    64 * PadBlocks(length) - 9 - length
  }

  function PadTail(length: nat): (t: seq<byte>)
    ensures |t| == 1 + ZeroCount(length) + 8
  {
    [0x80] + Zeros(ZeroCount(length)) + BigEndian64(8 * length)
  }

  /** The message, 0x80, the zero bytes, and the length in bits. */
  function Pad(m: seq<byte>): (p: seq<byte>)
    ensures |p| == 64 * PadBlocks(|m|)
  {
    m + PadTail(|m|)
  }

  function WordBytes(w: word): (s: seq<byte>)
    ensures |s| == 4
  {
    [LowByte(w / 0x100_0000), LowByte(w / 0x1_0000), LowByte(w / 0x100), LowByte(w)]
  }

  function HashBytes(v: Hash): seq<byte> {
    WordBytes(v.a) + WordBytes(v.b) + WordBytes(v.c) + WordBytes(v.d)
    + WordBytes(v.e) + WordBytes(v.f) + WordBytes(v.g) + WordBytes(v.h)
  }

  function Digest(u: Suite, m: seq<byte>): seq<byte> {
    HashBytes(Absorb(u, H0, Cut(Pad(m), PadBlocks(|m|))))
  }
}
