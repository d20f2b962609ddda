/** The constants and functions of SHA-256 against the way FIPS 180-4 describes them. */
module Sha256Standard {
  import opened Arithmetic
  import opened Bytes
  import opened Rotation
  import opened Sha256Spec

  const P0: seq<nat> := [2, 3, 5, 7, 11, 13, 17, 19]
  const P1: seq<nat> := [23, 29, 31, 37, 41, 43, 47, 53]
  const P2: seq<nat> := [59, 61, 67, 71, 73, 79, 83, 89]
  const P3: seq<nat> := [97, 101, 103, 107, 109, 113, 127, 131]
  const P4: seq<nat> := [137, 139, 149, 151, 157, 163, 167, 173]
  const P5: seq<nat> := [179, 181, 191, 193, 197, 199, 211, 223]
  const P6: seq<nat> := [227, 229, 233, 239, 241, 251, 257, 263]
  const P7: seq<nat> := [269, 271, 277, 281, 283, 293, 307, 311]

  /** The first 64 primes. */
  const PRIMES := (P0 + P1 + P2 + P3) + (P4 + P5 + P6 + P7)

  /** The whole part of the cube root of p < 343. */
  function Whole(p: nat): nat {
    if p < 8 then 1 else if p < 27 then 2 else if p < 64 then 3 else if p < 125 then 4 else if p < 216 then 5 else 6
  }

  /** k is the first 32 bits of the fractional part of the cube root of p. */
  predicate CubeRoot(k: word, p: nat) {
    var c := Whole(p) * U32 + k;
    c * c * c <= p * U32 * U32 * U32 < (c + 1) * (c + 1) * (c + 1)
  }

  lemma Indexed<T>(a: seq<T>, b: seq<T>, c: seq<T>, d: seq<T>, i: nat)
    requires |a| == |b| == |c| == |d| && i < 4 * |a|
    ensures (a + b + c + d)[i] == if i < |a| then a[i] else if i < 2 * |a| then b[i - |a|]
                                  else if i < 3 * |a| then c[i - 2 * |a|] else d[i - 3 * |a|]
  {
  }

  lemma Roots0(j: nat)
    requires j < 8
    ensures CubeRoot(K0[j], P0[j]) && CubeRoot(K1[j], P1[j])
  {
  }

  lemma Roots2(j: nat)
    requires j < 8
    ensures CubeRoot(K2[j], P2[j]) && CubeRoot(K3[j], P3[j])
  {
  }

  lemma Roots4(j: nat)
    requires j < 8
    ensures CubeRoot(K4[j], P4[j]) && CubeRoot(K5[j], P5[j])
  {
  }

  lemma Roots6(j: nat)
    requires j < 8
    ensures CubeRoot(K6[j], P6[j]) && CubeRoot(K7[j], P7[j])
  {
  }

  lemma FirstConstants(i: nat)
    requires i < 32
    ensures CubeRoot((K0 + K1 + K2 + K3)[i], (P0 + P1 + P2 + P3)[i])
  {
    Indexed(K0, K1, K2, K3, i);
    Indexed(P0, P1, P2, P3, i);
    if i < 16 {
      Roots0(if i < 8 then i else i - 8);
    } else {
      Roots2(if i < 24 then i - 16 else i - 24);
    }
  }

  lemma LastConstants(i: nat)
    requires i < 32
    ensures CubeRoot((K4 + K5 + K6 + K7)[i], (P4 + P5 + P6 + P7)[i])
  {
    Indexed(K4, K5, K6, K7, i);
    Indexed(P4, P5, P6, P7, i);
    if i < 16 {
      Roots4(if i < 8 then i else i - 8);
    } else {
      Roots6(if i < 24 then i - 16 else i - 24);
    }
  }

  /** Section 4.2.2: the round constants are the cube roots of the first 64 primes. */
  lemma RoundConstants(i: nat)
    requires i < 64
    ensures |K| == |PRIMES| == 64 && CubeRoot(K[i], PRIMES[i])
  {
    if i < 32 {
      FirstConstants(i);
    } else {
      LastConstants(i - 32);
    }
  }

  /** h is the first 32 bits of the fractional part of the square root of p, whose whole part is n. */
  predicate SquareRoot(n: nat, h: word, p: nat) {
    var c := n * U32 + h;
    n < 5 && c * c <= p * U32 * U32 < (c + 1) * (c + 1)
  }

  /** Section 5.3.3: the initial hash is the square roots of the first eight primes. */
  lemma InitialHash()
    ensures SquareRoot(1, H0.a, 2) && SquareRoot(1, H0.b, 3) && SquareRoot(2, H0.c, 5) && SquareRoot(2, H0.d, 7)
    ensures SquareRoot(3, H0.e, 11) && SquareRoot(3, H0.f, 13) && SquareRoot(4, H0.g, 17) && SquareRoot(4, H0.h, 19)
  {
  }

  // The six functions, bit by bit. Bits are numbered from the least significant.

  lemma XorWordBit(a: word, b: word, i: nat)
    ensures Bit(XorWord(a, b), i) <==> Bit(a, i) != Bit(b, i)
  {
    XorBit(a, b, i);
  }

  predicate Odd(a: bool, b: bool, c: bool) {
    (a != b) != c
  }

  lemma Xor3Bit(a: word, b: word, c: word, i: nat)
    ensures Bit(Xor3(a, b, c), i) <==> Odd(Bit(a, i), Bit(b, i), Bit(c, i))
  {
    XorWordBit(a, b, i);
    XorWordBit(XorWord(a, b), c, i);
  }

  lemma RotrBit(x: word, n: nat, i: nat)
    requires n < 32 && i < 32
    ensures Bit(Rotr(x, n), i) <==> Bit(x, (i + n) % 32)
  {
    RotatedBit(x, n, i);
    Wrapped(i, n);
  }

  lemma Wrapped(i: nat, n: nat)
    requires n < 32 && i < 32
    ensures From(i, n) == (i + n) % 32
  {
  }

  /** Ch chooses: y's bit where x's is set, else z's. */
  lemma ChBit(x: word, y: word, z: word, i: nat)
    requires i < 32
    ensures Bit(Ch(x, y, z), i) <==> if Bit(x, i) then Bit(y, i) else Bit(z, i)
  {
    WordSize();
    AndBit(x, y, i);
    ComplementBit(x, 32, i);
    AndBit(U32 - 1 - x, z, i);
    XorWordBit(And(x, y), And(U32 - 1 - x, z), i);
  }

  /** Maj is the bit that two of the three have. */
  lemma MajBit(x: word, y: word, z: word, i: nat)
    ensures Bit(Maj(x, y, z), i) <==> if Bit(x, i) == Bit(y, i) then Bit(x, i) else Bit(z, i)
  {
    AndBit(x, y, i);
    AndBit(x, z, i);
    AndBit(y, z, i);
    Xor3Bit(And(x, y), And(x, z), And(y, z), i);
  }

  lemma BigSigma0Bit(x: word, i: nat)
    requires i < 32
    ensures Bit(BigSigma0(x), i) <==> Odd(Bit(x, (i + 2) % 32), Bit(x, (i + 13) % 32), Bit(x, (i + 22) % 32))
  {
    RotrBit(x, 2, i);
    RotrBit(x, 13, i);
    RotrBit(x, 22, i);
    Xor3Bit(Rotr(x, 2), Rotr(x, 13), Rotr(x, 22), i);
  }

  lemma BigSigma1Bit(x: word, i: nat)
    requires i < 32
    ensures Bit(BigSigma1(x), i) <==> Odd(Bit(x, (i + 6) % 32), Bit(x, (i + 11) % 32), Bit(x, (i + 25) % 32))
  {
    RotrBit(x, 6, i);
    RotrBit(x, 11, i);
    RotrBit(x, 25, i);
    Xor3Bit(Rotr(x, 6), Rotr(x, 11), Rotr(x, 25), i);
  }

  /** The third term is a shift, not a rotation: it has no bits at the top. */
  lemma SmallSigma0Bit(x: word, i: nat)
    requires i < 32
    ensures Bit(SmallSigma0(x), i) <==>
            Odd(Bit(x, (i + 7) % 32), Bit(x, (i + 18) % 32), i + 3 < 32 && Bit(x, i + 3))
  {
    RotrBit(x, 7, i);
    RotrBit(x, 18, i);
    ShiftBit(x, 3, i);
    Xor3Bit(Rotr(x, 7), Rotr(x, 18), Right(x, 3), i);
  }

  lemma SmallSigma1Bit(x: word, i: nat)
    requires i < 32
    ensures Bit(SmallSigma1(x), i) <==>
            Odd(Bit(x, (i + 17) % 32), Bit(x, (i + 19) % 32), i + 10 < 32 && Bit(x, i + 10))
  {
    RotrBit(x, 17, i);
    RotrBit(x, 19, i);
    ShiftBit(x, 10, i);
    Xor3Bit(Rotr(x, 17), Rotr(x, 19), Right(x, 10), i);
  }

  lemma ShiftBit(x: word, n: nat, i: nat)
    ensures Bit(Right(x, n), i) <==> i + n < 32 && Bit(x, i + n)
  {
    RightBit(x, n, i);
    if i + n >= 32 {
      NoHighBit(x, i + n);
    }
  }

  // How they are put together.

  lemma SumOfSums(a: nat, b: nat)
    ensures Sum(a % U32, b) == (a + b) % U32 == Sum(a, b % U32)
  {
    DivMod(a, U32);
    DivMod(b, U32);
    DivModPlus(a % U32 + b, a / U32);
    DivModPlus(a + b % U32, b / U32);
  }

  lemma DivModPlus(x: nat, k: nat)
    ensures (x + U32 * k) % U32 == x % U32
  {
    DivMod(x, U32);
    DivideUp(U32, x + U32 * k, x / U32 + k, x % U32);
  }

  /** The words that were there stay, and each new one is made of those before it. */
  lemma {:induction false} WordOf(u: Suite, block: seq<byte>, n: nat, t: nat)
    requires |block| == 64 && t < n
    ensures var w := Words(u, block, n);
            w[t] == if t < 16 then BigEndianWord(block, 4 * t)
                    else Expand(u, w[t - 2], w[t - 7], w[t - 15], w[t - 16])
  {
    if t < n - 1 {
      WordOf(u, block, n - 1, t);
    }
  }

  lemma FourSums(a: nat, b: nat, c: nat, d: nat)
    ensures Sum(Sum(Sum(a, b), c), d) == (a + b + c + d) % U32
  {
    SumOfSums(a + b, c);
    SumOfSums(a + b + c, d);
  }

  /** Section 6.2.2 step 1, whatever the functions. */
  lemma ScheduleWord(u: Suite, block: seq<byte>, n: nat, t: nat)
    requires |block| == 64 && t < n
    ensures var w := Words(u, block, n);
            w[t] == if t < 16 then BigEndianValue(block[4 * t..4 * t + 4])
                    else (u.smallSigma1(w[t - 2]) + w[t - 7] + u.smallSigma0(w[t - 15]) + w[t - 16]) % U32
  {
    WordOf(u, block, n, t);
    if t >= 16 {
      var w := Words(u, block, n);
      FourSums(u.smallSigma1(w[t - 2]), w[t - 7], u.smallSigma0(w[t - 15]), w[t - 16]);
    } else {
      FourBigEndian(block[4 * t..4 * t + 4]);
    }
  }

  lemma Temp1Sums(u: Suite, e: word, f: word, g: word, h: word, k: word, w: word)
    ensures Temp1(u, e, f, g, h, k, w) == (h + u.bigSigma1(e) + u.ch(e, f, g) + k + w) % U32
  {
    FourSums(h, u.bigSigma1(e), u.ch(e, f, g), k);
    SumOfSums(h + u.bigSigma1(e) + u.ch(e, f, g) + k, w);
  }

  /** Section 6.2.2 step 3: one round turns the eight words. */
  lemma RoundSums(u: Suite, v: Hash, k: word, w: word)
    ensures var t1 := v.h + u.bigSigma1(v.e) + u.ch(v.e, v.f, v.g) + k + w;
            var t2 := u.bigSigma0(v.a) + u.maj(v.a, v.b, v.c);
            Round(u, v, k, w) == Hash((t1 + t2) % U32, v.a, v.b, v.c, (v.d + t1) % U32, v.e, v.f, v.g)
  {
    var t1 := v.h + u.bigSigma1(v.e) + u.ch(v.e, v.f, v.g) + k + w;
    var t2 := u.bigSigma0(v.a) + u.maj(v.a, v.b, v.c);
    Temp1Sums(u, v.e, v.f, v.g, v.h, k, w);
    SumOfSums(v.d, t1);
    SumOfSums(t1, t2 % U32);
    SumOfSums(t1, t2);
  }

  lemma OneMore(u: Suite, v: Hash, w: seq<word>, t: nat)
    requires t < |u.k| && t < |w|
    ensures Rounds(u, v, w, 0) == v
    ensures Rounds(u, v, w, t + 1) == Round(u, Rounds(u, v, w, t), u.k[t], w[t])
  {
  }

  /** The functions and constants that are used are the ones above. */
  lemma TheSuite(x: word, y: word, z: word)
    ensures SHA256.k == K && SHA256.ch(x, y, z) == Ch(x, y, z) && SHA256.maj(x, y, z) == Maj(x, y, z)
    ensures SHA256.bigSigma0(x) == BigSigma0(x) && SHA256.bigSigma1(x) == BigSigma1(x)
    ensures SHA256.smallSigma0(x) == SmallSigma0(x) && SHA256.smallSigma1(x) == SmallSigma1(x)
  {
  }

  ghost predicate Added(c: Hash, v: Hash, r: Hash) {
    && c.a == (v.a + r.a) % U32 && c.b == (v.b + r.b) % U32 && c.c == (v.c + r.c) % U32 && c.d == (v.d + r.d) % U32
    && c.e == (v.e + r.e) % U32 && c.f == (v.f + r.f) % U32 && c.g == (v.g + r.g) % U32 && c.h == (v.h + r.h) % U32
  }

  lemma SumHashFields(v: Hash, r: Hash)
    ensures Added(SumHash(v, r), v, r)
  {
  }

  /** Step 4: the hash so far is added word by word to what the rounds made of it. */
  lemma CompressSums(u: Suite, v: Hash, block: seq<byte>)
    requires |block| == 64
    ensures Added(Compress(u, v, block), v, Rounds(u, v, Words(u, block, |u.k|), |u.k|))
  {
    SumHashFields(v, Rounds(u, v, Words(u, block, |u.k|), |u.k|));
  }

  /** Bytes, most significant first. */
  function BigEndianValue(s: seq<byte>): nat {
    if s == [] then 0 else 256 * BigEndianValue(s[..|s| - 1]) + s[|s| - 1]
  }

  lemma FourBigEndian(s: seq<byte>)
    requires |s| == 4
    ensures BigEndianValue(s) == BigEndianWord(s, 0)
  {
    assert s[..1][..0] == [] && s[..2][..1] == s[..1] && s[..3][..2] == s[..2] && s[..4][..3] == s[..3];
    assert BigEndianValue(s[..1]) == s[0] as int;
    assert BigEndianValue(s[..2]) == 0x100 * s[0] as int + s[1] as int;
    assert s == s[..4];
  }

  lemma WordValue(w: word)
    ensures BigEndianValue(WordBytes(w)) == w
  {
    FourBigEndian(WordBytes(w));
    ByteAbove(w, 1, 0x100);
    ByteAbove(w, 0x100, 0x1_0000);
    ByteAbove(w, 0x1_0000, 0x100_0000);
  }

  lemma EightBigEndian(s: seq<byte>)
    requires |s| == 8
    ensures BigEndianValue(s) == U32 * BigEndianValue(s[..4]) + BigEndianValue(s[4..])
  {
    FourBigEndian(s[4..]);
    assert s[..5][..4] == s[..4] && s[..6][..5] == s[..5] && s[..7][..6] == s[..6] && s[..8][..7] == s[..7];
    assert BigEndianValue(s[..5]) == 0x100 * BigEndianValue(s[..4]) + s[4] as int;
    assert BigEndianValue(s[..6]) == 0x1_0000 * BigEndianValue(s[..4]) + 0x100 * s[4] as int + s[5] as int;
    assert s == s[..8];
  }

  lemma HighByte(n: nat, p: nat)
    requires p == 1 || p == 0x100 || p == 0x1_0000 || p == 0x100_0000
    ensures n / (U32 * p) == n / U32 / p
  {
  }

  lemma LowPart(n: nat, p: nat, m: nat)
    requires p > 0 && p * (256 * m) == U32
    ensures LowByte(n / p) == LowByte(n % U32 / p)
  {
    var q, r := n / U32, n % U32;
    DivMod(n, U32);
    assert U32 * q == p * (256 * (m * q));
    DivPlus(r, 256 * (m * q), p);
    DivMod(r / p, 256);
    DivideUp(256, n / p, r / p / 256 + m * q, r / p % 256);
  }

  lemma JoinedWords(s: seq<byte>, high: word, low: word)
    requires s == WordBytes(high) + WordBytes(low)
    ensures BigEndianValue(s) == U32 * high + low
  {
    assert s[..4] == WordBytes(high) && s[4..] == WordBytes(low);
    EightBigEndian(s);
    WordValue(high);
    WordValue(low);
  }

  lemma TopBytes(n: nat)
    ensures LowByte(n / 0x100_0000_0000_0000) == LowByte(n / U32 / 0x100_0000)
    ensures LowByte(n / 0x1_0000_0000_0000) == LowByte(n / U32 / 0x1_0000)
    ensures LowByte(n / 0x100_0000_0000) == LowByte(n / U32 / 0x100)
  {
    HighByte(n, 0x100);
    HighByte(n, 0x1_0000);
    HighByte(n, 0x100_0000);
  }

  lemma LastBytes(n: nat)
    ensures LowByte(n / 0x100_0000) == LowByte(n % U32 / 0x100_0000)
    ensures LowByte(n / 0x1_0000) == LowByte(n % U32 / 0x1_0000)
    ensures LowByte(n / 0x100) == LowByte(n % U32 / 0x100) && LowByte(n) == LowByte(n % U32)
  {
    LowPart(n, 0x100, 0x1_0000);
    LowPart(n, 0x1_0000, 0x100);
    LowPart(n, 0x100_0000, 1);
  }

  lemma LengthValue(n: nat)
    requires n < U64
    ensures BigEndianValue(BigEndian64(n)) == n
  {
    TopBytes(n);
    LastBytes(n);
    JoinedWords(BigEndian64(n), n / U32, n % U32);
  }

  lemma Shape(m: seq<byte>, zeros: nat, back: seq<byte>)
    requires |back| == 8
    ensures var p := m + ([0x80] + Zeros(zeros) + back);
            && p[..|m|] == m && p[|m|] == 0x80 && (forall i :: |m| < i < |p| - 8 ==> p[i] == 0)
            && p[|p| - 8..] == back
  {
  }

  /** Section 5.1.1: the message, 0x80, zeros, and in the last eight bytes the length in bits. */
  lemma PaddedMessage(m: seq<byte>)
    requires 8 * |m| < U64
    ensures |Pad(m)| >= |m| + 9
    ensures var p := Pad(m);
            && p[..|m|] == m && p[|m|] == 0x80 && (forall i :: |m| < i < |p| - 8 ==> p[i] == 0)
            && BigEndianValue(p[|p| - 8..]) == 8 * |m|
  {
    LengthValue(8 * |m|);
    Shape(m, ZeroCount(|m|), BigEndian64(8 * |m|));
  }

  /** As few zeros as fill the last block. */
  lemma PaddedLength(m: seq<byte>)
    ensures |Pad(m)| % 64 == 0 && |m| + 9 <= |Pad(m)| < |m| + 73
  {
    DivideUp(64, 64 * PadBlocks(|m|), PadBlocks(|m|), 0);
  }

  /** The digest is the words of the hash, each most significant byte first. */
  lemma HashValues(v: Hash)
    ensures var d := HashBytes(v);
            && |d| == 32
            && BigEndianValue(d[..4]) == v.a && BigEndianValue(d[4..8]) == v.b && BigEndianValue(d[8..12]) == v.c
            && BigEndianValue(d[12..16]) == v.d && BigEndianValue(d[16..20]) == v.e
            && BigEndianValue(d[20..24]) == v.f && BigEndianValue(d[24..28]) == v.g && BigEndianValue(d[28..]) == v.h
  {
    WordValue(v.a);
    WordValue(v.b);
    WordValue(v.c);
    WordValue(v.d);
    WordValue(v.e);
    WordValue(v.f);
    WordValue(v.g);
    WordValue(v.h);
    var d := HashBytes(v);
    assert d[..4] == WordBytes(v.a) && d[4..8] == WordBytes(v.b) && d[8..12] == WordBytes(v.c);
    assert d[12..16] == WordBytes(v.d) && d[16..20] == WordBytes(v.e) && d[20..24] == WordBytes(v.f);
    assert d[24..28] == WordBytes(v.g) && d[28..] == WordBytes(v.h);
  }
  /** The digest is the initial hash compressed with the blocks of the padded message, in order. */
  lemma DigestOfBlocks(u: Suite, m: seq<byte>, front: seq<block>, last: block)
    requires Pad(m) == Joined(front + [last])
    ensures Digest(u, m) == HashBytes(Compress(u, Absorb(u, H0, front), last)) && Absorb(u, H0, []) == H0
  {
    CutOfJoined(front + [last]);
    assert (front + [last])[..|front|] == front;
  }
}
