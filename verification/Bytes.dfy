/** Bytes and the little-endian integers that every module stores in them, and the bit operations of
    unsigned words of any width. */
module Bytes {
  import opened Arithmetic

  type byte = x: int | 0 <= x < 256

  datatype Option<+T> = None | Some(value: T)

  const U16: nat := 0x1_0000
  const U32: nat := 0x1_0000_0000
  const U64: nat := 0x1_0000_0000_0000_0000

  function Pow256(n: nat): (p: nat)
    ensures p > 0
  {
    if n == 0 then 1 else 256 * Pow256(n - 1)
  }

  lemma Pow256Values()
    ensures Pow256(1) == 256 && Pow256(2) == U16 && Pow256(4) == U32 && Pow256(8) == U64
  {
    assert Pow256(3) == 0x100_0000;
    assert Pow256(4) == U32;
    assert Pow256(5) == 0x100_0000_0000;
    assert Pow256(6) == 0x1_0000_0000_0000;
    assert Pow256(7) == 0x100_0000_0000_0000;
  }

  /** The n least significant bytes of v, least significant first. */
  function Le(v: nat, n: nat): (s: seq<byte>)
    ensures |s| == n
  {
    if n == 0 then [] else [v % 256] + Le(v / 256, n - 1)
  }

  function FromLe(s: seq<byte>): (v: nat)
    ensures v < Pow256(|s|)
  {
    if s == [] then 0 else s[0] + 256 * FromLe(s[1..])
  }

  lemma {:induction false} FromLeOfLe(v: nat, n: nat)
    requires v < Pow256(n)
    ensures FromLe(Le(v, n)) == v
  {
    if n > 0 {
      FromLeOfLe(v / 256, n - 1);
      assert Le(v, n)[1..] == Le(v / 256, n - 1);
    }
  }

  lemma {:induction false} LeOfFromLe(s: seq<byte>)
    ensures Le(FromLe(s), |s|) == s
  {
    if s != [] {
      LeOfFromLe(s[1..]);
      assert FromLe(s) % 256 == s[0] && FromLe(s) / 256 == FromLe(s[1..]);
    }
  }

  /** 16- and 32-bit stores. */
  function Le16(v: nat): (s: seq<byte>)
    ensures |s| == 2
  {
    [v % 256, v / 256 % 256]
  }

  function Le32(v: nat): (s: seq<byte>)
    ensures |s| == 4
  {
    [v % 256, v / 256 % 256, v / 0x1_0000 % 256, v / 0x100_0000 % 256]
  }

  function Le64(v: nat): (s: seq<byte>)
    ensures |s| == 8
  {
    Le32(v % U32) + Le32(v / U32)
  }

  lemma TwoBytes(s: seq<byte>)
    requires |s| == 2
    ensures FromLe(s) == s[0] as int + 0x100 * s[1] as int
  {
    assert s[1..] == [s[1]] && s[1..][1..] == [];
  }

  lemma FourBytes(s: seq<byte>)
    requires |s| == 4
    ensures FromLe(s) == s[0] as int + 0x100 * s[1] as int + 0x1_0000 * s[2] as int + 0x100_0000 * s[3] as int
  {
    assert s[1..] == [s[1], s[2], s[3]] && s[1..][1..] == [s[2], s[3]];
    assert s[1..][1..][1..] == [s[3]] && s[1..][1..][1..][1..] == [];
  }

  lemma FromLe32(v: nat)
    requires v < U32
    ensures FromLe(Le32(v)) == v
  {
    FourBytes(Le32(v));
    ByteAbove(v, 1, 0x100);
    ByteAbove(v, 0x100, 0x1_0000);
    ByteAbove(v, 0x1_0000, 0x100_0000);
  }

  lemma ByteAbove(v: nat, p: nat, q: nat)
    requires (p == 1 && q == 0x100) || (p == 0x100 && q == 0x1_0000) || (p == 0x1_0000 && q == 0x100_0000)
    ensures v / p == v / q * 256 + v / p % 256
  {
  }

  /** A 32-bit load. */
  function WordAt(s: seq<byte>, at: nat): (w: nat)
    requires at + 4 <= |s|
    ensures w < U32
  {
    s[at] as int + 0x100 * s[at + 1] as int + 0x1_0000 * s[at + 2] as int + 0x100_0000 * s[at + 3] as int
  }

  /** A load reads back what a store left there. */
  lemma WordBack(s: seq<byte>, at: nat, v: nat)
    requires at + 4 <= |s| && v < U32 && s[at..at + 4] == Le32(v)
    ensures WordAt(s, at) == v
  {
    FromLe32(v);
    FourBytes(Le32(v));
    assert s[at] == Le32(v)[0] && s[at + 1] == Le32(v)[1] && s[at + 2] == Le32(v)[2] && s[at + 3] == Le32(v)[3];
  }

  /** And the other way round. */
  lemma BytesBack(s: seq<byte>, k: nat)
    requires k + 4 <= |s|
    ensures Le32(WordAt(s, k)) == s[k..k + 4]
  {
    var a, b, c, d := s[k] as int, s[k + 1] as int, s[k + 2] as int, s[k + 3] as int;
    var v := WordAt(s, k);
    assert v % 256 == a && v / 256 == b + 0x100 * c + 0x1_0000 * d;
    assert v / 256 % 256 == b && v / 0x1_0000 == c + 0x100 * d && v / 0x100_0000 == d;
  }

  method PutBytes(dst: array<byte>, at: nat, src: seq<byte>)
    requires at + |src| <= dst.Length
    modifies dst
    ensures dst[..] == old(dst[..at]) + src + old(dst[at + |src|..])
  {
    for i := 0 to |src|
      invariant dst[..at] == old(dst[..at]) && dst[at..at + i] == src[..i]
      invariant dst[at + i..] == old(dst[at + i..])
    {
      dst[at + i] := src[i];
    }
    assert dst[..] == dst[..at] + dst[at..at + |src|] + dst[at + |src|..];
  }

  function Zeros(n: nat): (s: seq<byte>)
    ensures |s| == n
  {
    seq(n, _ => 0)
  }

  lemma Assoc(a: seq<byte>, b: seq<byte>, c: seq<byte>)
    ensures (a + b) + c == a + (b + c)
  {
  }

  lemma TakeNext<T>(s: seq<T>, i: nat)
    requires i < |s|
    ensures s[..i + 1] == s[..i] + [s[i]]
  {
  }

  /** Bitwise exclusive or of unsigned integers of any width. */
  function Xor(a: nat, b: nat): nat
    decreases a + b
  {
    if a == 0 && b == 0 then 0 else (a % 2 + b % 2) % 2 + 2 * Xor(a / 2, b / 2)
  }

  function Pow2(n: nat): (p: nat)
    ensures p > 0
  {
    if n == 0 then 1 else 2 * Pow2(n - 1)
  }

  lemma {:induction false} Pow2OfBytes(n: nat)
    ensures Pow2(8 * n) == Pow256(n)
  {
    if n > 0 {
      Pow2OfBytes(n - 1);
      var k := 8 * n;
      assert Pow2(k) == 2 * Pow2(k - 1) && Pow2(k - 1) == 2 * Pow2(k - 2) && Pow2(k - 2) == 2 * Pow2(k - 3);
      assert Pow2(k - 3) == 2 * Pow2(k - 4) && Pow2(k - 4) == 2 * Pow2(k - 5) && Pow2(k - 5) == 2 * Pow2(k - 6);
      assert Pow2(k - 6) == 2 * Pow2(k - 7) && Pow2(k - 7) == 2 * Pow2(k - 8);
    }
  }

  lemma LowBit(p: nat, q: nat)
    requires p < 2
    ensures (p + 2 * q) / 2 == q && (p + 2 * q) % 2 == p
  {
  }

  lemma {:induction false} XorUndone(a: nat, b: nat)
    ensures Xor(Xor(a, b), b) == a
    decreases a + b
  {
    if a != 0 || b != 0 {
      XorUndone(a / 2, b / 2);
      var p, q := a % 2, b % 2;
      LowBit((p + q) % 2, Xor(a / 2, b / 2));
    }
  }

  lemma {:induction false} XorCommutes(a: nat, b: nat)
    ensures Xor(a, b) == Xor(b, a)
    decreases a + b
  {
    if a != 0 || b != 0 {
      XorCommutes(a / 2, b / 2);
    }
  }

  lemma {:induction false} XorFits(a: nat, b: nat, n: nat)
    requires a < Pow2(n) && b < Pow2(n)
    ensures Xor(a, b) < Pow2(n)
  {
    if n > 0 {
      XorFits(a / 2, b / 2, n - 1);
    }
  }

  lemma {:induction false} XorBit(a: nat, b: nat, k: nat)
    ensures Bit(Xor(a, b), k) <==> Bit(a, k) != Bit(b, k)
    decreases k
  {
    var p, q := a % 2, b % 2;
    LowBit((p + q) % 2, Xor(a / 2, b / 2));
    if k > 0 {
      XorBit(a / 2, b / 2, k - 1);
    }
  }

  /** Bitwise or. */
  function Or(a: nat, b: nat): nat
    decreases a + b
  {
    if a == 0 && b == 0 then 0 else (if a % 2 == 0 then b % 2 else 1) + 2 * Or(a / 2, b / 2)
  }

  lemma {:induction false} OrBit(a: nat, b: nat, k: nat)
    ensures Bit(Or(a, b), k) <==> Bit(a, k) || Bit(b, k)
    decreases k
  {
    LowBit(if a % 2 == 0 then b % 2 else 1, Or(a / 2, b / 2));
    if k > 0 {
      OrBit(a / 2, b / 2, k - 1);
    }
  }

  lemma {:induction false} OrFits(a: nat, b: nat, n: nat)
    requires a < Pow2(n) && b < Pow2(n)
    ensures Or(a, b) < Pow2(n)
  {
    if n > 0 {
      OrFits(a / 2, b / 2, n - 1);
    }
  }

  /** Bitwise and. */
  function And(a: nat, b: nat): (r: nat)
    ensures r <= a
  {
    if a == 0 then 0 else a % 2 * (b % 2) + 2 * And(a / 2, b / 2)
  }

  lemma {:induction false} AndBit(a: nat, b: nat, k: nat)
    ensures Bit(And(a, b), k) <==> Bit(a, k) && Bit(b, k)
    decreases k
  {
    if a == 0 {
      NoBits(k);
    } else {
      LowBit(a % 2 * (b % 2), And(a / 2, b / 2));
      if k > 0 {
        AndBit(a / 2, b / 2, k - 1);
      }
    }
  }

  /** The complement of an n-bit word. */
  lemma {:induction false} ComplementBit(a: nat, n: nat, k: nat)
    requires a < Pow2(n) && k < n
    ensures Bit(Pow2(n) - 1 - a, k) <==> !Bit(a, k)
  {
    LowBit(1 - a % 2, Pow2(n - 1) - 1 - a / 2);
    if k > 0 {
      ComplementBit(a / 2, n - 1, k - 1);
    }
  }

  /** A right shift. */
  function Right(x: nat, n: nat): (y: nat)
    ensures y <= x
  {
    QuotientShrinks(x, Pow2(n));
    x / Pow2(n)
  }

  /** Bits of a right shift, of a left shift and of a truncation. */
  lemma {:induction false} RightBit(x: nat, n: nat, k: nat)
    ensures Bit(Right(x, n), k) <==> Bit(x, n + k)
  {
    if n > 0 {
      HalfFirst(x, Pow2(n - 1));
      RightBit(x / 2, n - 1, k);
    }
  }

  lemma HalfFirst(x: nat, p: nat)
    requires p > 0
    ensures x / (2 * p) == x / 2 / p
    ensures x % (2 * p) == x % 2 + 2 * (x / 2 % p)
  {
    var q, r := x / 2 / p, x / 2 % p;
    assert x / 2 == p * q + r;
    assert x == (2 * p) * q + (2 * r + x % 2);
    DivideUp(2 * p, x, q, 2 * r + x % 2);
  }

  lemma {:induction false} LeftBit(x: nat, n: nat, k: nat)
    ensures Bit(x * Pow2(n), k) <==> k >= n && Bit(x, k - n)
  {
    if n > 0 {
      assert x * Pow2(n) == 2 * (x * Pow2(n - 1));
      LowBit(0, x * Pow2(n - 1));
      if k > 0 {
        LeftBit(x, n - 1, k - 1);
      }
    }
  }

  lemma {:induction false} LowBits(x: nat, n: nat, k: nat)
    ensures Bit(x % Pow2(n), k) <==> k < n && Bit(x, k)
  {
    if n == 0 {
      NoBits(k);
    } else {
      HalfFirst(x, Pow2(n - 1));
      LowBit(x % 2, x / 2 % Pow2(n - 1));
      if k > 0 {
        LowBits(x / 2, n - 1, k - 1);
      }
    }
  }

  lemma XorFits64(a: nat, b: nat)
    requires a < U64 && b < U64
    ensures Xor(a, b) < U64
  {
    Pow2OfBytes(8);
    Pow256Values();
    XorFits(a, b, 8 * 8);
  }

  /** Bit i of a word: tested, set and cleared. */
  predicate Bit(w: nat, i: nat) {
    if i == 0 then w % 2 == 1 else Bit(w / 2, i - 1)
  }

  function SetBit(w: nat, i: nat): nat {
    if i == 0 then w - w % 2 + 1 else 2 * SetBit(w / 2, i - 1) + w % 2
  }

  function ClearBit(w: nat, i: nat): nat {
    if i == 0 then w - w % 2 else 2 * ClearBit(w / 2, i - 1) + w % 2
  }

  lemma {:induction false} BitSet(w: nat, i: nat, k: nat)
    ensures Bit(SetBit(w, i), k) <==> k == i || Bit(w, k)
  {
    if i > 0 {
      LowBit(w % 2, SetBit(w / 2, i - 1));
      if k > 0 {
        BitSet(w / 2, i - 1, k - 1);
      }
    } else {
      LowBit(1, w / 2);
    }
  }

  lemma {:induction false} BitCleared(w: nat, i: nat, k: nat)
    ensures Bit(ClearBit(w, i), k) <==> k != i && Bit(w, k)
  {
    if i > 0 {
      LowBit(w % 2, ClearBit(w / 2, i - 1));
      if k > 0 {
        BitCleared(w / 2, i - 1, k - 1);
      }
    } else {
      LowBit(0, w / 2);
    }
  }

  lemma {:induction false} BitsFit(w: nat, i: nat, n: nat)
    requires w < Pow2(n) && i < n
    ensures SetBit(w, i) < Pow2(n) && ClearBit(w, i) < Pow2(n)
  {
    if i > 0 {
      BitsFit(w / 2, i - 1, n - 1);
    }
  }

  lemma {:induction false} NoBits(i: nat)
    ensures !Bit(0, i)
  {
    if i > 0 {
      NoBits(i - 1);
    }
  }

  /** Words of n bits with the same bits are the same. */
  lemma {:induction false} SameBits(a: nat, b: nat, n: nat)
    requires a < Pow2(n) && b < Pow2(n) && forall i: nat :: i < n ==> (Bit(a, i) <==> Bit(b, i))
    ensures a == b
  {
    if n > 0 {
      assert Bit(a, 0) <==> Bit(b, 0);
      forall i: nat | i < n - 1
        ensures Bit(a / 2, i) <==> Bit(b / 2, i)
      {
        assert Bit(a, i + 1) <==> Bit(b, i + 1);
      }
      SameBits(a / 2, b / 2, n - 1);
    }
  }

  lemma Multiple(r: nat, x: int, k: int)
    requires r < U64 && x == r + k * U64
    ensures x % U64 == r
  {
  }
}
