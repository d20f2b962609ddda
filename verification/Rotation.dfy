/** Rotation of 32-bit words, made of two shifts: the random generator's, by a count that varies, and the
    hash function's, by fixed ones. */
module Rotation {
  import opened Bytes

  /** Where bit k of a word rotated right by rot comes from. */
  function From(k: nat, rot: nat): (j: nat)
    requires k < 32 && rot < 32
    ensures j < 32
  {
    if k + rot < 32 then k + rot else k + rot - 32
  }

  /** The right shift by rot or'ed with the 32-bit left shift by its negation modulo 32. */
  function Rotated(x: nat, rot: nat): nat {
    Or(Right(x, rot), x * Pow2((32 - rot) % 32) % U32)
  }

  lemma WordSize()
    ensures Pow2(32) == U32
  {
    Pow2OfBytes(4);
    Pow256Values();
  }

  lemma NoHighBit(x: nat, m: nat)
    requires x < U32 && m >= 32
    ensures !Bit(x, m)
  {
    WordSize();
    LowBits(x, 32, m);
    assert x % U32 == x;
  }

  lemma WordBits(y: nat, k: nat)
    requires k < 32
    ensures Bit(y % U32, k) <==> Bit(y, k)
  {
    WordSize();
    LowBits(y, 32, k);
  }

  lemma LeftPart(x: nat, left: nat, k: nat)
    requires k < 32
    ensures Bit(x * Pow2(left) % U32, k) <==> k >= left && Bit(x, k - left)
  {
    LeftBit(x, left, k);
    WordBits(x * Pow2(left), k);
  }

  /** Shifting left by `left` brings in what shifting right by rot has moved out. */
  lemma Around(x: nat, rot: nat, left: nat, k: nat)
    requires x < U32 && rot < 32 && k < 32 && left == if rot == 0 then 0 else 32 - rot
    ensures Bit(x, rot + k) || (k >= left && Bit(x, k - left)) <==> Bit(x, From(k, rot))
  {
    if rot + k >= 32 {
      NoHighBit(x, rot + k);
    }
  }

  lemma RotatedBit(x: nat, rot: nat, k: nat)
    requires x < U32 && rot < 32 && k < 32
    ensures Bit(Rotated(x, rot), k) <==> Bit(x, From(k, rot))
  {
    var left := (32 - rot) % 32;
    OrBit(Right(x, rot), x * Pow2(left) % U32, k);
    RightBit(x, rot, k);
    LeftPart(x, left, k);
    Around(x, rot, left, k);
  }

  lemma RotatedFits(x: nat, rot: nat)
    requires x < U32
    ensures Rotated(x, rot) < U32
  {
    WordSize();
    OrFits(Right(x, rot), x * Pow2((32 - rot) % 32) % U32, 32);
  }
}
