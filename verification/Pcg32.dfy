/** The PCG32 generator: its state update is a bijection, so streams never merge, and its output is given
    bit by bit. */
module Pcg32 {
  import opened Bytes
  import opened Rotation

  const MULTIPLIER: nat := 6364136223846793005

  /** The inverse of the multiplier modulo 2^64. */
  const UNMULTIPLIER: nat := 0xc097ef87329e28a5

  function Next(state: nat, inc: nat): (r: nat)
    ensures r < U64
  {
    (state * MULTIPLIER + inc) % U64
  }

  lemma NextIs(state: nat, inc: nat)
    ensures Next(state, inc) == (state * 6364136223846793005 + inc) % 0x1_0000_0000_0000_0000
  {
  }

  function Back(state: nat, inc: nat): (r: nat)
    ensures r < U64
  {
    (state - inc) * UNMULTIPLIER % U64
  }

  function Steps(state: nat, inc: nat, n: nat): nat {
    if n == 0 then state else Next(Steps(state, inc, n - 1), inc)
  }

  // The output permutation.

  const TOP_FIVE: nat := 0x800_0000_0000_0000

  /** Bit k of the output: the low word of the old state's top bits, xor-shifted, is rotated right by
      the number in the state's top five bits. */
  predicate OutputBit(state: nat, k: nat)
    requires state < U64 && k < 32
  {
    var j := From(k, state / TOP_FIVE);
    Bit(state, j + 45) != Bit(state, j + 27)
  }

  /** The state folded onto itself, cut to 32 bits. */
  function Folded(state: nat): (x: nat)
    ensures x < U32
  {
    Xor(state / 0x4_0000, state) / 0x800_0000 % U32
  }

  lemma Shifts()
    ensures Pow2(18) == 0x4_0000 && Pow2(27) == 0x800_0000 && Pow2(32) == U32
  {
    Pow2OfBytes(2);
    Pow2OfBytes(3);
    Pow2OfBytes(4);
    Pow256Values();
    assert Pow256(3) == 0x100_0000;
  }

  lemma FoldedBit(state: nat, k: nat)
    requires k < 32
    ensures Bit(Folded(state), k) <==> Bit(state, k + 45) != Bit(state, k + 27)
  {
    Shifts();
    var x := Xor(state / 0x4_0000, state);
    LowBits(x / 0x800_0000, 32, k);
    RightBit(x, 27, k);
    XorBit(state / 0x4_0000, state, 27 + k);
    RightBit(state, 18, 27 + k);
  }

  /** What `pcg32_next` returns for the state it finds. */
  function Output(state: nat): (r: nat)
    requires state < U64
    ensures r < U32 && forall k: nat :: k < 32 ==> (Bit(r, k) <==> OutputBit(state, k))
  {
    OutputBits(state);
    Rotated(Folded(state), state / TOP_FIVE)
  }

  lemma OutputBits(state: nat)
    requires state < U64
    ensures Rotated(Folded(state), state / TOP_FIVE) < U32
    ensures forall k: nat :: k < 32 ==> (Bit(Rotated(Folded(state), state / TOP_FIVE), k) <==> OutputBit(state, k))
  {
    var rot := state / TOP_FIVE;
    RotatedFits(Folded(state), rot);
    forall k: nat | k < 32
      ensures Bit(Rotated(Folded(state), rot), k) <==> OutputBit(state, k)
    {
      RotatedBit(Folded(state), rot, k);
      FoldedBit(state, From(k, rot));
    }
  }

  /** A 32-bit word is fixed by its bits, so the contract of `Draw` leaves one result. */
  lemma OneOutput(state: nat, r: nat, s: nat)
    requires state < U64 && r < U32 && s < U32
    requires forall k: nat :: k < 32 ==> (Bit(r, k) <==> OutputBit(state, k))
    requires forall k: nat :: k < 32 ==> (Bit(s, k) <==> OutputBit(state, k))
    ensures r == s
  {
    Shifts();
    SameBits(r, s, 32);
  }

  class Pcg {
    var state: nat
    var inc: nat

    ghost predicate Valid()
      reads this
    {
      state < U64 && inc < U64
    }

    /** `pcg32_seed`: the stream constant is made odd and one step is taken either side of the seed. */
    constructor (seed: nat, stream: nat)
      requires seed < U64 && stream < U64
      ensures Valid() && inc == (2 * stream + 1) % U64 && inc % 2 == 1
      ensures state == Next((inc + seed) % U64, inc)
    {
      OddStream(stream);
      var odd := (2 * stream) % U64 + 1;
      inc := odd;
      var s := (0 * MULTIPLIER + odd) % U64;
      s := (s + seed) % U64;
      state := (s * MULTIPLIER + odd) % U64;
    }

    method Draw() returns (r: nat)
      requires Valid()
      modifies this`state
      ensures Valid() && state == Next(old(state), inc) && Back(state, inc) == old(state)
      ensures r < U32 && forall k: nat :: k < 32 ==> (Bit(r, k) <==> OutputBit(old(state), k))
    {
      var was := state;
      state := (was * MULTIPLIER + inc) % U64;
      r := Output(was);
      BackOfNext(was, inc);
    }
  }

  lemma OddStream(stream: nat)
    requires stream < U64
    ensures (2 * stream) % U64 + 1 == (2 * stream + 1) % U64
    ensures (2 * stream + 1) % U64 % 2 == 1
  {
    assert 2 * stream < U64 || (2 * stream) % U64 == 2 * stream - U64;
  }

  lemma BackOfNext(state: nat, inc: nat)
    requires state < U64
    ensures Back(Next(state, inc), inc) == state
  {
    var q := (state * MULTIPLIER + inc) / U64;
    assert state * MULTIPLIER + inc == q * U64 + Next(state, inc);
    assert MULTIPLIER * UNMULTIPLIER == 1 + 0x4271e21c27ccec3e * U64;
    Multiple(state, (Next(state, inc) - inc) * UNMULTIPLIER, state * 0x4271e21c27ccec3e - q * UNMULTIPLIER);
  }

  lemma NextOfBack(state: nat, inc: nat)
    requires state < U64
    ensures Next(Back(state, inc), inc) == state
  {
    var q := (state - inc) * UNMULTIPLIER / U64;
    assert (state - inc) * UNMULTIPLIER == q * U64 + Back(state, inc);
    assert MULTIPLIER * UNMULTIPLIER == 1 + 0x4271e21c27ccec3e * U64;
    Multiple(state, Back(state, inc) * MULTIPLIER + inc, (state - inc) * 0x4271e21c27ccec3e - q * MULTIPLIER);
  }

  /** Two generators on one stream that differ now differ after any number of draws. */
  lemma {:induction false} NeverMerge(a: nat, b: nat, inc: nat, n: nat)
    requires a < U64 && b < U64
    ensures Steps(a, inc, n) < U64 && Steps(b, inc, n) < U64
    ensures Steps(a, inc, n) == Steps(b, inc, n) <==> a == b
  {
    if n > 0 {
      NeverMerge(a, b, inc, n - 1);
      BackOfNext(Steps(a, inc, n - 1), inc);
      BackOfNext(Steps(b, inc, n - 1), inc);
    }
  }

  /** Seeds on one stream give different first states. */
  lemma SeedsDiffer(seed: nat, other: nat, inc: nat)
    requires seed < U64 && other < U64 && inc < U64
    ensures Next((inc + seed) % U64, inc) == Next((inc + other) % U64, inc) <==> seed == other
  {
    BackOfNext((inc + seed) % U64, inc);
    BackOfNext((inc + other) % U64, inc);
  }
}
