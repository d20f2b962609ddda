/** What makes an IEEE 754 bit pattern a NaN. */
module NanBits {
  import opened Bytes

  /** Bits low to high - 1 are the exponent, those below it the fraction. */
  ghost predicate Nan(u: nat, low: nat, high: nat) {
    AllSet(u, low, high) && !NoneSet(u, low)
  }

  ghost predicate AllSet(u: nat, low: nat, high: nat) {
    forall i: nat :: low <= i < high ==> Bit(u, i)
  }

  ghost predicate NoneSet(u: nat, n: nat) {
    forall i: nat :: i < n ==> !Bit(u, i)
  }

  lemma Shifted(u: nat, i: nat)
    ensures Bit(u, i + 1) <==> Bit(u / 2, i)
  {
  }

  lemma {:induction false} OnesBelow(u: nat, n: nat)
    ensures AllSet(u, 0, n) <==> u % Pow2(n) == Pow2(n) - 1
  {
    if n > 0 {
      OnesBelow(u / 2, n - 1);
      HalfFirst(u, Pow2(n - 1));
      if AllSet(u, 0, n) {
        forall i: nat | i < n - 1
          ensures Bit(u / 2, i)
        {
          Shifted(u, i);
        }
        assert Bit(u, 0);
      } else {
        var i: nat :| i < n && !Bit(u, i);
        if i > 0 {
          Shifted(u, i - 1);
        }
      }
    }
  }

  lemma {:induction false} ZerosBelow(u: nat, n: nat)
    ensures NoneSet(u, n) <==> u % Pow2(n) == 0
  {
    if n > 0 {
      ZerosBelow(u / 2, n - 1);
      HalfFirst(u, Pow2(n - 1));
      if NoneSet(u, n) {
        forall i: nat | i < n - 1
          ensures !Bit(u / 2, i)
        {
          Shifted(u, i);
        }
        assert !Bit(u, 0);
      } else {
        var i: nat :| i < n && Bit(u, i);
        if i > 0 {
          Shifted(u, i - 1);
        }
      }
    }
  }

  lemma OnesAbove(u: nat, low: nat, high: nat)
    requires low <= high
    ensures AllSet(u, low, high) <==> AllSet(Right(u, low), 0, high - low)
  {
    forall i: nat
      ensures Bit(Right(u, low), i) <==> Bit(u, low + i)
    {
      RightBit(u, low, i);
    }
    if AllSet(Right(u, low), 0, high - low) {
      forall i: nat | low <= i < high
        ensures Bit(u, i)
      {
        assert Bit(Right(u, low), i - low);
      }
    }
  }

  /** The test by shifts and masks. */
  lemma NanFields(u: nat, low: nat, high: nat)
    requires low <= high
    ensures Nan(u, low, high) <==>
            u / Pow2(low) % Pow2(high - low) == Pow2(high - low) - 1 && u % Pow2(low) != 0
  {
    OnesAbove(u, low, high);
    OnesBelow(Right(u, low), high - low);
    ZerosBelow(u, low);
  }

  lemma Powers()
    ensures Pow2(8) == 0x100 && Pow2(11) == 0x800 && Pow2(23) == 0x80_0000 && Pow2(52) == 0x10_0000_0000_0000
  {
    assert Pow2(8) == 0x100;
    assert Pow2(16) == 0x1_0000;
    assert Pow2(23) == 0x80_0000;
    assert Pow2(30) == 0x4000_0000;
    assert Pow2(38) == 0x40_0000_0000;
    assert Pow2(45) == 0x2000_0000_0000;
  }
}
