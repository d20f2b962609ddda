/** 64-bit division out of shifts and subtractions. */
module Division {
  import opened Arithmetic
  import opened Bytes

  lemma Pow2Next(s: nat)
    ensures Pow2(s + 1) == 2 * Pow2(s)
  {
  }

  lemma {:induction false} Pow2Grows(m: nat, n: nat)
    requires m <= n
    ensures Pow2(m) <= Pow2(n)
  {
    if m < n {
      Pow2Grows(m, n - 1);
    }
  }

  lemma Pow2Of64()
    ensures Pow2(64) == U64
  {
    Pow2OfBytes(8);
    Pow256Values();
    assert Pow2(8 * 8) == U64;
  }

  /** A bit below every one set so far is added, not merely or-ed. */
  lemma {:induction false} BitIsNew(k: nat, s: nat)
    ensures SetBit(Pow2(s + 1) * k, s) == Pow2(s) * (2 * k + 1)
    ensures Pow2(s + 1) * k == Pow2(s) * (2 * k)
  {
    var p := Pow2(s);
    Pow2Next(s);
    Twice(p, k);
    if s > 0 {
      BitIsNew(k, s - 1);
      Twice(Pow2(s - 1), 2 * k + 1);
    }
  }

  lemma Twice(p: nat, k: nat)
    ensures (2 * p) * k == 2 * (p * k) == p * (2 * k) && p * (2 * k + 1) == p * (2 * k) + p
  {
  }

  /** The normalising loop: the largest doubling of d that is at most n. The second test is the
      overflow check, and the one that stops the loop when the first has wrapped. */
  method Normalize(n: nat, d: nat) returns (e: nat, shift: nat)
    requires 0 < d <= n < U64
    ensures shift < 64 && e == d * Pow2(shift) <= n < 2 * e
  {
    e, shift := d, 0;
    Pow2Of64();
    while e * 2 % U64 <= n && e * 2 % U64 / 2 == e
      invariant shift < 64 && e == d * Pow2(shift) <= n && 0 < d
      decreases n - e
    {
      NoWrap(e);
      assert d * Pow2(shift + 1) == 2 * (d * Pow2(shift)) by {
        Pow2Next(shift);
        assert d * (2 * Pow2(shift)) == 2 * (d * Pow2(shift));
      }
      ShiftBound(d, shift + 1);
      e := e * 2 % U64;
      shift := shift + 1;
    }
    if 2 * e < U64 {
      NoWrap(e);
    }
  }

  /** Doubling and halving restores the value exactly when doubling does not wrap. */
  lemma NoWrap(e: nat)
    requires e < U64
    ensures e * 2 % U64 / 2 == e <==> 2 * e < U64
    ensures 2 * e < U64 ==> e * 2 % U64 == 2 * e
  {
    if 2 * e >= U64 {
      assert e * 2 % U64 == 2 * e - U64;
    }
  }

  lemma ShiftBound(d: nat, s: nat)
    requires 0 < d && d * Pow2(s) < U64
    ensures s < 64
  {
    Pow2Of64();
    AtLeast(d, Pow2(s));
    if s >= 64 {
      Pow2Grows(64, s);
    }
  }

  /** `udivmoddi4`. */
  method UDivMod(n: nat, d: nat) returns (q: nat, r: nat)
    requires n < U64 && d < U64
    ensures d == 0 ==> q == 0 && r == 0
    ensures d > 0 ==> n == d * q + r && r < d && q == n / d && r == n % d
  {
    if d == 0 {
      return 0, 0;
    }
    if d > n {
      DivideUp(d, n, 0, n);
      return 0, n;
    }
    var e, top := Normalize(n, d);
    var shift: int := top;
    q, r := 0, n;
    ghost var k := 0;
    assert d * Pow2(top + 1) == 2 * e by {
      Pow2Next(top);
      assert d * (2 * Pow2(top)) == 2 * (d * Pow2(top));
    }
    while shift >= 0
      invariant -1 <= shift && (shift >= 0 ==> e == d * Pow2(shift))
      invariant q == Pow2(shift + 1) * k && n == d * q + r && r < d * Pow2(shift + 1)
    {
      BitIsNew(k, shift);
      Halve(d, shift);
      Subtracted(d, q, Pow2(shift), k);
      if r >= e {
        r := r - e;
        q := SetBit(q, shift);
        k := 2 * k + 1;
      } else {
        k := 2 * k;
      }
      e := e / 2;
      shift := shift - 1;
    }
    assert Pow2(0) == 1;
    DivideUp(d, n, q, r);
  }

  lemma Subtracted(d: nat, q: nat, p: nat, k: nat)
    ensures q == p * (2 * k) ==> p * (2 * k + 1) == q + p
    ensures d * (q + p) == d * q + d * p
  {
    assert p * (2 * k + 1) == p * (2 * k) + p;
  }

  lemma Halve(d: nat, s: nat)
    ensures d * Pow2(s + 1) == 2 * (d * Pow2(s))
    ensures s > 0 ==> d * Pow2(s) / 2 == d * Pow2(s - 1)
  {
    Pow2Next(s);
    assert d * (2 * Pow2(s)) == 2 * (d * Pow2(s));
    if s > 0 {
      Pow2Next(s - 1);
      assert d * (2 * Pow2(s - 1)) == 2 * (d * Pow2(s - 1));
    }
  }

  /** The 64-step form: one bit of n at a time, most significant first. Unlike the other form it gives
      all ones for a zero divisor. */
  method UDivBitwise(n: nat, d: nat) returns (q: nat)
    requires n < U64 && d < U64
    ensures q == if d == 0 then U64 - 1 else n / d
  {
    q := 0;
    var r, i: int := 0, 63;
    ghost var k, p := 0, 0;
    Pow2Of64();
    DivideUp(U64, n, 0, n);
    while i >= 0
      invariant -1 <= i <= 63 && p == n / Pow2(i + 1)
      invariant q == Pow2(i + 1) * k && p == d * k + r && 0 <= r && (d > 0 ==> r < d)
      invariant d == 0 ==> q + Pow2(i + 1) == U64
    {
      NextBit(n, i);
      BitIsNew(k, i);
      var bit := n / Pow2(i) % 2;
      Doubled(d, k, r, bit);
      ShiftFits(r, p, n);
      r := r * 2 % U64 + bit;
      p := 2 * p + bit;
      if r >= d {
        r := r - d;
        q := SetBit(q, i);
        k := 2 * k + 1;
      } else {
        k := 2 * k;
      }
      i := i - 1;
    }
    assert Pow2(0) == 1;
    if d > 0 {
      DivideUp(d, n, q, r);
    }
  }

  lemma NextBit(n: nat, i: nat)
    ensures n / Pow2(i) == 2 * (n / Pow2(i + 1)) + n / Pow2(i) % 2
    ensures n / Pow2(i + 1) <= n / 2
  {
    Pow2Next(i);
    HalfStep(n, Pow2(i));
  }

  lemma HalfStep(n: nat, p: nat)
    requires p > 0
    ensures n / p == 2 * (n / (2 * p)) + n / p % 2
    ensures n / (2 * p) <= n / 2
  {
    HalfBounds(n, p);
  }

  lemma HalfBounds(n: nat, p: nat)
    requires p > 0
    ensures var q := n / (2 * p); 2 * q <= n / p <= 2 * q + 1 && 2 * q <= n
  {
    DivMod(n, 2 * p);
    Halves(n, p, n / (2 * p), n % (2 * p));
  }

  lemma Halves(n: nat, p: nat, q: nat, r: nat)
    requires p > 0 && n == (2 * p) * q + r && r < 2 * p
    ensures 2 * q <= n / p <= 2 * q + 1 && 2 * q <= n
  {
    Regroup(p, q);
    AtLeast(p, 2 * q);
    if r < p {
      DivideUp(p, n, 2 * q, r);
    } else {
      DivideUp(p, n, 2 * q + 1, r - p);
    }
  }

  lemma Regroup(p: nat, q: nat)
    ensures (2 * p) * q == p * (2 * q) && p * (2 * q + 1) == p * (2 * q) + p
  {
  }

  /** What has been shifted in so far leaves the top bit free. */
  lemma ShiftFits(r: nat, p: nat, n: nat)
    requires r <= p <= n / 2 && n < U64
    ensures r * 2 % U64 == 2 * r
  {
  }

  lemma Doubled(d: nat, k: nat, r: nat, b: nat)
    ensures r <= d * k + r
    ensures 2 * (d * k + r) + b == d * (2 * k) + (2 * r + b)
    ensures d * (2 * k + 1) == d * (2 * k) + d
  {
  }

  /** `__umoddi3` of the second form: `n - q * d` in 64 bits. */
  method UModBitwise(n: nat, d: nat) returns (r: nat)
    requires n < U64 && d < U64
    ensures r == if d == 0 then n else n % d
  {
    var q := UDivBitwise(n, d);
    if d > 0 {
      assert n == d * (n / d) + n % d && q * d == d * q;
    }
    r := (n - q * d) % U64;
  }

  // The signed wrappers.

  const MIN: int := -0x8000_0000_0000_0000
  const MAX: int := 0x7fff_ffff_ffff_ffff

  predicate Long(a: int) {
    MIN <= a <= MAX
  }

  /** Division that rounds toward zero. */
  function Truncated(a: int, b: int): int
    requires b != 0
  {
    var q := Magnitude(a) / Magnitude(b);
    if (a < 0) != (b < 0) then -q else q
  }

  /** The magnitude as the wrappers take it: converted to unsigned, then negated if it was negative. */
  function Absolute(a: int): nat {
    var u := a % U64;
    if a < 0 then (U64 - u) % U64 else u
  }

  /** The conversion back to a signed 64-bit value. */
  function Signed(u: int): (v: int)
    ensures Long(v)
  {
    var w := u % U64;
    if w > MAX then w - U64 else w
  }

  lemma MagnitudeWraps(a: int)
    requires Long(a)
    ensures Absolute(a) == Magnitude(a)
  {
    if a < 0 {
      assert a % U64 == a + U64;
    }
  }

  lemma SignedNegates(u: nat)
    requires u <= MAX + 1
    ensures Signed(-Signed(u)) == -(u as int)
    ensures u <= MAX ==> Signed(u) == u
  {
  }

  /** `__divdi3`: truncated, except that MIN / -1 wraps to MIN and that dividing by zero gives zero. */
  method Div(a: int, b: int) returns (q: int)
    requires Long(a) && Long(b)
    ensures q == if b == 0 then 0 else if a == MIN && b == -1 then MIN else Truncated(a, b)
  {
    var neg := (a < 0) != (b < 0);
    MagnitudeWraps(a);
    MagnitudeWraps(b);
    var ua, ub := Absolute(a), Absolute(b);
    var u, r := UDivMod(ua, ub);
    if b != 0 {
      QuotientShrinks(ua, ub);
    }
    SignedNegates(u);
    q := if neg then Signed(-Signed(u)) else Signed(u);
    if a == MIN && b == -1 {
      DivideUp(ub, ua, ua, 0);
    }
  }

  /** Truncated division, exactly when the quotient is representable. */
  lemma TruncatedFits(a: int, b: int)
    requires Long(a) && Long(b) && b != 0
    ensures Long(Truncated(a, b)) <==> !(a == MIN && b == -1)
  {
    if Magnitude(b) == 1 {
      DivideUp(1, Magnitude(a), Magnitude(a), 0);
    } else {
      QuotientShrinks(Magnitude(a), Magnitude(b));
    }
  }

  /** `__moddi3`: the remainder of truncated division, in every case but a zero divisor, which gives zero. */
  method Mod(a: int, b: int) returns (r: int)
    requires Long(a) && Long(b)
    ensures b == 0 ==> r == 0
    ensures b != 0 ==> r == a - b * Truncated(a, b)
    ensures b != 0 ==> Magnitude(r) < Magnitude(b) && (r < 0 ==> a < 0) && (r > 0 ==> a > 0)
  {
    var neg := a < 0;
    MagnitudeWraps(a);
    MagnitudeWraps(b);
    var ua, ub := Absolute(a), Absolute(b);
    var q, u := UDivMod(ua, ub);
    SignedNegates(u);
    SignProduct(b, q);
    r := if neg then Signed(-Signed(u)) else Signed(u);
  }

  lemma SignProduct(b: int, q: int)
    ensures b * q == (if b < 0 then -(Magnitude(b) * q) else Magnitude(b) * q)
    ensures b * -q == -(b * q)
  {
  }
}
