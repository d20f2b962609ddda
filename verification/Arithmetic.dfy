/** Facts about products, Euclidean division and set sizes that the solver does not find by itself.

    They are stated for natural numbers and used wherever the C code divides, scales or counts. */
module Arithmetic {
  function Min(a: int, b: int): int {
    if a < b then a else b
  }

  function Magnitude(a: int): nat {
    if a < 0 then -a else a
  }

  lemma DivMod(n: nat, m: nat)
    requires m > 0
    ensures n == m * (n / m) + n % m && 0 <= n / m && n % m < m
  {
  }

  /** The quotient is determined by its remainder. */
  lemma DivideUp(d: nat, n: nat, q: nat, r: nat)
    requires d > 0 && n == d * q + r && r < d
    ensures n / d == q && n % d == r
  {
    var q', r' := n / d, n % d;
    assert n == d * q' + r';
    if q' < q {
      Less(d, q', q);
    } else if q < q' {
      Less(d, q, q');
    }
  }

  lemma Less(d: nat, a: nat, b: nat)
    requires a < b
    ensures d * a + d <= d * b
  {
    assert d * b == d * (a + 1) + d * (b - a - 1);
    assert d * (a + 1) == d * a + d;
  }

  lemma AtLeast(b: nat, q: nat)
    requires b > 0
    ensures b * q >= q
    ensures b > 1 ==> b * q >= 2 * q
  {
    assert b * q == q + (b - 1) * q;
    if b > 1 {
      assert (b - 1) * q == q + (b - 2) * q;
    }
  }

  lemma QuotientShrinks(a: nat, b: nat)
    requires b > 0
    ensures 0 <= a / b <= a && (b > 1 && a > 0 ==> a / b < a)
  {
    DivMod(a, b);
    AtLeast(b, a / b);
  }

  lemma DivGrows(x: nat, y: nat, d: nat)
    requires d > 0 && x <= y
    ensures x / d <= y / d
  {
    DivMod(x, d);
    DivMod(y, d);
    if y / d < x / d {
      Less(d, y / d, x / d);
    }
  }

  lemma DivPlus(x: nat, m: nat, d: nat)
    requires d > 0
    ensures (x + d * m) / d == x / d + m
  {
    DivMod(x, d);
    DivideUp(d, x + d * m, x / d + m, x % d);
  }

  lemma {:induction false} SubsetCount<T>(a: set<T>, b: set<T>)
    requires a <= b
    ensures |a| <= |b|
  {
    if a != {} {
      var x :| x in a;
      SubsetCount(a - {x}, b - {x});
    }
  }
}
