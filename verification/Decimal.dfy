/** Unsigned decimal text, as the sink and the printer write it. */
module Decimal {
  import opened Bytes

  predicate IsDigit(c: byte) {
    48 <= c <= 57
  }

  function Digits(v: nat): (t: seq<byte>)
    ensures |t| > 0 && forall i :: 0 <= i < |t| ==> IsDigit(t[i])
  {
    if v < 10 then [48 + v] else Digits(v / 10) + [48 + v % 10]
  }

  /** A digit buffer as it is printed: filled from the last digit, emptied from the top. */
  function Backwards(s: seq<byte>): (t: seq<byte>)
    ensures |t| == |s|
  {
    if s == [] then [] else [s[|s| - 1]] + Backwards(s[..|s| - 1])
  }

  function Value(t: seq<byte>): int {
    if t == [] then 0 else 10 * Value(t[..|t| - 1]) + t[|t| - 1] as int - 48
  }

  lemma {:induction false} ValueOfDigits(v: nat)
    ensures Value(Digits(v)) == v
  {
    if v < 10 {
      assert [48 + v][..0] == [];
    } else {
      ValueOfDigits(v / 10);
      assert Digits(v)[..|Digits(v)| - 1] == Digits(v / 10);
    }
  }

  lemma DigitsInjective(v: nat, w: nat)
    requires Digits(v) == Digits(w)
    ensures v == w
  {
    ValueOfDigits(v);
    ValueOfDigits(w);
  }
}
