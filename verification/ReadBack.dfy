/** Printed text in any base: what it is worth, and that `strtol` reads it back, in which base and from which
    text exactly. */
module ReadBack {
  import opened Arithmetic
  import opened Bytes
  import opened Decimal
  import opened Printer
  import opened Vsnprintf

  /** A string of digits of that base. */
  predicate DigitsIn(t: seq<byte>, base: nat) {
    forall i :: 0 <= i < |t| ==> DigitOf(t[i]) < base
  }

  /** Its value, most significant digit first. */
  function ValueIn(t: seq<byte>, base: nat): nat {
    if t == [] then 0 else base * ValueIn(t[..|t| - 1], base) + DigitOf(t[|t| - 1])
  }

  lemma {:induction false} ValueOfBaseDigits(v: nat, base: nat, upper: bool)
    requires 2 <= base <= 16
    ensures DigitsIn(BaseDigits(v, base, upper), base) && ValueIn(BaseDigits(v, base, upper), base) == v
  {
    if v > 0 {
      QuotientShrinks(v, base);
      ValueOfBaseDigits(v / base, base, upper);
      var t := BaseDigits(v, base, upper);
      assert t[..|t| - 1] == BaseDigits(v / base, base, upper);
      DivMod(v, base);
    }
  }

  lemma {:induction false} ZerosWorthNothing(n: int, t: seq<byte>, base: nat)
    requires DigitsIn(t, base) && base > 0
    ensures DigitsIn(Rep(ZERO, n) + t, base) && ValueIn(Rep(ZERO, n) + t, base) == ValueIn(t, base)
    decreases |t|, n
  {
    var all := Rep(ZERO, n) + t;
    if t != [] {
      ZerosWorthNothing(n, t[..|t| - 1], base);
      assert all[..|all| - 1] == Rep(ZERO, n) + t[..|t| - 1];
    } else if n > 0 {
      ZerosWorthNothing(n - 1, t, base);
      assert all[..|all| - 1] == Rep(ZERO, n - 1) + t;
    }
  }

  /** The digits and the zeros of the precision are worth the number. */
  lemma BodyValue(v: nat, base: nat, upper: bool, prec: int)
    requires 2 <= base <= 16
    ensures DigitsIn(UintBody(v, base, upper, prec), base) && ValueIn(UintBody(v, base, upper, prec), base) == v
  {
    ValueOfBaseDigits(v, base, upper);
    var digits := Significant(v, base, upper, prec);
    assert [ZERO][..0] == [];
    ZerosWorthNothing(prec - |digits|, digits, base);
  }

  // Scanning, modulo 2^32.

  lemma WrapOnce(v: int, k: int)
    ensures Wrap(v + k * U32) == Wrap(v)
  {
    assert (v + k * U32) % U32 == v % U32;
  }

  lemma WrapStep(v: nat, base: nat, d: nat)
    ensures Wrap(Wrap(v) * base + d) == Wrap(base * v + d)
  {
    var k := (v - Wrap(v)) / U32;
    assert v == Wrap(v) + k * U32;
    assert base * v + d == Wrap(v) * base + d + (k * base) * U32;
    WrapOnce(Wrap(v) * base + d, k * base);
  }

  /** Where the number stops: at the end, at a blank. */
  predicate Ends(rest: seq<byte>) {
    rest == [] || rest[0] == SPACE
  }

  lemma {:induction false} ScanWraps(s: seq<byte>, at: nat, t: seq<byte>, rest: seq<byte>, base: nat, n: nat)
    requires at <= |s| && s[at..] == t + rest && base <= 36 && DigitsIn(t, base) && n <= |t| && Ends(rest)
    ensures Accumulate(s, at + n, base, Wrap(ValueIn(t[..n], base))) == (Wrap(ValueIn(t, base)), at + |t|)
    decreases |t| - n
  {
    if n == |t| {
      assert t[..n] == t;
      if rest != [] {
        assert s[at + n] == s[at..][n] == rest[0];
      }
    } else {
      assert s[at + n] == s[at..][n] == t[n];
      assert t[..n + 1][..n] == t[..n];
      WrapStep(ValueIn(t[..n], base), base, DigitOf(t[n]));
      ScanWraps(s, at, t, rest, base, n + 1);
    }
  }

  lemma NothingYet(t: seq<byte>, base: nat)
    ensures Wrap(ValueIn(t[..0], base)) == 0
  {
    assert t[..0] == [];
  }

  lemma ScanAll(s: seq<byte>, at: nat, t: seq<byte>, rest: seq<byte>, base: nat)
    requires at <= |s| && s[at..] == t + rest && base <= 36 && DigitsIn(t, base) && Ends(rest)
    ensures Accumulate(s, at, base, 0) == (Wrap(ValueIn(t, base)), at + |t|)
  {
    NothingYet(t, base);
    ScanWraps(s, at, t, rest, base, 0);
  }

  /** No digit of a base up to 16 is taken for a sign or for the mark of base 16. */
  lemma FirstDigits(blanks: nat, t: seq<byte>, rest: seq<byte>, base: nat)
    requires t != [] && base <= 16 && DigitsIn(t, base) && Ends(rest)
    ensures var s := Rep(SPACE, blanks) + t + rest;
            && blanks < |s| && s[blanks..] == t + rest && (forall i :: 0 <= i < blanks ==> s[i] == SPACE)
            && s[blanks] !in {SPACE, 9, MINUS, PLUS} && At(s, blanks + 1) !in {120, 88}
  {
    assert DigitOf(t[0]) < base && (|t| > 1 ==> DigitOf(t[1]) < base);
    var s := Rep(SPACE, blanks) + t + rest;
    assert s[blanks] == t[0] && At(s, blanks + 1) == if |t| > 1 then t[1] else At(rest, 0);
  }

  /** Blanks, digits, blanks. */
  lemma DigitsParse(blanks: nat, t: seq<byte>, trail: int, base: nat)
    requires base == 8 || base == 10 || base == 16
    requires DigitsIn(t, base)
    ensures Parsed(Rep(SPACE, blanks) + t + Rep(SPACE, trail), base).0 == Wrap(ValueIn(t, base))
    ensures t != [] ==> Parsed(Rep(SPACE, blanks) + t + Rep(SPACE, trail), base).1 == blanks + |t|
  {
    var rest := Rep(SPACE, trail);
    var s := Rep(SPACE, blanks) + t + rest;
    if t == [] {
      BlanksSkipped(s, |s|);
    } else {
      FirstDigits(blanks, t, rest, base);
      BlanksSkipped(s, blanks);
      ScanAll(s, blanks, t, rest, base);
    }
  }

  /** "0x" or "0X", then digits or blanks: with a blank first, nothing is read. */
  lemma MarkedParses(mark: byte, blanks: nat, t: seq<byte>, trail: int, base: nat)
    requires (mark == 120 || mark == 88) && (base == 0 || base == 16) && DigitsIn(t, 16)
    ensures Parsed([ZERO, mark] + (Rep(SPACE, blanks) + t + Rep(SPACE, trail)), base).0
         == if blanks == 0 then Wrap(ValueIn(t, 16)) else 0
  {
    var rest := Rep(SPACE, trail);
    var body := Rep(SPACE, blanks) + t + rest;
    var s := [ZERO, mark] + body;
    BlanksSkipped(s, 0);
    assert s[0] == ZERO && s[1] == mark && s[2..] == body;
    if blanks == 0 {
      assert body == t + rest;
      ScanAll(s, 2, t, rest, 16);
    } else {
      assert s[2] == SPACE;
    }
  }

  // Base 0, and blanks of either kind.

  /** In base 0 a leading zero announces octal, and decimal digits without one are read in base 10. */
  lemma BaseZero(t: seq<byte>)
    ensures DigitsIn(t, 8) ==> Parsed([ZERO] + t, 0) == (Wrap(ValueIn(t, 8)), 1 + |t|)
    ensures t != [] && DigitsIn(t, 10) && t[0] != ZERO ==> Parsed(t, 0) == (Wrap(ValueIn(t, 10)), |t|)
  {
    if DigitsIn(t, 8) {
      OctalParses(t);
    }
    if t != [] && DigitsIn(t, 10) && t[0] != ZERO {
      assert DigitOf(t[0]) < 10 && t + [] == t && t[0..] == t;
      BlanksSkipped(t, 0);
      ScanAll(t, 0, t, [], 10);
    }
  }

  lemma OctalParses(t: seq<byte>)
    requires DigitsIn(t, 8)
    ensures Parsed([ZERO] + t, 0) == (Wrap(ValueIn(t, 8)), 1 + |t|)
  {
    var s := [ZERO] + t;
    OctalBase(t);
    BlanksSkipped(s, 0);
    assert s[1..] == t + [];
    ScanAll(s, 1, t, [], 8);
    ParsedParts(s, 0, 0, (8, 1), (Wrap(ValueIn(t, 8)), 1 + |t|));
  }

  lemma OctalBase(t: seq<byte>)
    requires DigitsIn(t, 8)
    ensures BaseAt([ZERO] + t, 0, 0) == (8, 1)
  {
    if t != [] {
      assert DigitOf(t[0]) < 8 && ([ZERO] + t)[1] == t[0];
    }
  }

  function Scanned(s: seq<byte>, i: nat, base: nat): (int, nat)
    requires i <= |s|
  {
    Accumulate(s, i, base, 0)
  }

  function PastSign(s: seq<byte>, i: nat): nat {
    if At(s, i) == MINUS || At(s, i) == PLUS then i + 1 else i
  }

  lemma ParsedParts(s: seq<byte>, base: nat, i: nat, d: (nat, nat), r: (int, nat))
    requires i == SkipBlanks(s, 0) && d == BaseAt(s, PastSign(s, i), base) && r == Scanned(s, d.1, d.0)
    ensures Parsed(s, base) == (if At(s, i) == MINUS then Wrap(-r.0) else r.0, r.1)
  {
  }

  predicate Blank(b: seq<byte>) {
    forall i :: 0 <= i < |b| ==> b[i] == 32 || b[i] == 9
  }

  lemma {:induction false} ShiftedBlanks(b: seq<byte>, s: seq<byte>, i: nat)
    requires Blank(b) && i <= |b|
    ensures SkipBlanks(b + s, i) == |b| + SkipBlanks(s, 0)
    decreases |b| - i
  {
    if i < |b| {
      assert (b + s)[i] == b[i];
      ShiftedBlanks(b, s, i + 1);
    } else {
      ShiftedSkip(b, s, 0);
    }
  }

  lemma {:induction false} ShiftedSkip(b: seq<byte>, s: seq<byte>, i: nat)
    requires i <= |s|
    ensures SkipBlanks(b + s, |b| + i) == |b| + SkipBlanks(s, i)
    decreases |s| - i
  {
    if i < |s| {
      assert (b + s)[|b| + i] == s[i];
      ShiftedSkip(b, s, i + 1);
    }
  }

  lemma {:induction false} ShiftedDigits(b: seq<byte>, s: seq<byte>, i: nat, base: nat, v: int)
    requires i <= |s|
    ensures Accumulate(b + s, |b| + i, base, v) == (Accumulate(s, i, base, v).0, |b| + Accumulate(s, i, base, v).1)
    decreases |s| - i
  {
    if i < |s| {
      assert (b + s)[|b| + i] == s[i];
      ShiftedDigits(b, s, i + 1, base, Wrap(v * base + DigitOf(s[i])));
    }
  }

  lemma ShiftedAt(b: seq<byte>, s: seq<byte>, i: nat)
    ensures At(b + s, |b| + i) == At(s, i)
  {
  }

  lemma ShiftedBase(b: seq<byte>, s: seq<byte>, j: nat, base: nat)
    requires j <= |s|
    ensures BaseAt(b + s, |b| + j, base) == (BaseAt(s, j, base).0, |b| + BaseAt(s, j, base).1)
  {
    ShiftedAt(b, s, j);
    ShiftedAt(b, s, j + 1);
  }

  /** Spaces and tabs in front change nothing but the position. */
  lemma BlanksInFrontOf(b: seq<byte>, s: seq<byte>, base: nat)
    requires Blank(b)
    ensures Parsed(b + s, base) == (Parsed(s, base).0, |b| + Parsed(s, base).1)
  {
    var i := SkipBlanks(s, 0);
    var d := BaseAt(s, PastSign(s, i), base);
    var r := Scanned(s, d.1, d.0);
    ParsedParts(s, base, i, d, r);
    ShiftedBlanks(b, s, 0);
    ShiftedAt(b, s, i);
    ShiftedBase(b, s, PastSign(s, i), base);
    ShiftedDigits(b, s, d.1, d.0, 0);
    ParsedParts(b + s, base, |b| + i, (d.0, |b| + d.1), (r.0, |b| + r.1));
  }

  // The unsigned conversions.

  /** The blanks the unsigned printer puts in front. */
  function BlanksInFront(n: nat, width: int, zero: bool, left: bool): nat {
    if left || zero || width <= n then 0 else width - n
  }

  lemma PaddedShape(body: seq<byte>, width: int, prec: int, zero: bool, left: bool)
    ensures Padded(body, width, prec, zero, left)
         == Rep(SPACE, BlanksInFront(|body|, width, zero, left))
            + (if !left && zero && prec < 0 then Rep(ZERO, width - |body|) + body else body)
            + Rep(SPACE, if left then width - |body| else 0)
  {
  }

  /** The text is digits worth the number, with blanks in front or behind, but never both. */
  lemma TextShape(v: nat, base: nat, upper: bool, width: int, prec: int, zero: bool, left: bool)
      returns (t: seq<byte>, trail: int)
    requires 2 <= base <= 16
    ensures DigitsIn(t, base) && ValueIn(t, base) == v
    ensures UintText(v, base, upper, width, prec, zero, left)
         == Rep(SPACE, BlanksInFront(|UintBody(v, base, upper, prec)|, width, zero, left)) + t + Rep(SPACE, trail)
  {
    var body := UintBody(v, base, upper, prec);
    BodyValue(v, base, upper, prec);
    PaddedShape(body, width, prec, zero, left);
    t, trail := body, if left then width - |body| else 0;
    if !left && zero && prec < 0 {
      t := Rep(ZERO, width - |body|) + body;
      ZerosWorthNothing(width - |body|, body, base);
    }
  }

  /** Every 32-bit number printed in octal, decimal or hexadecimal, in either case, with any width,
      precision and flags, is read back in that base, as the long with the same bits. */
  lemma UintReadsBack(v: nat, base: nat, upper: bool, width: int, prec: int, zero: bool, left: bool)
    requires base == 8 || base == 10 || base == 16
    ensures Parsed(UintText(v, base, upper, width, prec, zero, left), base).0 == Wrap(v)
  {
    var t, trail := TextShape(v, base, upper, width, prec, zero, left);
    DigitsParse(BlanksInFront(|UintBody(v, base, upper, prec)|, width, zero, left), t, trail, base);
  }

  /** With the mark of the '#' flag in front it is read back in base 0 too, exactly when no blanks come
      between the mark and the digits; else what is read is zero. */
  lemma MarkedReadsBackExactly(v: nat, upper: bool, width: int, prec: int, zero: bool, left: bool, base: nat)
    requires 0 < v < U32 && (base == 0 || base == 16)
    ensures var text := [ZERO, if upper then 88 else 120] + UintText(v, 16, upper, width, prec, zero, left);
            (Parsed(text, base).0 == Wrap(v)
             <==> left || zero || width <= |UintBody(v, 16, upper, prec)|)
  {
    var t, trail := TextShape(v, 16, upper, width, prec, zero, left);
    var blanks := BlanksInFront(|UintBody(v, 16, upper, prec)|, width, zero, left);
    MarkedParses(if upper then 88 else 120, blanks, t, trail, 16);
    MarkedParses(if upper then 88 else 120, blanks, t, trail, 0);
  }

  lemma NoMark(t: seq<byte>)
    ensures [] + t == t
  {
  }

  lemma WrapIsLong(v: int)
    ensures Wrap(Unsigned(v)) == ToLong(v)
  {
  }

  /** "%u" and "%o" are read back in their base, for every argument, width, precision and flags. */
  lemma DecimalAndOctalReadBack(d: Directive, v: int)
    requires d.conv == 117 || d.conv == 111
    ensures Parsed(ConvertInteger(d, v), if d.conv == 117 then 10 else 8).0 == ToLong(v)
  {
    WrapIsLong(v);
    var u, base := Unsigned(v), if d.conv == 117 then 10 else 8;
    UintReadsBack(u, base, false, d.width, d.prec, d.flags.zero, d.flags.left);
  }

  /** "%x" and "%X" are read back in base 16 exactly when '#' does not put its mark before blanks. */
  lemma HexReadsBackExactly(d: Directive, v: int)
    requires d.conv == 120 || d.conv == 88
    ensures var f, u := d.flags, v % U32;
            (Parsed(ConvertInteger(d, v), 16).0 == ToLong(v)
             <==> !f.hash || u == 0 || f.left || f.zero || d.width <= |UintBody(u, 16, d.conv == 88, d.prec)|)
  {
    WrapIsLong(v);
    var f, u, upper := d.flags, Unsigned(v), d.conv == 88;
    if f.hash && u != 0 {
      MarkedReadsBackExactly(u, upper, d.width, d.prec, f.zero, f.left, 16);
    } else {
      UintReadsBack(u, 16, upper, d.width, d.prec, f.zero, f.left);
      NoMark(UintText(u, 16, upper, d.width, d.prec, f.zero, f.left));
    }
  }

  /** A pointer is "0x" and at least eight digits, and is read back in base 16 and in base 0. */
  lemma PointerReadsBack(d: Directive, v: int)
    requires d.conv == 112
    ensures Parsed(ConvertInteger(d, v), 16).0 == Parsed(ConvertInteger(d, v), 0).0 == ToLong(v)
    ensures |ConvertInteger(d, v)| >= 10
  {
    WrapIsLong(v);
    var u := Unsigned(v);
    var t, trail := TextShape(u, 16, false, 0, 8, true, false);
    MarkedParses(120, 0, t, trail, 16);
    MarkedParses(120, 0, t, trail, 0);
  }

  /** Letters are of one case: upper for 'X', lower otherwise. */
  lemma {:induction false} LetterCase(v: nat, base: nat, upper: bool)
    requires 2 <= base <= 16
    ensures forall i :: 0 <= i < |BaseDigits(v, base, upper)| ==>
              var c := BaseDigits(v, base, upper)[i];
              IsDigit(c) || if upper then 65 <= c <= 70 else 97 <= c <= 102
  {
    if v > 0 {
      QuotientShrinks(v, base);
      LetterCase(v / base, base, upper);
    }
  }

  /** Without a width, a signed number is its sign and its digits; '+' goes before the space flag. */
  lemma SignedText(v: int, zero: bool, left: bool, plus: bool, space: bool)
    ensures IntText(v, 0, -1, zero, left, plus, space)
         == (if v < 0 then [45] else if plus then [43] else if space then [32] else []) + Digits(Magnitude(v))
  {
    SignificantIsDigits(Magnitude(v));
    DigitsBody(Magnitude(v));
    assert Rep(ZERO, 0) + Digits(Magnitude(v)) == Digits(Magnitude(v));
  }

  // Strings and characters.

  /** t is s in a field of that width: blanks before it, or behind it when it is on the left. */
  ghost predicate InField(t: seq<byte>, s: seq<byte>, width: int, left: bool) {
    && |t| == (if width > |s| then width else |s|)
    && (if left then t[..|s|] == s && forall i :: |s| <= i < |t| ==> t[i] == SPACE
        else t[|t| - |s|..] == s && forall i :: 0 <= i < |t| - |s| ==> t[i] == SPACE)
  }

  /** A string is cut to the precision; a null one prints as "(null)"; a character is one byte. */
  lemma TextConversions(d: Directive, args: seq<Arg>, fp: FloatPrinter, s: seq<byte>)
    requires d.used < |args|
    ensures d.conv == 115 && args[d.used] == Str(Some(s)) ==>
              InField(Convert(d, args, fp), if 0 <= d.prec < |s| then s[..d.prec] else s, d.width, d.flags.left)
    ensures d.conv == 115 && args[d.used] == Str(None) && d.prec < 0 ==>
              InField(Convert(d, args, fp), [40, 110, 117, 108, 108, 41], d.width, d.flags.left)
    ensures d.conv == 99 && args[d.used].Num? ==>
              InField(Convert(d, args, fp), [args[d.used].v % 256], d.width, d.flags.left)
  {
  }
}
