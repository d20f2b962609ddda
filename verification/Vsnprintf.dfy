/** The format loop, the parser that reads numbers back, and how the two fit: what is printed is found again,
    and which widths and precisions are honoured. */
module Vsnprintf {
  import opened Arithmetic
  import opened Bytes
  import opened Decimal
  import opened Printer

  /** `width * 10 + digit` while there are digits. */
  method ReadNumber(fmt: seq<byte>, from: nat) returns (n: nat, i: nat)
    requires from <= |fmt|
    ensures (n, i) == ScanNumber(fmt, from, 0) && from <= i <= |fmt|
  {
    n, i := 0, from;
    while i < |fmt| && IsDigit(fmt[i])
      invariant from <= i <= |fmt| && ScanNumber(fmt, from, 0) == ScanNumber(fmt, i, n)
    {
      n := n * 10 + (fmt[i] as int - 48);
      i := i + 1;
    }
  }

  method ReadField(fmt: seq<byte>, from: nat, args: seq<Arg>, k: nat) returns (n: int, i: nat, used: nat)
    requires from <= |fmt|
    ensures (n, i, used) == ScanField(fmt, from, args, k) && from <= i <= |fmt|
  {
    if At(fmt, from) == 42 {
      return NumAt(args, k), from + 1, k + 1;
    }
    n, i := ReadNumber(fmt, from);
    used := k;
  }

  method ReadFlags(fmt: seq<byte>, from: nat) returns (f: Flags, i: nat)
    requires from <= |fmt|
    ensures (f, i) == ScanFlags(fmt, from, Flags(false, false, false, false, false)) && from <= i <= |fmt|
  {
    f, i := Flags(false, false, false, false, false), from;
    ghost var start := f;
    while i < |fmt| && IsFlag(fmt[i])
      invariant from <= i <= |fmt| && ScanFlags(fmt, from, start) == ScanFlags(fmt, i, f)
    {
      f := WithFlag(f, fmt[i]);
      i := i + 1;
    }
  }

  method ReadLength(fmt: seq<byte>, from: nat) returns (i: nat)
    requires from <= |fmt|
    ensures i == SkipLength(fmt, from) && from <= i <= |fmt|
  {
    i := from;
    while i < |fmt| && IsLength(fmt[i])
      invariant from <= i <= |fmt| && SkipLength(fmt, from) == SkipLength(fmt, i)
    {
      i := i + 1;
    }
  }

  method ReadDirective(fmt: seq<byte>, from: nat, args: seq<Arg>, k: nat) returns (d: Directive)
    requires from <= |fmt|
    ensures d == DirectiveAt(fmt, from, args, k)
  {
    var f, i := ReadFlags(fmt, from);
    var width, j, used := ReadField(fmt, i, args, k);
    var prec := -1;
    if At(fmt, j) == 46 {
      prec, j, used := ReadField(fmt, j + 1, args, used);
    }
    j := ReadLength(fmt, j);
    d := Directive(f, width, prec, At(fmt, j), if j < |fmt| then j + 1 else j, used);
  }

  /** One turn of the format loop: an ordinary character or a whole directive. */
  method EmitNext(c: Context, fmt: seq<byte>, i: nat, args: seq<Arg>, k: nat, fp: FloatPrinter) returns (j: nat, l: nat)
    requires c.Valid() && i < |fmt| && Printable(fmt, i, args, k)
    modifies c, c.buf
    ensures c.Valid() && i < j <= |fmt| && Printable(fmt, j, args, l)
    ensures old(c.text) + Text(fmt, i, args, k, fp) == c.text + Text(fmt, j, args, l, fp)
  {
    ghost var done := c.text;
    if fmt[i] != PERCENT {
      c.Put(fmt[i]);
      j, l := i + 1, k;
      Assoc(done, [fmt[i]], Text(fmt, j, args, l, fp));
    } else {
      var d := ReadDirective(fmt, i + 1, args, k);
      c.EmitDirective(d, args, fp);
      j, l := d.next, d.used + (if Takes(d.conv) then 1 else 0);
      Assoc(done, Convert(d, args, fp), Text(fmt, j, args, l, fp));
    }
  }

  method FormatAll(c: Context, fmt: seq<byte>, args: seq<Arg>, fp: FloatPrinter)
    requires c.Valid() && c.text == [] && Printable(fmt, 0, args, 0)
    modifies c, c.buf
    ensures c.Valid() && c.text == Text(fmt, 0, args, 0, fp)
  {
    ghost var whole := Text(fmt, 0, args, 0, fp);
    var i, k: nat := 0, 0;
    assert [] + whole == whole;
    while i < |fmt|
      invariant i <= |fmt| && c.Valid() && Printable(fmt, i, args, k)
      invariant whole == c.text + Text(fmt, i, args, k, fp)
      decreases |fmt| - i
    {
      i, k := EmitNext(c, fmt, i, args, k, fp);
    }
    assert c.text + [] == c.text;
  }

  /** `vsnprintf`: the length of the whole text, whatever the buffer holds of it. The format has to keep
      the printers inside their scratch arrays and must not end inside a directive. */
  method Format(buf: array<byte>, fmt: seq<byte>, args: seq<Arg>, fp: FloatPrinter) returns (n: nat)
    requires Printable(fmt, 0, args, 0)
    modifies buf
    ensures var text := Text(fmt, 0, args, 0, fp);
            n == |text| && buf[..] == Terminated(old(buf[..]), text)
  {
    var c := new Context(buf);
    FormatAll(c, fmt, args, fp);
    n := c.Finish();
  }

  /** What is stored: as much of the text as leaves room for the NUL, the NUL, and nothing behind it. */
  lemma StoredExactly(was: seq<byte>, text: seq<byte>)
    requires was != []
    ensures var n, now := Min(|text|, |was| - 1), Terminated(was, text);
            && |now| == |was| && now[..n] == text[..n] && now[n] == 0 && now[n + 1..] == was[n + 1..]
  {
  }

  // strtol.

  /** The value of a digit in any base; 36 for what is no digit. */
  function DigitOf(c: byte): (d: nat)
    ensures d <= 36
  {
    if 48 <= c <= 57 then c - 48
    else if 97 <= c <= 122 then c - 97 + 10
    else if 65 <= c <= 90 then c - 65 + 10
    else 36
  }

  /** 32-bit two's-complement wrap-around. */
  function Wrap(v: int): (r: int)
    ensures LONG_MIN <= r <= LONG_MAX
  {
    var w := v % U32;
    if w > LONG_MAX then w - U32 else w
  }

  function SkipBlanks(s: seq<byte>, i: nat): (j: nat)
    requires i <= |s|
    ensures i <= j <= |s|
    decreases |s| - i
  {
    if i < |s| && (s[i] == SPACE || s[i] == 9) then SkipBlanks(s, i + 1) else i
  }

  /** The digits from i on, accumulated onto v. */
  function Accumulate(s: seq<byte>, i: nat, base: nat, v: int): (int, nat)
    requires i <= |s|
    decreases |s| - i
  {
    if i < |s| && s[i] != 0 && DigitOf(s[i]) < 36 && DigitOf(s[i]) < base then
      Accumulate(s, i + 1, base, Wrap(v * base + DigitOf(s[i])))
    else (v, i)
  }

  /** After the sign: the base to use and where the digits start. */
  function BaseAt(s: seq<byte>, i: nat, base: nat): (r: (nat, nat))
    requires i <= |s|
    ensures i <= r.1 <= |s|
  {
    if (base == 0 || base == 16) && At(s, i) == 48 && (At(s, i + 1) == 120 || At(s, i + 1) == 88) then (16, i + 2)
    else if base == 0 && At(s, i) == 48 then (8, i + 1)
    else if base == 0 then (10, i)
    else (base, i)
  }

  /** Value and end position of the number at the start of s. */
  function Parsed(s: seq<byte>, base: nat): (int, nat) {
    var i := SkipBlanks(s, 0);
    var signed := At(s, i) == MINUS || At(s, i) == PLUS;
    var b := BaseAt(s, if signed then i + 1 else i, base);
    var r := Accumulate(s, b.1, b.0, 0);
    (if At(s, i) == MINUS then Wrap(-r.0) else r.0, r.1)
  }

  method ReadBlanks(s: seq<byte>) returns (i: nat)
    ensures i == SkipBlanks(s, 0) && i <= |s|
  {
    i := 0;
    while i < |s| && (s[i] == SPACE || s[i] == 9)
      invariant i <= |s| && SkipBlanks(s, 0) == SkipBlanks(s, i)
    {
      i := i + 1;
    }
  }

  method ReadBase(s: seq<byte>, from: nat, base: nat) returns (b: nat, i: nat)
    requires from <= |s|
    ensures (b, i) == BaseAt(s, from, base)
  {
    b, i := base, from;
    if (b == 0 || b == 16) && At(s, i) == 48 && (At(s, i + 1) == 120 || At(s, i + 1) == 88) {
      i := i + 2;
      b := 16;
    } else if b == 0 && At(s, i) == 48 {
      i := i + 1;
      b := 8;
    } else if b == 0 {
      b := 10;
    }
  }

  method ReadDigits(s: seq<byte>, from: nat, base: nat) returns (v: int, i: nat)
    requires from <= |s|
    ensures (v, i) == Accumulate(s, from, base, 0)
  {
    v, i := 0, from;
    while i < |s| && s[i] != 0
      invariant from <= i <= |s| && Accumulate(s, from, base, 0) == Accumulate(s, i, base, v)
    {
      var d := DigitOf(s[i]);
      if d == 36 {
        break;
      }
      if d >= base {
        break;
      }
      v := Wrap(v * base + d);
      i := i + 1;
    }
  }

  /** `strtol`. */
  method Strtol(s: seq<byte>, base: nat) returns (v: int, end: nat)
    ensures (v, end) == Parsed(s, base)
  {
    var i := ReadBlanks(s);
    var neg := false;
    if At(s, i) == MINUS {
      neg := true;
      i := i + 1;
    } else if At(s, i) == PLUS {
      i := i + 1;
    }
    var b;
    b, i := ReadBase(s, i, base);
    v, end := ReadDigits(s, i, b);
    if neg {
      v := Wrap(-v);
    }
  }

  // Reading back what was printed.

  predicate AllDigits(t: seq<byte>) {
    forall i :: 0 <= i < |t| ==> IsDigit(t[i])
  }

  /** A prefix of a digit string is worth no more than the whole. */
  lemma {:induction false} ValueGrows(t: seq<byte>, n: nat)
    requires AllDigits(t) && n <= |t|
    ensures 0 <= Value(t[..n]) <= Value(t)
  {
    if |t| == 0 {
    } else if n == |t| {
      assert t[..n] == t;
      ValueGrows(t[..|t| - 1], |t| - 1);
      assert t[..|t| - 1][..|t| - 1] == t[..|t| - 1];
    } else {
      ValueGrows(t[..|t| - 1], n);
      assert t[..|t| - 1][..n] == t[..n];
    }
  }

  lemma WrapFits(v: int)
    requires LONG_MIN <= v <= LONG_MAX
    ensures Wrap(v) == v
  {
  }

  /** Scanning a digit string whose value fits, up to what follows it. */
  lemma {:induction false} AccumulatesValue(s: seq<byte>, at: nat, t: seq<byte>, rest: seq<byte>, n: nat)
    requires at <= |s| && s[at..] == t + rest && AllDigits(t) && n <= |t| && Value(t) <= LONG_MAX
    requires rest == [] || rest[0] == SPACE
    ensures Accumulate(s, at + n, 10, Value(t[..n])) == (Value(t), at + |t|)
    decreases |t| - n
  {
    if n == |t| {
      assert t[..n] == t;
      if rest != [] {
        assert s[at + n] == s[at..][n] == rest[0];
      }
    } else {
      assert s[at + n] == s[at..][n] == t[n];
      ValueGrows(t, n + 1);
      assert t[..n + 1][..n] == t[..n];
      WrapFits(Value(t[..n + 1]));
      AccumulatesValue(s, at, t, rest, n + 1);
    }
  }

  lemma BlanksSkipped(s: seq<byte>, n: nat)
    requires n <= |s| && (forall i :: 0 <= i < n ==> s[i] == SPACE) && (n < |s| ==> s[n] != SPACE && s[n] != 9)
    ensures SkipBlanks(s, 0) == n
  {
    BlanksFrom(s, n, 0);
  }

  lemma {:induction false} BlanksFrom(s: seq<byte>, n: nat, i: nat)
    requires i <= n <= |s| && (forall i :: 0 <= i < n ==> s[i] == SPACE) && (n < |s| ==> s[n] != SPACE && s[n] != 9)
    ensures SkipBlanks(s, i) == n
    decreases n - i
  {
    if i < n {
      BlanksFrom(s, n, i + 1);
    }
  }

  /** Blanks, an optional sign, digits, blanks: the shape of every printed integer. */
  lemma ShapeParses(blanks: nat, sign: seq<byte>, t: seq<byte>, trail: int)
    requires t != [] && AllDigits(t) && Value(t) <= LONG_MAX && (sign == [] || sign == [MINUS] || sign == [PLUS])
    ensures Parsed(Rep(SPACE, blanks) + sign + t + Rep(SPACE, trail), 10).0
         == if sign == [MINUS] then -Value(t) else Value(t)
  {
    var rest := Rep(SPACE, trail);
    var s := Rep(SPACE, blanks) + sign + t + rest;
    ShapeParts(blanks, sign, t, rest);
    BlanksSkipped(s, blanks);
    assert t[..0] == [];
    AccumulatesValue(s, blanks + |sign|, t, rest, 0);
    ValueGrows(t, 0);
    WrapFits(-Value(t));
  }

  lemma ShapeParts(blanks: nat, sign: seq<byte>, t: seq<byte>, rest: seq<byte>)
    requires t != [] && AllDigits(t) && (sign == [] || sign == [MINUS] || sign == [PLUS])
    ensures var s := Rep(SPACE, blanks) + sign + t + rest;
            && blanks < |s| && (forall i :: 0 <= i < blanks ==> s[i] == SPACE)
            && s[blanks] != SPACE && s[blanks] != 9
            && (sign != [] ==> s[blanks] == sign[0]) && (sign == [] ==> IsDigit(s[blanks]))
            && s[blanks + |sign|..] == t + rest
  {
    assert IsDigit(t[0]);
  }

  lemma {:induction false} DecimalDigits(v: nat)
    requires v > 0
    ensures BaseDigits(v, 10, false) == Digits(v)
  {
    if v >= 10 {
      DecimalDigits(v / 10);
    } else {
      assert BaseDigits(v / 10, 10, false) == [];
    }
  }

  lemma SignificantIsDigits(v: nat)
    ensures Significant(v, 10, false, -1) == Digits(v)
  {
    if v > 0 {
      DecimalDigits(v);
    }
  }

  lemma {:induction false} ZerosInFront(n: int, t: seq<byte>)
    requires AllDigits(t)
    ensures AllDigits(Rep(ZERO, n) + t) && Value(Rep(ZERO, n) + t) == Value(t)
    decreases |t|
  {
    if t == [] {
      assert Rep(ZERO, n) + t == Rep(ZERO, n);
      ZerosValue(n);
    } else {
      var front, last := t[..|t| - 1], t[|t| - 1];
      ZerosInFront(n, front);
      assert (Rep(ZERO, n) + t)[..|Rep(ZERO, n) + t| - 1] == Rep(ZERO, n) + front;
    }
  }

  lemma {:induction false} ZerosValue(n: int)
    ensures Value(Rep(ZERO, n)) == 0
  {
    if n > 0 {
      ZerosValue(n - 1);
      assert Rep(ZERO, n)[..n - 1] == Rep(ZERO, n - 1);
    }
  }

  /** A space for a sign is one more blank. */
  lemma SignShape(sign: seq<byte>) returns (blank: nat, mark: seq<byte>)
    requires sign == [] || sign == [MINUS] || sign == [PLUS] || sign == [SPACE]
    ensures mark == [] || mark == [MINUS] || mark == [PLUS]
    ensures Rep(SPACE, blank) + mark == sign && (mark == [MINUS] <==> sign == [MINUS])
  {
    if sign == [SPACE] {
      blank, mark := 1, [];
      assert Rep(SPACE, 1) + [] == sign;
    } else {
      blank, mark := 0, sign;
    }
  }

  lemma UnpaddedParses(sign: seq<byte>, t: seq<byte>)
    requires t != [] && AllDigits(t) && Value(t) <= LONG_MAX
    requires sign == [] || sign == [MINUS] || sign == [PLUS] || sign == [SPACE]
    ensures Parsed(sign + t, 10).0 == if sign == [MINUS] then -Value(t) else Value(t)
  {
    var blank, mark := SignShape(sign);
    ShapeParses(blank, mark, t, 0);
    assert Rep(SPACE, blank) + mark + t + Rep(SPACE, 0) == sign + t;
  }

  lemma SignedParses(sign: seq<byte>, t: seq<byte>, width: int, left: bool)
    requires t != [] && AllDigits(t) && Value(t) <= LONG_MAX
    requires sign == [] || sign == [MINUS] || sign == [PLUS] || sign == [SPACE]
    ensures Parsed(Signed(sign, t, width, left), 10).0 == if sign == [MINUS] then -Value(t) else Value(t)
  {
    var blank, mark := SignShape(sign);
    var pad := width - (|sign| + |t|);
    if left {
      ShapeParses(blank, mark, t, pad);
    } else {
      var n := |Rep(SPACE, pad)|;
      ShapeParses(n + blank, mark, t, 0);
      MoreBlanks(pad, blank, mark, t);
    }
  }

  lemma MoreBlanks(pad: int, blank: nat, mark: seq<byte>, t: seq<byte>)
    ensures Rep(SPACE, |Rep(SPACE, pad)| + blank) + mark + t + Rep(SPACE, 0)
         == Rep(SPACE, pad) + (Rep(SPACE, blank) + mark) + t
  {
  }

  /** Every long but the least is read back from its printed form, whatever the width and the flags. */
  lemma PrintedReadsBack(v: int, width: int, zero: bool, left: bool, plus: bool, space: bool)
    requires LONG_MIN < v <= LONG_MAX
    ensures Parsed(IntText(v, width, -1, zero, left, plus, space), 10).0 == v
  {
    var u, sign := Magnitude(v), Sign(v, plus, space);
    var d := Digits(u);
    SignificantIsDigits(u);
    ValueOfDigits(u);
    if zero && !left {
      ZeroPaddedReadsBack(u, sign, if width - |sign| < 0 then 0 else width - |sign|);
    } else {
      assert Rep(ZERO, HalfShort(-1, |d|)) + d == d;
      SignedParses(sign, d, width, left);
    }
  }

  lemma ZeroPaddedReadsBack(u: nat, sign: seq<byte>, width: nat)
    requires u <= LONG_MAX && (sign == [] || sign == [MINUS] || sign == [PLUS] || sign == [SPACE])
    ensures Parsed(sign + UintText(u, 10, false, width, -1, true, false), 10).0
         == if sign == [MINUS] then -(u as int) else u
  {
    ZeroPadded(u, width);
    UnpaddedParses(sign, UintText(u, 10, false, width, -1, true, false));
  }

  lemma ZeroPadded(u: nat, width: nat)
    ensures var t := UintText(u, 10, false, width, -1, true, false);
            t != [] && AllDigits(t) && Value(t) == u
  {
    var d := Digits(u);
    DigitsBody(u);
    ValueOfDigits(u);
    ZerosInFront(width - |d|, d);
  }

  lemma DigitsBody(u: nat)
    ensures UintBody(u, 10, false, -1) == Digits(u)
  {
    SignificantIsDigits(u);
    assert Rep(ZERO, -1 - |Digits(u)|) + Digits(u) == Digits(u);
  }

  /** A signed precision is honoured exactly when it asks for at most one zero: the loop that writes
      the zeros moves its own bound. */
  lemma SignedPrecisionExactly(u: nat, prec: int)
    requires prec > 0
    ensures var n := |Significant(u, 10, false, prec)|;
            |IntBody(u, prec)| == (if prec > n then prec else n) <==> prec <= n + 1
  {
  }

  /** The unsigned printer honours every precision. */
  lemma UnsignedPrecision(u: nat, base: nat, upper: bool, prec: int)
    requires 2 <= base <= 16
    ensures var n := |Significant(u, base, upper, prec)|;
            |UintBody(u, base, upper, prec)| == if prec > n then prec else n
  {
  }

  /** The unsigned printer fills the width exactly when it is not asked for zeros and a precision at once,
      or the digits reach it anyway. */
  lemma WidthExactly(v: nat, base: nat, upper: bool, width: int, prec: int, zero: bool, left: bool)
    requires 2 <= base <= 16
    ensures var n := |UintBody(v, base, upper, prec)|;
            (|UintText(v, base, upper, width, prec, zero, left)| == (if width > n then width else n)
             <==> left || !zero || prec < 0 || width <= n)
  {
  }

  /** The signed printer always fills the width. */
  lemma SignedWidth(v: int, width: int, prec: int, zero: bool, left: bool, plus: bool, space: bool)
    ensures |IntText(v, width, prec, zero, left, plus, space)| >= width
  {
    if zero && !left && prec < 0 {
      var effective := width - |Sign(v, plus, space)|;
      WidthExactly(Magnitude(v), 10, false, if effective < 0 then 0 else effective, prec, true, false);
    }
  }

  /** "%05.3u" of 7 prints "007", two characters short of its width. */
  lemma ComesOutShort(fp: FloatPrinter)
    ensures Text(SHORT, 0, [Num(7)], 0, fp) == [48, 48, 55]
  {
    assert DirectiveAt(SHORT, 1, [Num(7)], 0) == Directive(ZERO_FLAG, 5, 3, 117, 6, 0) by {
      assert ScanFlags(SHORT, 1, Flags(false, false, false, false, false)) == ScanFlags(SHORT, 2, ZERO_FLAG);
      assert ScanFlags(SHORT, 2, ZERO_FLAG) == (ZERO_FLAG, 2);
      assert ScanNumber(SHORT, 2, 0) == ScanNumber(SHORT, 3, 5) == (5, 3);
      assert ScanNumber(SHORT, 4, 0) == ScanNumber(SHORT, 5, 3) == (3, 5);
    }
    assert BaseDigits(7, 10, false) == BaseDigits(0, 10, false) + [55] == [55];
    assert UintText(7, 10, false, 5, 3, true, false) == [48, 48, 55];
  }

  /** "%.5d" of 7 prints "007" as well: two of the four zeros it is asked for. */
  lemma HalfTheZeros(fp: FloatPrinter)
    ensures Text(PRECISE, 0, [Num(7)], 0, fp) == [48, 48, 55]
  {
    var none := Flags(false, false, false, false, false);
    assert DirectiveAt(PRECISE, 1, [Num(7)], 0) == Directive(none, 0, 5, 100, 4, 0) by {
      assert ScanFlags(PRECISE, 1, none) == (none, 1);
      assert ScanNumber(PRECISE, 1, 0) == (0, 1);
      assert ScanNumber(PRECISE, 2, 0) == ScanNumber(PRECISE, 3, 5) == (5, 3);
    }
    assert BaseDigits(7, 10, false) == BaseDigits(0, 10, false) + [55] == [55];
    assert IntBody(7, 5) == Rep(ZERO, 2) + [55] == [48, 48, 55];
    assert IntText(7, 0, 5, false, false, false, false) == [48, 48, 55];
  }

  const PRECISE: seq<byte> := [37, 46, 53, 100]
  const SHORT: seq<byte> := [37, 48, 53, 46, 51, 117]
  const ZERO_FLAG := Flags(false, false, true, false, false)
}
