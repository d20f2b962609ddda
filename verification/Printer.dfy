/** The bounded formatter: the integer, string and character conversions of `vsnprintf`. What it prints
    is given by functions of the format and the arguments; `Context` refines them into a buffer. */
module Printer {
  import opened Arithmetic
  import opened Bytes
  import opened Decimal

  const SPACE: byte := 32
  const PLUS: byte := 43
  const MINUS: byte := 45
  const ZERO: byte := 48
  const PERCENT: byte := 37

  /** `long` and `int` are 32 bits wide. */
  const LONG_MIN: int := -0x8000_0000
  const LONG_MAX: int := 0x7fff_ffff

  function Rep(c: byte, n: int): (s: seq<byte>)
    ensures |s| == if n > 0 then n else 0
  {
    if n <= 0 then [] else seq(n, _ => c)
  }

  function DigitChar(d: nat, upper: bool): byte
    requires d < 16
  {
    if d < 10 then 48 + d else if upper then 55 + d else 87 + d
  }

  /** Digits most significant first; none for zero. */
  function BaseDigits(v: nat, base: nat, upper: bool): seq<byte>
    requires 2 <= base <= 16
  {
    if v == 0 then [] else BaseDigits(v / base, base, upper) + [DigitChar(v % base, upper)]
  }

  /** Zero has one digit, unless the precision is zero. */
  function Significant(v: nat, base: nat, upper: bool, prec: int): seq<byte>
    requires 2 <= base <= 16
  {
    if v == 0 && prec != 0 then [ZERO] else BaseDigits(v, base, upper)
  }

  /** The digits, padded with zeros to the precision. */
  function UintBody(v: nat, base: nat, upper: bool, prec: int): seq<byte>
    requires 2 <= base <= 16
  {
    var digits := Significant(v, base, upper, prec);
    Rep(ZERO, prec - |digits|) + digits
  }

  /** The body, padded to the width. With both the zero flag and a precision there is no padding. */
  function Padded(body: seq<byte>, width: int, prec: int, zero: bool, left: bool): seq<byte> {
    var npad := width - |body|;
    if left then body + Rep(SPACE, npad)
    else if !zero then Rep(SPACE, npad) + body
    else if prec < 0 then Rep(ZERO, npad) + body
    else body
  }

  /** `emit_uint`. */
  function UintText(v: nat, base: nat, upper: bool, width: int, prec: int, zero: bool, left: bool): seq<byte>
    requires 2 <= base <= 16
  {
    Padded(UintBody(v, base, upper, prec), width, prec, zero, left)
  }

  function Sign(v: int, plus: bool, space: bool): seq<byte> {
    if v < 0 then [MINUS] else if plus then [PLUS] else if space then [SPACE] else []
  }

  /** How many zeros the signed printer's precision loop adds: its bound shrinks as it writes. */
  function HalfShort(prec: int, n: nat): nat {
    if prec > n then (prec - n + 1) / 2 else 0
  }

  /** The signed printer's digits with the zeros its precision loop adds. */
  function IntBody(u: nat, prec: int): seq<byte> {
    var digits := Significant(u, 10, false, prec);
    Rep(ZERO, HalfShort(prec, |digits|)) + digits
  }

  function Signed(sign: seq<byte>, body: seq<byte>, width: int, left: bool): seq<byte> {
    var pad := Rep(SPACE, width - (|sign| + |body|));
    if left then sign + body + pad else pad + sign + body
  }

  /** `emit_int`. */
  function IntText(v: int, width: int, prec: int, zero: bool, left: bool, plus: bool, space: bool): seq<byte> {
    var sign := Sign(v, plus, space);
    if zero && !left && prec < 0 then
      var effective := width - |sign|;
      sign + UintText(Magnitude(v), 10, false, if effective < 0 then 0 else effective, prec, true, false)
    else Signed(sign, IntBody(Magnitude(v), prec), width, left)
  }

  // Formats.

  datatype Arg = Num(v: int) | Str(s: Option<seq<byte>>)

  datatype Flags = Flags(left: bool, plus: bool, zero: bool, space: bool, hash: bool)

  /** One directive; `next` is where the format goes on and `used` how many arguments are gone before
      its own. */
  datatype Directive = Directive(flags: Flags, width: int, prec: int, conv: byte, next: nat, used: nat)

  /** The format's character at i; its end reads as NUL. */
  function At(fmt: seq<byte>, i: nat): byte {
    if i < |fmt| then fmt[i] else 0
  }

  function NumAt(args: seq<Arg>, k: nat): int {
    if k < |args| && args[k].Num? then args[k].v else 0
  }

  function StrAt(args: seq<Arg>, k: nat): Option<seq<byte>> {
    if k < |args| && args[k].Str? then args[k].s else None
  }

  predicate IsFlag(c: byte) {
    c == MINUS || c == PLUS || c == ZERO || c == SPACE || c == 35
  }

  function WithFlag(f: Flags, c: byte): Flags {
    if c == MINUS then f.(left := true)
    else if c == PLUS then f.(plus := true)
    else if c == ZERO then f.(zero := true)
    else if c == SPACE then f.(space := true)
    else f.(hash := true)
  }

  function ScanFlags(fmt: seq<byte>, i: nat, f: Flags): (r: (Flags, nat))
    requires i <= |fmt|
    ensures i <= r.1 <= |fmt|
    decreases |fmt| - i
  {
    if i < |fmt| && IsFlag(fmt[i]) then ScanFlags(fmt, i + 1, WithFlag(f, fmt[i])) else (f, i)
  }

  function ScanNumber(fmt: seq<byte>, i: nat, n: nat): (r: (nat, nat))
    requires i <= |fmt|
    ensures i <= r.1 <= |fmt|
    decreases |fmt| - i
  {
    if i < |fmt| && IsDigit(fmt[i]) then ScanNumber(fmt, i + 1, n * 10 + (fmt[i] as int - 48)) else (n, i)
  }

  /** A width or a precision: '*' takes an argument. */
  function ScanField(fmt: seq<byte>, i: nat, args: seq<Arg>, k: nat): (r: (int, nat, nat))
    requires i <= |fmt|
    ensures i <= r.1 <= |fmt|
  {
    if At(fmt, i) == 42 then (NumAt(args, k), i + 1, k + 1)
    else
      var r := ScanNumber(fmt, i, 0);
      (r.0, r.1, k)
  }

  /** 'l', 'h', 'z', 't', 'L' and 'j'; they change nothing where int and long are the same size. */
  predicate IsLength(c: byte) {
    c == 108 || c == 104 || c == 122 || c == 116 || c == 76 || c == 106
  }

  function SkipLength(fmt: seq<byte>, i: nat): (j: nat)
    requires i <= |fmt|
    ensures i <= j <= |fmt|
    decreases |fmt| - i
  {
    if i < |fmt| && IsLength(fmt[i]) then SkipLength(fmt, i + 1) else i
  }

  /** The directive whose '%' is just before i. */
  function DirectiveAt(fmt: seq<byte>, i: nat, args: seq<Arg>, k: nat): (d: Directive)
    requires i <= |fmt|
    ensures i <= d.next <= |fmt|
  {
    var f := ScanFlags(fmt, i, Flags(false, false, false, false, false));
    var w := ScanField(fmt, f.1, args, k);
    var p := if At(fmt, w.1) == 46 then ScanField(fmt, w.1 + 1, args, w.2) else (-1, w.1, w.2);
    var c := SkipLength(fmt, p.1);
    Directive(f.0, w.0, p.0, At(fmt, c), if c < |fmt| then c + 1 else c, p.2)
  }

  /** "(null)". */
  const NULL_TEXT: seq<byte> := [40, 110, 117, 108, 108, 41]

  function Prefix(s: seq<byte>, prec: int): seq<byte> {
    if 0 <= prec < |s| then s[..prec] else s
  }

  function PadText(s: seq<byte>, width: int, left: bool): seq<byte> {
    var pad := Rep(SPACE, width - |s|);
    if left then s + pad else pad + s
  }

  /** The floating-point conversions print whatever `fp` says. */
  type FloatPrinter = (Directive, nat) -> seq<byte>

  predicate IsFloat(c: byte) {
    c == 102 || c == 70 || c == 103 || c == 71 || c == 101 || c == 69
  }

  predicate IsSigned(c: byte) { c == 100 || c == 105 }

  function Unsigned(v: int): (u: nat)
    ensures u < U32
  {
    v % U32
  }

  /** The argument's 32 bits as a `long`. */
  function ToLong(v: int): (l: int)
    ensures LONG_MIN <= l <= LONG_MAX
  {
    if v % U32 <= LONG_MAX then v % U32 else v % U32 - U32
  }

  predicate IsInteger(c: byte) {
    IsSigned(c) || c == 117 || c == 120 || c == 88 || c == 111 || c == 112
  }

  /** "0x" or "0X" of the '#' flag. */
  function HexMark(hash: bool, u: nat, conv: byte): seq<byte> {
    if hash && u != 0 then [48, conv] else []
  }

  function ConvertInteger(d: Directive, v: int): seq<byte> {
    var f, u := d.flags, Unsigned(v);
    if IsSigned(d.conv) then IntText(ToLong(v), d.width, d.prec, f.zero, f.left, f.plus, f.space)
    else if d.conv == 117 then UintText(u, 10, false, d.width, d.prec, f.zero, f.left)
    else if d.conv == 120 || d.conv == 88 then
      HexMark(f.hash, u, d.conv) + UintText(u, 16, d.conv == 88, d.width, d.prec, f.zero, f.left)
    else if d.conv == 111 then UintText(u, 8, false, d.width, d.prec, f.zero, f.left)
    else [48, 120] + UintText(u, 16, false, 0, 8, true, false)
  }

  /** What one directive prints. */
  function Convert(d: Directive, args: seq<Arg>, fp: FloatPrinter): seq<byte> {
    if IsInteger(d.conv) then ConvertInteger(d, NumAt(args, d.used))
    else if d.conv == 115 then
      var s := StrAt(args, d.used);
      PadText(Prefix(if s.Some? then s.value else NULL_TEXT, d.prec), d.width, d.flags.left)
    else if d.conv == 99 then PadText([NumAt(args, d.used) % 256], d.width, d.flags.left)
    else if IsFloat(d.conv) then fp(d, d.used)
    else if d.conv == PERCENT then [PERCENT]
    else [PERCENT, d.conv]
  }

  /** Conversions that take an argument. */
  predicate Takes(c: byte) {
    IsInteger(c) || c == 115 || c == 99 || IsFloat(c)
  }

  // The scratch arrays.

  const UINT_SCRATCH: nat := 33
  const INT_SCRATCH: nat := 34

  lemma {:induction false} DigitsBound(v: nat, base: nat, upper: bool, n: nat)
    requires 2 <= base <= 16 && v < Pow2(n)
    ensures |BaseDigits(v, base, upper)| <= n
  {
    if v > 0 {
      DivGrows2(v, base);
      DigitsBound(v / base, base, upper, n - 1);
    }
  }

  lemma DivGrows2(v: nat, base: nat)
    requires base >= 2
    ensures v / base <= v / 2
  {
    DivMod(v, base);
    AtLeast(base, v / base);
  }

  lemma WordDigits(v: nat, base: nat, upper: bool, prec: int)
    requires 2 <= base <= 16 && v < U32
    ensures |Significant(v, base, upper, prec)| <= 32
  {
    Pow2OfBytes(4);
    Pow256Values();
    DigitsBound(v, base, upper, 8 * 4);
  }

  /** The unsigned printer stays inside its scratch array exactly up to a precision of 33. */
  lemma UintFitsExactly(v: nat, base: nat, upper: bool, prec: int)
    requires 2 <= base <= 16 && v < U32
    ensures |UintBody(v, base, upper, prec)| <= UINT_SCRATCH <==> prec <= UINT_SCRATCH
  {
    WordDigits(v, base, upper, prec);
  }

  /** The signed printer, which writes only half of the zeros it is asked for, exactly when precision and
      digits together are at most 68. */
  lemma IntFitsExactly(u: nat, prec: int)
    requires u < U32
    ensures |IntBody(u, prec)| <= INT_SCRATCH <==> IntFits(u, prec)
  {
    WordDigits(u, 10, false, prec);
  }

  predicate IntFits(u: nat, prec: int) {
    prec + |Significant(u, 10, false, prec)| <= 2 * INT_SCRATCH
  }

  /** The directive's digits fit the scratch array of the printer it is handed to. */
  predicate ScratchFits(d: Directive, v: int) {
    if IsSigned(d.conv) then IntFits(Magnitude(ToLong(v)), d.prec)
    else IsInteger(d.conv) && d.conv != 112 ==> d.prec <= UINT_SCRATCH
  }

  /** Every directive is complete and fits. */
  predicate Printable(fmt: seq<byte>, i: nat, args: seq<Arg>, k: nat)
    requires i <= |fmt|
    decreases |fmt| - i
  {
    if i == |fmt| then true
    else if fmt[i] != PERCENT then Printable(fmt, i + 1, args, k)
    else
      var d := DirectiveAt(fmt, i + 1, args, k);
      && d.conv != 0 && ScratchFits(d, NumAt(args, d.used))
      && Printable(fmt, d.next, args, d.used + (if Takes(d.conv) then 1 else 0))
  }

  /** The whole text, as if the buffer had no end. */
  function Text(fmt: seq<byte>, i: nat, args: seq<Arg>, k: nat, fp: FloatPrinter): seq<byte>
    requires i <= |fmt|
    decreases |fmt| - i
  {
    if i == |fmt| then []
    else if fmt[i] != PERCENT then [fmt[i]] + Text(fmt, i + 1, args, k, fp)
    else
      var d := DirectiveAt(fmt, i + 1, args, k);
      Convert(d, args, fp) + Text(fmt, d.next, args, d.used + (if Takes(d.conv) then 1 else 0), fp)
  }

  /** The text that is left when a full text is cut for a buffer of that size. */
  function Cut(text: seq<byte>, cap: nat): (s: seq<byte>)
    requires cap > 0
    ensures |s| < cap
  {
    if |text| < cap then text else text[..cap - 1]
  }

  /** A buffer that held `was` after a text has been stored in it. */
  function Terminated(was: seq<byte>, text: seq<byte>): (now: seq<byte>)
    ensures |now| == |was|
  {
    if was == [] then [] else Cut(text, |was|) + [0] + was[|Cut(text, |was|)| + 1..]
  }

  /** `pctx`. A NULL buffer is one of no bytes. */
  class Context {
    const buf: array<byte>
    var pos: nat
    ghost var text: seq<byte>    // everything put so far
    ghost const orig: seq<byte>  // what the buffer held at first

    /** The buffer holds the text, cut so that one byte is left over, and is untouched from there on. */
    ghost predicate Valid()
      reads this, buf
    {
      && pos == |text| && |orig| == buf.Length && Stored() <= buf.Length
      && buf[..] == text[..Stored()] + orig[Stored()..]
    }

    ghost function Stored(): (n: nat)
      reads this
      ensures n <= |text|
    {
      if buf.Length == 0 then 0 else Min(|text|, buf.Length - 1)
    }

    constructor (b: array<byte>)
      ensures Valid() && text == [] && buf == b && orig == b[..]
    {
      buf, pos, text, orig := b, 0, [], b[..];
    }

    method Put(c: byte)
      requires Valid()
      modifies this, buf
      ensures Valid() && text == old(text) + [c]
    {
      if pos + 1 < buf.Length {
        buf[pos] := c;
      }
      pos := pos + 1;
      text := text + [c];
    }

    method PutAll(s: seq<byte>)
      requires Valid()
      modifies this, buf
      ensures Valid() && text == old(text) + s
    {
      for i := 0 to |s|
        invariant Valid() && text == old(text) + s[..i]
      {
        Put(s[i]);
        assert s[..i + 1] == s[..i] + [s[i]];
      }
      assert s[..|s|] == s;
    }

    method PutRep(c: byte, n: int)
      requires Valid()
      modifies this, buf
      ensures Valid() && text == old(text) + Rep(c, n)
    {
      var i := 0;
      while i < n
        invariant Valid() && 0 <= i && (i <= n || i == 0) && text == old(text) + Rep(c, i)
      {
        Put(c);
        assert Rep(c, i + 1) == Rep(c, i) + [c];
        i := i + 1;
      }
    }

    /** Puts out the first len characters of the scratch array, last character first. */
    method PutBackwards(tmp: array<byte>, len: nat)
      requires Valid() && len <= tmp.Length && tmp != buf
      modifies this, buf
      ensures Valid() && text == old(text) + Backwards(tmp[..len])
    {
      var n: nat := len;
      while n > 0
        invariant n <= len && Valid()
        invariant old(text) + Backwards(tmp[..len]) == text + Backwards(tmp[..n])
      {
        n := n - 1;
        assert tmp[..n + 1][..n] == tmp[..n];
        Put(tmp[n]);
      }
    }

    /** The padding and printing half of `emit_uint`. */
    method EmitPadded(tmp: array<byte>, n: nat, ghost body: seq<byte>, width: int, prec: int, zero: bool, left: bool)
      requires Valid() && tmp != buf && Holds(tmp, n, body)
      modifies this, buf
      ensures Valid() && text == old(text) + Padded(body, width, prec, zero, left)
    {
      ghost var before := text;
      var npad := if width > n then width - n else 0;
      if !left && !zero {
        PutRep(SPACE, npad);
      }
      if !left && zero && prec < 0 {
        PutRep(ZERO, npad);
      }
      PutBackwards(tmp, n);
      if left {
        PutRep(SPACE, npad);
      }
      ghost var pad := Rep(if left || !zero then SPACE else ZERO, npad);
      if left {
        Assoc(before, body, pad);
      } else {
        Assoc(before, pad, body);
      }
    }

    method EmitUint(v: nat, base: nat, upper: bool, width: int, prec: int, zero: bool, left: bool)
      requires Valid() && 2 <= base <= 16 && v < U32 && prec <= UINT_SCRATCH
      modifies this, buf
      ensures Valid() && text == old(text) + UintText(v, base, upper, width, prec, zero, left)
    {
      UintFitsExactly(v, base, upper, prec);
      var tmp := new byte[UINT_SCRATCH](_ => 0);
      var n := LastFirst(tmp, v, base, upper, prec);
      n := Extend(tmp, n, prec - n, Significant(v, base, upper, prec));
      EmitPadded(tmp, n, UintBody(v, base, upper, prec), width, prec, zero, left);
    }

    /** The space-padding half of `emit_int`. */
    method EmitSigned(num: array<byte>, n: nat, ghost body: seq<byte>, v: int, width: int, left: bool, plus: bool,
                      space: bool)
      requires Valid() && num != buf && Holds(num, n, body)
      modifies this, buf
      ensures Valid() && text == old(text) + Signed(Sign(v, plus, space), body, width, left)
    {
      ghost var before, sign := text, Sign(v, plus, space);
      var signw := if v < 0 || plus || space then 1 else 0;
      var pad := if width > n + signw then width - (n + signw) else 0;
      if !left {
        PutRep(SPACE, pad);
      }
      PutSign(v, plus, space);
      PutBackwards(num, n);
      if left {
        PutRep(SPACE, pad);
      }
      ghost var p := Rep(SPACE, pad);
      if left {
        Assoc4(before, sign, body, p);
      } else {
        Assoc4(before, p, sign, body);
      }
    }

    /** The zero-padding branch of `emit_int`: the sign comes before the zeros. */
    method EmitZeroPadded(v: int, u: nat, width: nat, prec: int, plus: bool, space: bool)
      requires Valid() && u < U32 && prec < 0
      modifies this, buf
      ensures Valid()
      ensures text == old(text) + (Sign(v, plus, space) + UintText(u, 10, false, width, prec, true, false))
    {
      ghost var before := text;
      PutSign(v, plus, space);
      EmitUint(u, 10, false, width, prec, true, false);
      Assoc(before, Sign(v, plus, space), UintText(u, 10, false, width, prec, true, false));
    }

    method EmitInt(v: int, width: int, prec: int, zero: bool, left: bool, plus: bool, space: bool)
      requires Valid() && LONG_MIN <= v <= LONG_MAX && IntFits(Magnitude(v), prec)
      modifies this, buf
      ensures Valid() && text == old(text) + IntText(v, width, prec, zero, left, plus, space)
    {
      var u := Magnitude(v);
      var signw := if v < 0 || plus || space then 1 else 0;
      var effective := if width - signw < 0 then 0 else width - signw;
      if zero && !left && prec < 0 {
        EmitZeroPadded(v, u, effective, prec, plus, space);
        return;
      }
      IntFitsExactly(u, prec);
      var num := new byte[INT_SCRATCH](_ => 0);
      var n := LastFirst(num, u, 10, false, prec);
      n := Lengthen(num, n, prec, Significant(u, 10, false, prec));
      EmitSigned(num, n, IntBody(u, prec), v, width, left, plus, space);
    }

    method PutSign(v: int, plus: bool, space: bool)
      requires Valid()
      modifies this, buf
      ensures Valid() && text == old(text) + Sign(v, plus, space)
    {
      if v < 0 {
        Put(MINUS);
      } else if plus {
        Put(PLUS);
      } else if space {
        Put(SPACE);
      }
    }

    method PutPadded(s: seq<byte>, width: int, left: bool)
      requires Valid()
      modifies this, buf
      ensures Valid() && text == old(text) + PadText(s, width, left)
    {
      var pad := if width > |s| then width - |s| else 0;
      if !left {
        PutRep(SPACE, pad);
      }
      PutAll(s);
      if left {
        PutRep(SPACE, pad);
      }
    }

    /** The cases of the switch that print integers. */
    method EmitInteger(d: Directive, v: int)
      requires Valid() && IsInteger(d.conv) && ScratchFits(d, v)
      modifies this, buf
      ensures Valid() && text == old(text) + ConvertInteger(d, v)
    {
      var f, u := d.flags, Unsigned(v);
      if IsSigned(d.conv) {
        EmitInt(ToLong(v), d.width, d.prec, f.zero, f.left, f.plus, f.space);
      } else if d.conv == 117 {
        EmitUint(u, 10, false, d.width, d.prec, f.zero, f.left);
      } else if d.conv == 120 || d.conv == 88 {
        EmitMarked(HexMark(f.hash, u, d.conv), u, d.conv == 88, d.width, d.prec, f.zero, f.left);
      } else if d.conv == 111 {
        EmitUint(u, 8, false, d.width, d.prec, f.zero, f.left);
      } else {
        EmitMarked([48, 120], u, false, 0, 8, true, false);
      }
    }

    method EmitMarked(mark: seq<byte>, u: nat, upper: bool, width: int, prec: int, zero: bool, left: bool)
      requires Valid() && u < U32 && prec <= UINT_SCRATCH
      modifies this, buf
      ensures Valid() && text == old(text) + (mark + UintText(u, 16, upper, width, prec, zero, left))
    {
      ghost var before := text;
      PutAll(mark);
      EmitUint(u, 16, upper, width, prec, zero, left);
      Assoc(before, mark, UintText(u, 16, upper, width, prec, zero, left));
    }

    /** The switch on the conversion. */
    method EmitDirective(d: Directive, args: seq<Arg>, fp: FloatPrinter)
      requires Valid() && ScratchFits(d, NumAt(args, d.used))
      modifies this, buf
      ensures Valid() && text == old(text) + Convert(d, args, fp)
    {
      if IsInteger(d.conv) {
        EmitInteger(d, NumAt(args, d.used));
      } else if d.conv == 115 {
        var s := StrAt(args, d.used);
        PutPadded(Prefix(if s.Some? then s.value else NULL_TEXT, d.prec), d.width, d.flags.left);
      } else if d.conv == 99 {
        PutPadded([NumAt(args, d.used) % 256], d.width, d.flags.left);
      } else if IsFloat(d.conv) {
        PutAll(fp(d, d.used));
      } else if d.conv == PERCENT {
        Put(PERCENT);
      } else {
        PutAll([PERCENT, d.conv]);
      }
    }

    /** The terminating NUL. */
    method Finish() returns (n: nat)
      requires Valid()
      modifies buf
      ensures n == |text|
      ensures buf[..] == Terminated(orig, text)
    {
      if buf.Length > 0 {
        buf[if pos < buf.Length then pos else buf.Length - 1] := 0;
      }
      n := pos;
    }
  }

  lemma Assoc4(a: seq<byte>, b: seq<byte>, c: seq<byte>, d: seq<byte>)
    ensures ((a + b) + c) + d == a + (b + c + d)
  {
  }

  /** The first n characters of a scratch array, read backwards. */
  ghost predicate Holds(tmp: array<byte>, n: nat, body: seq<byte>)
    reads tmp
  {
    n <= tmp.Length && n == |body| && Backwards(tmp[..n]) == body
  }

  lemma StoredLast(was: seq<byte>, now: seq<byte>, c: byte)
    requires now == was + [c]
    ensures Backwards(now) == [c] + Backwards(was)
  {
    assert now[..|now| - 1] == was;
  }

  /** The digit loop: least significant first. */
  method LastFirst(tmp: array<byte>, v: nat, base: nat, upper: bool, prec: int) returns (n: nat)
    requires 2 <= base <= 16 && |Significant(v, base, upper, prec)| <= tmp.Length
    modifies tmp
    ensures Holds(tmp, n, Significant(v, base, upper, prec))
  {
    n := 0;
    if v == 0 && prec != 0 {
      tmp[n] := ZERO;
      n := n + 1;
      StoredLast([], tmp[..n], ZERO);
    }
    var w: nat := v;
    while w > 0
      invariant n + |BaseDigits(w, base, upper)| == |Significant(v, base, upper, prec)|
      invariant Significant(v, base, upper, prec) == BaseDigits(w, base, upper) + Backwards(tmp[..n])
    {
      var c, next := LastDigit(w, base, upper);
      ghost var was := tmp[..n];
      tmp[n] := c;
      n := n + 1;
      StoredLast(was, tmp[..n], c);
      Assoc(BaseDigits(next, base, upper), [c], Backwards(was));
      w := next;
    }
  }

  method LastDigit(w: nat, base: nat, upper: bool) returns (c: byte, next: nat)
    requires w > 0 && 2 <= base <= 16
    ensures next < w && BaseDigits(w, base, upper) == BaseDigits(next, base, upper) + [c]
  {
    c, next := DigitChar(w % base, upper), w / base;
  }

  lemma OneMoreZero(was: seq<byte>, now: seq<byte>, i: nat, rest: seq<byte>)
    requires now == was + [ZERO] && Backwards(was) == Rep(ZERO, i) + rest
    ensures Backwards(now) == Rep(ZERO, i + 1) + rest
  {
    StoredLast(was, now, ZERO);
    assert Rep(ZERO, i + 1) == [ZERO] + Rep(ZERO, i);
  }

  /** The precision loop of `emit_uint`, whose bound is fixed beforehand. */
  method Extend(tmp: array<byte>, from: nat, short: int, ghost digits: seq<byte>) returns (n: nat)
    requires Holds(tmp, from, digits) && from + |Rep(ZERO, short)| <= tmp.Length
    modifies tmp
    ensures Holds(tmp, n, Rep(ZERO, short) + digits)
  {
    n := from;
    var i := 0;
    while i < short
      invariant 0 <= i && (i <= short || i == 0) && n == from + i <= tmp.Length
      invariant Backwards(tmp[..n]) == Rep(ZERO, i) + digits
    {
      ghost var was := tmp[..n];
      tmp[n] := ZERO;
      n := n + 1;
      OneMoreZero(was, tmp[..n], i, digits);
      i := i + 1;
    }
  }

  /** The precision loop of `emit_int`, whose bound `prec - n` shrinks as it writes. */
  method Lengthen(num: array<byte>, from: nat, prec: int, ghost digits: seq<byte>) returns (n: nat)
    requires Holds(num, from, digits) && from + HalfShort(prec, from) <= num.Length
    modifies num
    ensures Holds(num, n, Rep(ZERO, HalfShort(prec, from)) + digits)
  {
    n := from;
    if prec > n {
      var i := 0;
      while i < prec - n
        invariant 0 <= i <= HalfShort(prec, from) && n == from + i
        invariant Backwards(num[..n]) == Rep(ZERO, i) + digits
        decreases prec - n
      {
        ghost var was := num[..n];
        num[n] := ZERO;
        n := n + 1;
        OneMoreZero(was, num[..n], i, digits);
        i := i + 1;
      }
    }
  }
}
