/** Reading a directive gives back the flags, width, precision and conversion it was written with. */
module Directives {
  import opened Bytes
  import opened Decimal
  import opened Printer
  import opened Vsnprintf

  const STAR: byte := 42
  const DOT: byte := 46

  /** s stands in the format at i, and something comes behind it. */
  predicate Stands(fmt: seq<byte>, i: nat, s: seq<byte>) {
    i + |s| < |fmt| && fmt[i..i + |s|] == s
  }

  lemma First(fmt: seq<byte>, i: nat, s: seq<byte>)
    requires Stands(fmt, i, s) && s != []
    ensures fmt[i] == s[0]
  {
    assert fmt[i] == fmt[i..i + |s|][0];
  }

  lemma Behind(fmt: seq<byte>, i: nat, a: seq<byte>, b: seq<byte>)
    requires Stands(fmt, i, a + b)
    ensures Stands(fmt, i + |a|, b)
  {
    assert fmt[i + |a|..i + |a| + |b|] == fmt[i..i + |a + b|][|a|..] == (a + b)[|a|..] == b;
  }

  predicate AllFlags(s: seq<byte>) {
    forall i :: 0 <= i < |s| ==> IsFlag(s[i])
  }

  /** '-', '+', '0', ' ' and '#' in any order and number. */
  function FlagsOf(s: seq<byte>): Flags {
    Flags(45 in s, 43 in s, 48 in s, 32 in s, 35 in s)
  }

  lemma OneMoreFlag(s: seq<byte>, n: nat)
    requires n < |s| && IsFlag(s[n])
    ensures WithFlag(FlagsOf(s[..n]), s[n]) == FlagsOf(s[..n + 1])
  {
    assert s[..n + 1] == s[..n] + [s[n]];
  }

  lemma {:induction false} FlagsScanned(fmt: seq<byte>, i: nat, s: seq<byte>, n: nat)
    requires Stands(fmt, i, s) && AllFlags(s) && !IsFlag(fmt[i + |s|]) && n <= |s|
    ensures ScanFlags(fmt, i + n, FlagsOf(s[..n])) == (FlagsOf(s), i + |s|)
    decreases |s| - n
  {
    if n == |s| {
      assert s[..n] == s;
    } else {
      assert fmt[i + n] == fmt[i..i + |s|][n] == s[n];
      OneMoreFlag(s, n);
      FlagsScanned(fmt, i, s, n + 1);
    }
  }

  lemma {:induction false} NumberScanned(fmt: seq<byte>, i: nat, t: seq<byte>, n: nat)
    requires Stands(fmt, i, t) && AllDigits(t) && !IsDigit(fmt[i + |t|]) && n <= |t|
    ensures Value(t[..n]) >= 0 && Value(t) >= 0
    ensures ScanNumber(fmt, i + n, Value(t[..n])) == (Value(t), i + |t|)
    decreases |t| - n
  {
    ValueGrows(t, n);
    if n == |t| {
      assert t[..n] == t;
    } else {
      assert fmt[i + n] == fmt[i..i + |t|][n] == t[n];
      assert t[..n + 1][..n] == t[..n];
      NumberScanned(fmt, i, t, n + 1);
    }
  }

  lemma {:induction false} LengthScanned(fmt: seq<byte>, i: nat, s: seq<byte>, n: nat)
    requires Stands(fmt, i, s) && (forall k :: 0 <= k < |s| ==> IsLength(s[k])) && !IsLength(fmt[i + |s|]) && n <= |s|
    ensures SkipLength(fmt, i + n) == i + |s|
    decreases |s| - n
  {
    if n < |s| {
      assert fmt[i + n] == fmt[i..i + |s|][n] == s[n];
      LengthScanned(fmt, i, s, n + 1);
    }
  }

  /** How a width or a precision is written: digits, none for zero, or '*' for the next argument. */
  datatype Field = Literal(t: seq<byte>) | FromArgument

  function FieldText(f: Field): seq<byte> {
    if f.FromArgument? then [STAR] else f.t
  }

  predicate FieldOk(f: Field) {
    f.Literal? ==> AllDigits(f.t)
  }

  function FieldValue(f: Field, args: seq<Arg>, k: nat): int {
    if f.FromArgument? then NumAt(args, k) else Value(f.t)
  }

  /** How many arguments it takes. */
  function Used(f: Field): nat {
    if f.FromArgument? then 1 else 0
  }

  lemma DigitsScanned(fmt: seq<byte>, i: nat, t: seq<byte>)
    requires Stands(fmt, i, t) && AllDigits(t) && !IsDigit(fmt[i + |t|])
    ensures ScanNumber(fmt, i, 0) == (Value(t), i + |t|)
  {
    assert t[..0] == [];
    NumberScanned(fmt, i, t, 0);
  }

  predicate Clear(c: byte) {
    !IsFlag(c) && !IsDigit(c) && c != STAR
  }

  lemma FieldScanned(fmt: seq<byte>, i: nat, f: Field, args: seq<Arg>, k: nat)
    requires Stands(fmt, i, FieldText(f)) && FieldOk(f) && Clear(fmt[i + |FieldText(f)|])
    ensures ScanField(fmt, i, args, k) == (FieldValue(f, args, k), i + |FieldText(f)|, k + Used(f))
  {
    if FieldText(f) != [] {
      First(fmt, i, FieldText(f));
    }
    if f.Literal? {
      DigitsScanned(fmt, i, f.t);
    }
  }

  /** The precision with its dot; nothing when it is left out altogether. */
  function PrecisionText(p: Option<Field>): seq<byte> {
    if p.Some? then [DOT] + FieldText(p.value) else []
  }

  /** A character that belongs to none of the parts before it. */
  predicate Ender(c: byte) {
    !IsFlag(c) && !IsDigit(c) && !IsLength(c) && c != STAR && c != DOT && c != 0
  }

  /** A width does not start with a zero, which would be a flag. */
  predicate WidthOk(w: Field) {
    FieldOk(w) && (w.Literal? && w.t != [] ==> w.t[0] != 48)
  }

  /** The flags at i and the width at j. */
  predicate FrontStands(fmt: seq<byte>, i: nat, flags: seq<byte>, j: nat, w: Field, k: nat) {
    && j == i + |flags| && k == j + |FieldText(w)| && AllFlags(flags) && WidthOk(w)
    && Stands(fmt, i, flags) && Stands(fmt, j, FieldText(w))
  }

  /** The precision at k, length modifiers at l, and at c the conversion. */
  predicate BackStands(fmt: seq<byte>, k: nat, p: Option<Field>, l: nat, length: seq<byte>, c: nat) {
    && l == k + |PrecisionText(p)| && c == l + |length| && (forall m :: 0 <= m < |length| ==> IsLength(length[m]))
    && Stands(fmt, k, PrecisionText(p)) && Stands(fmt, l, length) && Ender(fmt[c]) && (p.Some? ==> FieldOk(p.value))
  }

  // No part starts with what would still belong to the one before.

  lemma LengthIsClear(fmt: seq<byte>, l: nat, length: seq<byte>)
    requires Stands(fmt, l, length) && (forall m :: 0 <= m < |length| ==> IsLength(length[m]))
    requires Ender(fmt[l + |length|])
    ensures Clear(fmt[l]) && fmt[l] != DOT
  {
    if length != [] {
      First(fmt, l, length);
    }
  }

  lemma PrecisionIsClear(fmt: seq<byte>, k: nat, p: Option<Field>)
    requires Stands(fmt, k, PrecisionText(p))
    requires Clear(fmt[k + |PrecisionText(p)|]) && fmt[k + |PrecisionText(p)|] != DOT
    ensures Clear(fmt[k]) && (fmt[k] == DOT <==> p.Some?)
  {
    if p.Some? {
      First(fmt, k, PrecisionText(p));
    }
  }

  lemma WidthIsNoFlag(fmt: seq<byte>, j: nat, w: Field)
    requires Stands(fmt, j, FieldText(w)) && WidthOk(w) && Clear(fmt[j + |FieldText(w)|])
    ensures !IsFlag(fmt[j])
  {
    if FieldText(w) != [] {
      First(fmt, j, FieldText(w));
    }
  }

  function PrecisionAt(fmt: seq<byte>, k: nat, args: seq<Arg>, u: nat): (int, nat, nat)
    requires k <= |fmt|
  {
    if At(fmt, k) == 46 then ScanField(fmt, k + 1, args, u) else (-1, k, u)
  }

  function FlagsAt(fmt: seq<byte>, i: nat): (Flags, nat)
    requires i <= |fmt|
  {
    ScanFlags(fmt, i, Flags(false, false, false, false, false))
  }

  function LengthAt(fmt: seq<byte>, l: nat): nat
    requires l <= |fmt|
  {
    SkipLength(fmt, l)
  }

  lemma PrecisionRead(fmt: seq<byte>, k: nat, p: Option<Field>, args: seq<Arg>, u: nat)
    requires Stands(fmt, k, PrecisionText(p)) && (fmt[k] == DOT <==> p.Some?)
    requires Clear(fmt[k + |PrecisionText(p)|]) && (p.Some? ==> FieldOk(p.value))
    ensures PrecisionAt(fmt, k, args, u)
         == (if p.Some? then FieldValue(p.value, args, u) else -1, k + |PrecisionText(p)|,
             u + (if p.Some? then Used(p.value) else 0))
  {
    if p.Some? {
      Behind(fmt, k, [DOT], FieldText(p.value));
      FieldScanned(fmt, k + 1, p.value, args, u);
    }
  }

  /** Flags in any order and number, then a width. */
  lemma FrontRead(fmt: seq<byte>, i: nat, flags: seq<byte>, j: nat, w: Field, k: nat, args: seq<Arg>, u: nat)
    requires FrontStands(fmt, i, flags, j, w, k) && Clear(fmt[k])
    ensures FlagsAt(fmt, i) == (FlagsOf(flags), j)
    ensures ScanField(fmt, j, args, u) == (FieldValue(w, args, u), k, u + Used(w))
  {
    WidthIsNoFlag(fmt, j, w);
    assert FlagsOf(flags[..0]) == Flags(false, false, false, false, false);
    FlagsScanned(fmt, i, flags, 0);
    FieldScanned(fmt, j, w, args, u);
  }

  function PrecisionValue(p: Option<Field>, args: seq<Arg>, u: nat): int {
    if p.Some? then FieldValue(p.value, args, u) else -1
  }

  lemma BackIsClear(fmt: seq<byte>, k: nat, p: Option<Field>, l: nat, length: seq<byte>, c: nat)
    requires BackStands(fmt, k, p, l, length, c)
    ensures Clear(fmt[k]) && (fmt[k] == DOT <==> p.Some?) && Clear(fmt[l])
  {
    LengthIsClear(fmt, l, length);
    PrecisionIsClear(fmt, k, p);
  }

  /** Length modifiers are passed over. */
  lemma LengthRead(fmt: seq<byte>, k: nat, p: Option<Field>, l: nat, length: seq<byte>, c: nat)
    requires BackStands(fmt, k, p, l, length, c)
    ensures LengthAt(fmt, l) == c
  {
    LengthScanned(fmt, l, length, 0);
  }

  /** A precision, read as -1 when there is none. */
  lemma BackRead(fmt: seq<byte>, k: nat, p: Option<Field>, l: nat, length: seq<byte>, c: nat, args: seq<Arg>, u: nat)
    requires BackStands(fmt, k, p, l, length, c)
    ensures PrecisionAt(fmt, k, args, u)
         == (PrecisionValue(p, args, u), l, u + (if p.Some? then Used(p.value) else 0))
  {
    BackIsClear(fmt, k, p, l, length, c);
    PrecisionRead(fmt, k, p, args, u);
  }

  /** A directive is its flags, its width, its precision and, past the length modifiers, its conversion; the
      format goes on behind that. */
  lemma DirectiveParts(fmt: seq<byte>, i: nat, args: seq<Arg>, u: nat, flags: Flags, j: nat, width: int, k: nat, v: nat,
                       prec: int, l: nat, w: nat, c: nat)
    requires i <= |fmt| && j <= |fmt| && k <= |fmt| && l <= |fmt| && c < |fmt|
    requires FlagsAt(fmt, i) == (flags, j) && ScanField(fmt, j, args, u) == (width, k, v)
    requires PrecisionAt(fmt, k, args, v) == (prec, l, w) && LengthAt(fmt, l) == c
    ensures DirectiveAt(fmt, i, args, u) == Directive(flags, width, prec, fmt[c], c + 1, w)
  {
  }
}
