/** The one-line hexadecimal transport of a save buffer: a tag, the frame number and two digits a byte, read
    back with blanks anywhere between the bytes. */
module HexTransport {
  import opened Bytes
  import opened Decimal
  import opened SaveStateSpec

  const SPACE: byte := 32
  const NEWLINE: byte := 10

  /** "BUFFER ". */
  const BUFFER: seq<byte> := [66, 85, 70, 70, 69, 82, 32]

  function HexDigit(n: nat): (c: byte)
    requires n < 16
  {
    if n < 10 then 48 + n else 87 + n
  }

  function Hex(s: seq<byte>): (t: seq<byte>)
    ensures |t| == 2 * |s|
  {
    if s == [] then [] else Hex(s[..|s| - 1]) + [HexDigit(s[|s| - 1] / 16), HexDigit(s[|s| - 1] % 16)]
  }

  function Line(frame: nat, buf: seq<byte>): seq<byte> {
    BUFFER + Digits(frame) + [SPACE] + Hex(buf) + [NEWLINE]
  }

  lemma {:induction false} HexAppend(s: seq<byte>, t: seq<byte>)
    ensures Hex(s + t) == Hex(s) + Hex(t)
    decreases |t|
  {
    if t == [] {
      assert s + t == s;
    } else {
      var front, last := t[..|t| - 1], t[|t| - 1];
      HexAppend(s, front);
      assert (s + t)[..|s + t| - 1] == s + front;
    }
  }

  /** "0123456789abcdef". */
  const HEX_DIGITS: seq<byte> := [48, 49, 50, 51, 52, 53, 54, 55, 56, 57, 97, 98, 99, 100, 101, 102]

  /** Two lower-case digits a byte, the high half first. */
  lemma {:induction false} HexAt(s: seq<byte>, i: nat)
    requires i < |s|
    ensures Hex(s)[2 * i] == HEX_DIGITS[s[i] / 16] && Hex(s)[2 * i + 1] == HEX_DIGITS[s[i] % 16]
  {
    if i < |s| - 1 {
      HexAt(s[..|s| - 1], i);
    }
  }

  /** "BUFFER 70 0fa0" and a newline. */
  lemma SampleLine()
    ensures Line(70, [0x0f, 0xa0])
         == [66, 85, 70, 70, 69, 82, 32, 55, 48, 32, 48, 102, 97, 48, 10]
  {
    assert Digits(70) == Digits(7) + [48];
    assert [0x0f, 0xa0][..1] == [0x0f] && [0x0f][..0] == [];
    assert Hex([0x0f]) == Hex([]) + [48, 102];
    assert Hex([0x0f, 0xa0]) == Hex([0x0f]) + [97, 48];
  }

  /** One chunk: at most 256 bytes, so that no single print is cut at 1024 characters. */
  method Chunk(buf: seq<byte>, at: nat, n: nat) returns (chunk: array<byte>)
    requires at + n <= |buf| && n <= 256
    ensures fresh(chunk) && chunk.Length == 513 && chunk[..2 * n] == Hex(buf[at..at + n]) && chunk[2 * n] == 0
  {
    chunk := new byte[513](_ => 0);
    for i := 0 to n
      invariant chunk[..2 * i] == Hex(buf[at..at + i])
    {
      var b := buf[at + i];
      chunk[i * 2 + 0] := HexDigit(b / 16);
      chunk[i * 2 + 1] := HexDigit(b % 16);
      assert buf[at..at + i + 1][..i] == buf[at..at + i];
    }
    chunk[n * 2] := 0;
  }

  lemma MoreHex(prefix: seq<byte>, buf: seq<byte>, at: nat, n: nat)
    requires at + n <= |buf|
    ensures (prefix + Hex(buf[..at])) + Hex(buf[at..at + n]) == prefix + Hex(buf[..at + n])
  {
    HexAppend(buf[..at], buf[at..at + n]);
    assert buf[..at] + buf[at..at + n] == buf[..at + n];
    Assoc(prefix, Hex(buf[..at]), Hex(buf[at..at + n]));
  }

  /** `save_state_emit_hex`: everything printed, in order. */
  method EmitHex(buf: seq<byte>) returns (out: seq<byte>)
    requires |buf| >= HEADER_SIZE
    ensures out == Line(FrameOf(buf), buf)
  {
    out := BUFFER + Digits(FrameOf(buf)) + [SPACE];
    ghost var prefix := out;
    var emitted := 0;
    while emitted < |buf|
      invariant emitted <= |buf| && out == prefix + Hex(buf[..emitted])
    {
      var n := |buf| - emitted;
      if n > 256 {
        n := 256;
      }
      var chunk := Chunk(buf, emitted, n);
      MoreHex(prefix, buf, emitted, n);
      out := out + chunk[..2 * n];
      emitted := emitted + n;
    }
    assert buf[..|buf|] == buf;
    out := out + [NEWLINE];
  }

  /** `hex_digit`; 16 stands for its -1. */
  function DigitValue(c: byte): (v: nat)
    ensures v <= 16
  {
    if 48 <= c <= 57 then c - 48
    else if 97 <= c <= 102 then c - 97 + 10
    else if 65 <= c <= 70 then c - 65 + 10
    else 16
  }

  predicate IsSpace(c: byte) {
    c == 32 || c == 9 || c == 10 || c == 13
  }

  function SkipSpaces(s: seq<byte>, i: nat): (j: nat)
    requires i <= |s|
    ensures i <= j <= |s|
    decreases |s| - i
  {
    if i < |s| && IsSpace(s[i]) then SkipSpaces(s, i + 1) else i
  }

  function SkipDigits(s: seq<byte>, i: nat): (j: nat)
    requires i <= |s|
    ensures i <= j <= |s|
    decreases |s| - i
  {
    if i < |s| && IsDigit(s[i]) then SkipDigits(s, i + 1) else i
  }

  /** Where the payload starts: after blanks, and after "BUFFER <frame> " when that is there. */
  function PayloadStart(s: seq<byte>): (i: nat)
    ensures i <= |s|
  {
    var i := SkipSpaces(s, 0);
    if i + 7 < |s| && s[i..i + 7] == BUFFER then SkipSpaces(s, SkipDigits(s, i + 7)) else i
  }

  /** The bytes the text from i on denotes, after `out` of them; `None` is the result -1. */
  function Decode(s: seq<byte>, i: nat, out: nat, cap: nat): (r: Option<seq<byte>>)
    requires i <= |s|
    ensures r.Some? && out <= cap ==> out + |r.value| <= cap
    decreases |s| - i
  {
    if i == |s| then Some([])
    else if IsSpace(s[i]) then Decode(s, i + 1, out, cap)
    else if i + 1 >= |s| || DigitValue(s[i]) == 16 || DigitValue(s[i + 1]) == 16 || out >= cap then None
    else
      var rest := Decode(s, i + 2, out + 1, cap);
      if rest.None? then None else Some([16 * DigitValue(s[i]) + DigitValue(s[i + 1])] + rest.value)
  }

  /** `save_io_parse_hex`. */
  method ParseHex(s: seq<byte>, dst: array<byte>) returns (n: int)
    modifies dst
    ensures var r := Decode(s, PayloadStart(s), 0, dst.Length);
            if r.None? then n == -1 else n == |r.value| && dst[..n] == r.value
  {
    var i := Payload(s);
    var out := 0;
    ghost var want := Decode(s, i, 0, dst.Length);
    assert want.Some? ==> dst[..0] + want.value == want.value;
    while i < |s|
      invariant i <= |s| && out <= dst.Length
      invariant Resumes(want, dst[..out], Decode(s, i, out, dst.Length))
      decreases |s| - i
    {
      if IsSpace(s[i]) {
        i := i + 1;
        continue;
      }
      if i + 1 >= |s| {
        return -1;
      }
      var hi, lo := DigitValue(s[i]), DigitValue(s[i + 1]);
      if hi == 16 || lo == 16 {
        return -1;
      }
      if out >= dst.Length {
        return -1;
      }
      ghost var before, rest := dst[..out], Decode(s, i + 2, out + 1, dst.Length);
      dst[out] := 16 * hi + lo;
      out := out + 1;
      assert dst[..out] == before + [16 * hi + lo];
      assert rest.Some? ==> before + ([16 * hi + lo] + rest.value) == (before + [16 * hi + lo]) + rest.value;
      i := i + 2;
    }
    n := out;
  }

  /** What is wanted is what has been decoded and what is still to come. */
  ghost predicate Resumes(want: Option<seq<byte>>, done: seq<byte>, rest: Option<seq<byte>>) {
    if rest.None? then want.None? else want == Some(done + rest.value)
  }

  /** The first two loops and the prefix test between them. */
  method Payload(s: seq<byte>) returns (i: nat)
    ensures i == PayloadStart(s)
  {
    i := Blanks(s, 0);
    if i + 7 < |s| && s[i] == 66 && s[i + 1] == 85 && s[i + 2] == 70 && s[i + 3] == 70 && s[i + 4] == 69
       && s[i + 5] == 82 && s[i + 6] == 32 {
      assert s[i..i + 7] == BUFFER;
      i := i + 7;
      ghost var from := i;
      while i < |s| && IsDigit(s[i])
        invariant i <= |s| && SkipDigits(s, from) == SkipDigits(s, i)
      {
        i := i + 1;
      }
      i := Blanks(s, i);
    } else if i + 7 < |s| {
      PrefixDiffers(s, i);
    }
  }

  method Blanks(s: seq<byte>, from: nat) returns (i: nat)
    requires from <= |s|
    ensures i == SkipSpaces(s, from)
  {
    i := from;
    while i < |s| && IsSpace(s[i])
      invariant i <= |s| && SkipSpaces(s, from) == SkipSpaces(s, i)
    {
      i := i + 1;
    }
  }

  lemma PrefixDiffers(s: seq<byte>, i: nat)
    requires i + 7 < |s|
    requires !(&& s[i] == 66 && s[i + 1] == 85 && s[i + 2] == 70 && s[i + 3] == 70
               && s[i + 4] == 69 && s[i + 5] == 82 && s[i + 6] == 32)
    ensures s[i..i + 7] != BUFFER
  {
    var t := s[i..i + 7];
    assert t[0] == s[i] && t[1] == s[i + 1] && t[2] == s[i + 2] && t[3] == s[i + 3];
    assert t[4] == s[i + 4] && t[5] == s[i + 5] && t[6] == s[i + 6];
  }

  // The round trip.

  lemma HexFront(buf: seq<byte>)
    requires buf != []
    ensures Hex(buf) == [HexDigit(buf[0] / 16), HexDigit(buf[0] % 16)] + Hex(buf[1..])
  {
    HexAppend([buf[0]], buf[1..]);
    assert [buf[0]] + buf[1..] == buf && [buf[0]][..0] == [];
  }

  /** Decoding the rest of a line whose payload starts at i. */
  lemma {:induction false} DecodeHex(s: seq<byte>, i: nat, buf: seq<byte>, out: nat, cap: nat)
    requires i <= |s| && s[i..] == Hex(buf) + [NEWLINE] && out + |buf| <= cap
    ensures Decode(s, i, out, cap) == Some(buf)
    decreases |buf|
  {
    if buf == [] {
      assert s[i..] == [NEWLINE] && s[i] == s[i..][0] && |s| == i + 1;
    } else {
      HexFront(buf);
      assert s[i] == s[i..][0] && s[i + 1] == s[i..][1];
      assert s[i + 2..] == s[i..][2..] == Hex(buf[1..]) + [NEWLINE];
      DecodeHex(s, i + 2, buf[1..], out + 1, cap);
      assert 16 * (buf[0] / 16) + buf[0] % 16 == buf[0] && buf == [buf[0]] + buf[1..];
    }
  }

  lemma {:induction false} SkipRun(s: seq<byte>, i: nat, digits: seq<byte>, rest: seq<byte>)
    requires i <= |s| && s[i..] == digits + rest && rest != [] && !IsDigit(rest[0])
    requires forall k :: 0 <= k < |digits| ==> IsDigit(digits[k])
    ensures SkipDigits(s, i) == i + |digits|
    decreases |digits|
  {
    if digits == [] {
      assert s[i] == s[i..][0];
    } else {
      assert s[i] == s[i..][0] && s[i + 1..] == s[i..][1..] == digits[1..] + rest;
      SkipRun(s, i + 1, digits[1..], rest);
    }
  }

  lemma FirstOfHex(buf: seq<byte>)
    requires buf != []
    ensures !IsSpace(Hex(buf)[0])
  {
    HexFront(buf);
  }

  /** Parsing an emitted line gives back exactly the buffer, whatever the frame number in front of it. */
  lemma LineDecodes(frame: nat, buf: seq<byte>, cap: nat)
    requires 0 < |buf| <= cap
    ensures Decode(Line(frame, buf), PayloadStart(Line(frame, buf)), 0, cap) == Some(buf)
  {
    var s := Line(frame, buf);
    LineShape(frame, buf);
    DecodeHex(s, 8 + |Digits(frame)|, buf, 0, cap);
  }

  lemma LineShape(frame: nat, buf: seq<byte>)
    requires buf != []
    ensures var s, at := Line(frame, buf), 8 + |Digits(frame)|;
            PayloadStart(s) == at <= |s| && s[at..] == Hex(buf) + [NEWLINE]
  {
    var s, d, h := Line(frame, buf), Digits(frame), Hex(buf) + [NEWLINE];
    assert s == BUFFER + d + [SPACE] + h;
    Layout(BUFFER, d, h);
    FirstOfHex(buf);
    StartsAt(s, 7 + |d|);
  }

  lemma Layout(tag: seq<byte>, d: seq<byte>, h: seq<byte>)
    requires |tag| == 7 && (forall k :: 0 <= k < |d| ==> IsDigit(d[k])) && h != []
    ensures var s := tag + d + [SPACE] + h;
            && s[0..0 + 7] == tag && SkipDigits(s, 7) == 7 + |d|
            && s[7 + |d|] == SPACE && s[8 + |d|..] == h && s[8 + |d|] == h[0]
  {
    var s := tag + d + [SPACE] + h;
    SkipRun(s, 7, d, [SPACE] + h);
  }

  lemma StartsAt(s: seq<byte>, j: nat)
    requires 7 < j + 1 < |s| && s[0..0 + 7] == BUFFER
    requires SkipDigits(s, 7) == j && s[j] == SPACE && !IsSpace(s[j + 1])
    ensures PayloadStart(s) == j + 1
  {
    assert s[0] == s[0..0 + 7][0] == 66;
    assert SkipSpaces(s, 0) == 0 && SkipSpaces(s, j + 1) == j + 1 && SkipSpaces(s, j) == j + 1;
  }
}
