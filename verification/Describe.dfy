/** The bounded string sink and the text that the layout hash is taken over: one record for each region, with
    its name, its size and what its describe callback emits. */
module Describe {
  import opened Arithmetic
  import opened Bytes
  import opened Decimal

  /** A registry entry; `fields` is what its describe callback emits ([] when there is none). */
  datatype Entry = Entry(name: seq<byte>, size: nat, fields: seq<byte>)

  const COLON: byte := 58

  /** "REGION:" and ":size=". */
  const REGION_TAG: seq<byte> := [82, 69, 71, 73, 79, 78, 58]
  const SIZE_TAG: seq<byte> := [58, 115, 105, 122, 101, 61]

  function RegionText(e: Entry): seq<byte> {
    REGION_TAG + e.name + SIZE_TAG + Digits(e.size) + [COLON] + e.fields + [0]
  }

  function Description(es: seq<Entry>): seq<byte> {
    if es == [] then [] else Description(es[..|es| - 1]) + RegionText(es[|es| - 1])
  }

  function TotalSize(es: seq<Entry>): nat {
    if es == [] then 0 else TotalSize(es[..|es| - 1]) + es[|es| - 1].size
  }

  lemma SampleRegions()
    ensures RegionText(Entry([113], 57, [118]))
         == [82, 69, 71, 73, 79, 78, 58, 113, 58, 115, 105, 122, 101, 61, 53, 55, 58, 118, 0]
    ensures RegionText(Entry([116], 8, []))
         == [82, 69, 71, 73, 79, 78, 58, 116, 58, 115, 105, 122, 101, 61, 56, 58, 0]
  {
    assert Digits(57) == Digits(5) + [55];
  }

  /** "REGION:q:size=57:v" and "REGION:t:size=8:", each closed by a NUL. */
  lemma SampleDescription()
    ensures Description([Entry([113], 57, [118]), Entry([116], 8, [])])
         == [82, 69, 71, 73, 79, 78, 58, 113, 58, 115, 105, 122, 101, 61, 53, 55, 58, 118, 0]
            + [82, 69, 71, 73, 79, 78, 58, 116, 58, 115, 105, 122, 101, 61, 56, 58, 0]
  {
    var a, b := Entry([113], 57, [118]), Entry([116], 8, []);
    SampleRegions();
    assert [a, b][..1] == [a] && [a][..0] == [];
    assert Description([a]) == Description([]) + RegionText(a);
    assert Description([a, b]) == Description([a]) + RegionText(b);
  }

  class StringSink {
    const buf: array<byte>
    var pos: nat
    var overflowed: bool
    ghost var text: seq<byte>  // everything put so far

    /** The buffer holds the text, cut at the capacity, and says so if it was cut. */
    ghost predicate Valid()
      reads this, buf
    {
      && pos == Min(|text|, buf.Length) && buf[..pos] == text[..pos]
      && (overflowed <==> |text| > buf.Length)
    }

    constructor (cap: nat)
      ensures Valid() && text == [] && fresh(buf) && buf.Length == cap
    {
      buf := new byte[cap](_ => 0);
      pos, overflowed, text := 0, false, [];
    }

    method Putc(c: byte)
      requires Valid()
      modifies this, buf
      ensures Valid() && text == old(text) + [c]
    {
      text := text + [c];
      if pos + 1 > buf.Length {
        overflowed := true;
        return;
      }
      buf[pos] := c;
      pos := pos + 1;
    }

    /** A C string stops at its first NUL. */
    method Puts(s: seq<byte>)
      requires Valid() && 0 !in s
      modifies this, buf
      ensures Valid() && text == old(text) + s
    {
      for i := 0 to |s|
        invariant Valid() && text == old(text) + s[..i]
      {
        Putc(s[i]);
        assert s[..i + 1] == s[..i] + [s[i]];
      }
      assert s[..|s|] == s;
    }

    /** The digits of v, least significant first, into the scratch array. */
    static method Reversed(value: nat) returns (tmp: seq<byte>)
      requires value > 0
      ensures Backwards(tmp) == Digits(value)
    {
      var v: nat := value;
      tmp := [];
      while v > 0
        invariant Digits(value) == (if v > 0 then Digits(v) else []) + Backwards(tmp)
      {
        assert (tmp + [48 + v % 10])[..|tmp|] == tmp;
        tmp := tmp + [48 + v % 10];
        v := v / 10;
      }
    }

    method Putu(v: nat)
      requires Valid()
      modifies this, buf
      ensures Valid() && text == old(text) + Digits(v)
    {
      if v == 0 {
        Putc(48);
        return;
      }
      var tmp := Reversed(v);
      var n := |tmp|;
      assert tmp[..n] == tmp;
      while n > 0
        invariant n <= |tmp| && Valid()
        invariant old(text) + Digits(v) == text + Backwards(tmp[..n])
      {
        n := n - 1;
        assert tmp[..n + 1][..n] == tmp[..n];
        Putc(tmp[n]);
      }
    }

    method DescribeOne(e: Entry)
      requires Valid() && PlainEntry(e)
      modifies this, buf
      ensures Valid() && text == old(text) + RegionText(e)
    {
      ghost var before := text;
      Puts(REGION_TAG);
      Puts(e.name);
      Puts(SIZE_TAG);
      Putu(e.size);
      Putc(COLON);
      Puts(e.fields);
      Putc(0);
      Regroup(before, REGION_TAG, e.name, SIZE_TAG, Digits(e.size), [COLON], e.fields, [0]);
    }

    /** `runtime_tracked_describe`. */
    method DescribeAll(es: seq<Entry>)
      requires Valid() && forall e :: e in es ==> PlainEntry(e)
      modifies this, buf
      ensures Valid() && text == old(text) + Description(es)
    {
      ghost var before := text;
      for i := 0 to |es|
        invariant Valid() && text == before + Description(es[..i])
      {
        DescribeOne(es[i]);
        DescriptionNext(es, i);
        Assoc(before, Description(es[..i]), RegionText(es[i]));
      }
      assert es[..|es|] == es;
    }
  }

  lemma Regroup(t: seq<byte>, a: seq<byte>, b: seq<byte>, c: seq<byte>, d: seq<byte>, e: seq<byte>, f: seq<byte>,
                g: seq<byte>)
    ensures ((((((t + a) + b) + c) + d) + e) + f) + g == t + (a + b + c + d + e + f + g)
  {
  }

  lemma DescriptionNext(es: seq<Entry>, i: nat)
    requires i < |es|
    ensures Description(es[..i + 1]) == Description(es[..i]) + RegionText(es[i])
  {
    assert es[..i + 1][..i] == es[..i];
  }

  /** `runtime_tracked_total_size`: a 32-bit sum. */
  method SumSizes(es: seq<Entry>) returns (total: nat)
    ensures total == TotalSize(es) % U32
  {
    total := 0;
    for i := 0 to |es|
      invariant total == TotalSize(es[..i]) % U32
    {
      assert es[..i + 1][..i] == es[..i];
      total := (total + es[i].size) % U32;
    }
    assert es[..|es|] == es;
  }

  /** Names hold neither ':' nor NUL, field text holds no NUL. */
  predicate PlainEntry(e: Entry) {
    0 !in e.name && COLON !in e.name && 0 !in e.fields
  }

  /** The position of the first c. */
  function FirstIndex(s: seq<byte>, c: byte): (i: nat)
    ensures i <= |s|
  {
    if s == [] || s[0] == c then 0 else 1 + FirstIndex(s[1..], c)
  }

  lemma {:induction false} FirstAfter(a: seq<byte>, c: byte, x: seq<byte>)
    requires c !in a
    ensures FirstIndex(a + [c] + x, c) == |a|
  {
    if a != [] {
      FirstAfter(a[1..], c, x);
      assert (a + [c] + x)[1..] == a[1..] + [c] + x;
    }
  }

  /** Text up to a separator is determined when the separator is not in it. */
  lemma Split(a: seq<byte>, x: seq<byte>, b: seq<byte>, y: seq<byte>, c: byte)
    requires a + [c] + x == b + [c] + y && c !in a && c !in b
    ensures a == b && x == y
  {
    FirstAfter(a, c, x);
    FirstAfter(b, c, y);
    assert a == (a + [c] + x)[..|a|] && b == (b + [c] + y)[..|a|];
    assert x == (a + [c] + x)[|a| + 1..] && y == (b + [c] + y)[|a| + 1..];
  }

  lemma Strip(p: seq<byte>, x: seq<byte>, y: seq<byte>)
    requires p + x == p + y
    ensures x == y
  {
    assert x == (p + x)[|p|..] && y == (p + y)[|p|..];
  }

  lemma RegionParts(e: Entry, rest: seq<byte>)
    ensures RegionText(e) + rest
         == REGION_TAG + (e.name + [COLON] + (SIZE_TAG[1..] + (Digits(e.size) + [COLON] + (e.fields + [0] + rest))))
  {
    assert SIZE_TAG == [COLON] + SIZE_TAG[1..];
  }

  /** One record can be read off the front of the text in only one way. */
  lemma RegionDecodes(e: Entry, x: seq<byte>, f: Entry, y: seq<byte>)
    requires PlainEntry(e) && PlainEntry(f) && RegionText(e) + x == RegionText(f) + y
    ensures e == f && x == y
  {
    RegionParts(e, x);
    RegionParts(f, y);
    var et, ft := e.fields + [0] + x, f.fields + [0] + y;
    var ed, fd := Digits(e.size) + [COLON] + et, Digits(f.size) + [COLON] + ft;
    Strip(REGION_TAG, e.name + [COLON] + (SIZE_TAG[1..] + ed), f.name + [COLON] + (SIZE_TAG[1..] + fd));
    Split(e.name, SIZE_TAG[1..] + ed, f.name, SIZE_TAG[1..] + fd, COLON);
    Strip(SIZE_TAG[1..], ed, fd);
    Split(Digits(e.size), et, Digits(f.size), ft, COLON);
    DigitsInjective(e.size, f.size);
    Split(e.fields, x, f.fields, y, 0);
  }

  lemma {:induction false} DescriptionFront(es: seq<Entry>)
    requires es != []
    ensures Description(es) == RegionText(es[0]) + Description(es[1..])
  {
    var front, last := es[..|es| - 1], es[|es| - 1];
    if front == [] {
      assert es[1..] == [];
    } else {
      DescriptionFront(front);
      assert es[1..][..|es[1..]| - 1] == front[1..];
    }
  }

  lemma SameHeadAndTail(es: seq<Entry>, fs: seq<Entry>)
    requires es != [] && fs != [] && es[0] == fs[0] && es[1..] == fs[1..]
    ensures es == fs
  {
    assert es == [es[0]] + es[1..] && fs == [fs[0]] + fs[1..];
  }

  /** Registries with one description have the same names, sizes and field text in the same order. */
  lemma {:induction false} DescriptionInjective(es: seq<Entry>, fs: seq<Entry>)
    requires (forall e :: e in es ==> PlainEntry(e)) && (forall f :: f in fs ==> PlainEntry(f))
    requires Description(es) == Description(fs)
    ensures es == fs
  {
    if es != [] {
      DescriptionFront(es);
    }
    if fs != [] {
      DescriptionFront(fs);
    }
    if es != [] && fs != [] {
      RegionDecodes(es[0], Description(es[1..]), fs[0], Description(fs[1..]));
      DescriptionInjective(es[1..], fs[1..]);
      SameHeadAndTail(es, fs);
    }
  }
}
