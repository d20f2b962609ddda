/** Field-by-field migration of one region's bytes from an old struct layout to a new one. */
module Migration {
  import opened Bytes

  datatype FieldType = TU8 | TU32 | TI32 | TU64 | TI64 | TF32 | TF64

  datatype Field = Field(name: string, typ: FieldType, offset: nat, size: nat) {
    function End(): nat { offset + size }

    predicate Holds(k: int) { offset <= k < offset + size }
  }

  datatype Layout = Layout(fields: seq<Field>, total: nat)

  /** `on_retype`: NULL, or a function of the old field's bytes and the two types;
      `None` is its "return 0", which leaves the new field zero. */
  datatype Callback = NoCallback | OnRetype(convert: (seq<byte>, FieldType, FieldType) -> Option<seq<byte>>)

  predicate Fits(f: Field, l: Layout) {
    f.End() <= l.total
  }

  /** The bounds check: offset plus size in 32 bits. */
  predicate PastEnd(f: Field, l: Layout) {
    f.End() % U32 > l.total
  }

  /** The sum does not wrap, or what is left of it is past the end all the same. */
  predicate CheckSound(f: Field, l: Layout) {
    f.End() < U32 || PastEnd(f, l)
  }

  /** The check tells a field that does not fit exactly when it is sound. */
  lemma CheckExactly(f: Field, l: Layout)
    requires l.total < U32
    ensures (PastEnd(f, l) <==> !Fits(f, l)) <==> CheckSound(f, l)
  {
  }

  predicate ChecksSound(l: Layout) {
    forall i :: 0 <= i < |l.fields| ==> CheckSound(l.fields[i], l)
  }

  /** A one-byte field at the very end of the address space passes the check of any struct. */
  lemma WrapsPast(l: Layout)
    requires l.total < U32
    ensures var f := Field("f", TU8, U32 - 1, 1); !PastEnd(f, l) && !Fits(f, l)
  {
  }

  /** The first field of that name, or |fields|. */
  function IndexOf(name: string, fields: seq<Field>, from: nat): (i: nat)
    requires from <= |fields|
    ensures from <= i <= |fields|
    ensures i < |fields| ==> fields[i].name == name
    ensures forall j :: from <= j < i ==> fields[j].name != name
    decreases |fields| - from
  {
    if from == |fields| || fields[from].name == name then from else IndexOf(name, fields, from + 1)
  }

  function Match(f: Field, old_: Layout): (o: Option<Field>)
    ensures o.Some? ==> o.value in old_.fields && o.value.name == f.name
    ensures o.None? ==> forall i :: 0 <= i < |old_.fields| ==> old_.fields[i].name != f.name
  {
    var i := IndexOf(f.name, old_.fields, 0);
    if i == |old_.fields| then None else Some(old_.fields[i])
  }

  function Cut(f: Field, s: seq<byte>): (t: seq<byte>)
    requires f.End() <= |s|
    ensures |t| == f.size
  {
    s[f.offset..f.End()]
  }

  function Same(f: Field, o: Field): bool {
    f.typ == o.typ && f.size == o.size
  }

  /** What the walk writes for new field f; `None` when it writes nothing. */
  function Written(f: Field, ol: Layout, old_: seq<byte>, cb: Callback): (v: Option<seq<byte>>)
    requires ol.total <= |old_|
    requires Match(f, ol).Some? ==> Fits(Match(f, ol).value, ol)
  {
    match Match(f, ol)
    case None => None
    case Some(o) =>
      if Same(f, o) then Some(Cut(o, old_))
      else if cb.OnRetype? then cb.convert(Cut(o, old_), o.typ, f.typ)
      else None
  }

  /** Neither the field nor its match runs past the end of its struct. */
  predicate FieldOk(f: Field, nl: Layout, ol: Layout) {
    Fits(f, nl) && (Match(f, ol).Some? ==> Fits(Match(f, ol).value, ol))
  }

  predicate WellFormed(nl: Layout, ol: Layout) {
    forall i :: 0 <= i < |nl.fields| ==> FieldOk(nl.fields[i], nl, ol)
  }

  /** A callback fills exactly the new field it is given. */
  predicate Honest(f: Field, ol: Layout, old_: seq<byte>, cb: Callback)
    requires ol.total <= |old_|
    requires Match(f, ol).Some? ==> Fits(Match(f, ol).value, ol)
  {
    Written(f, ol, old_, cb).Some? ==> |Written(f, ol, old_, cb).value| == f.size
  }

  predicate CallbackFits(nl: Layout, ol: Layout, old_: seq<byte>, cb: Callback)
    requires ol.total <= |old_|
  {
    forall i :: 0 <= i < |nl.fields| && FieldOk(nl.fields[i], nl, ol) ==> Honest(nl.fields[i], ol, old_, cb)
  }

  function Put(s: seq<byte>, f: Field, v: Option<seq<byte>>): (t: seq<byte>)
    requires f.End() <= |s| && (v.Some? ==> |v.value| == f.size)
    ensures |t| == |s|
  {
    if v.None? then s else s[..f.offset] + v.value + s[f.End()..]
  }

  /** The new struct after the first n fields. */
  function Walk(nl: Layout, ol: Layout, old_: seq<byte>, cb: Callback, n: nat): (s: seq<byte>)
    requires n <= |nl.fields| && ol.total <= |old_|
    requires WellFormed(nl, ol) && CallbackFits(nl, ol, old_, cb)
    ensures |s| == nl.total
  {
    if n == 0 then Zeros(nl.total)
    else
      var f := nl.fields[n - 1];
      assert FieldOk(f, nl, ol) && Honest(f, ol, old_, cb);
      Put(Walk(nl, ol, old_, cb, n - 1), f, Written(f, ol, old_, cb))
  }

  function Migrated(nl: Layout, ol: Layout, old_: seq<byte>, cb: Callback): (s: seq<byte>)
    requires ol.total <= |old_| && WellFormed(nl, ol) && CallbackFits(nl, ol, old_, cb)
    ensures |s| == nl.total
  {
    Walk(nl, ol, old_, cb, |nl.fields|)
  }

  // The procedure.

  method ZeroFill(p: array<byte>, n: nat)
    requires n <= p.Length
    modifies p
    ensures p[..n] == Zeros(n) && p[n..] == old(p[n..])
  {
    for i := 0 to n
      invariant p[..i] == Zeros(i) && p[n..] == old(p[n..])
    {
      p[i] := 0;
    }
  }

  method Find(name: string, fields: seq<Field>) returns (i: nat)
    ensures i == IndexOf(name, fields, 0)
  {
    i := 0;
    while i < |fields|
      invariant i <= |fields| && IndexOf(name, fields, 0) == IndexOf(name, fields, i)
    {
      if fields[i].name == name {
        break;
      }
      i := i + 1;
    }
  }

  /** One iteration of the walk. `false` is the early `return 0`. */
  method MoveField(out: array<byte>, nl: Layout, f: Field, bytes: seq<byte>, ol: Layout, cb: Callback)
      returns (ok: bool)
    requires nl.total <= out.Length && ol.total <= |bytes|
    requires CheckSound(f, nl) && ChecksSound(ol)
    requires FieldOk(f, nl, ol) ==> Honest(f, ol, bytes, cb)
    modifies out
    ensures ok == FieldOk(f, nl, ol)
    ensures ok ==> out[..] == Put(old(out[..]), f, Written(f, ol, bytes, cb))
    ensures !ok ==> out[..] == old(out[..])
  {
    if PastEnd(f, nl) {
      return false;
    }
    var i := Find(f.name, ol.fields);
    if i == |ol.fields| {
      return true;
    }
    var o := ol.fields[i];
    if PastEnd(o, ol) {
      return false;
    }
    if o.typ == f.typ && o.size == f.size {
      PutBytes(out, f.offset, bytes[o.offset..o.End()]);
    } else if cb.OnRetype? {
      var v := cb.convert(bytes[o.offset..o.End()], o.typ, f.typ);
      if v.Some? {
        PutBytes(out, f.offset, v.value);
      }
    }
    return true;
  }

  /** The same, when the buffer is longer than the struct. */
  method MoveInside(out: array<byte>, nl: Layout, f: Field, bytes: seq<byte>, ol: Layout, cb: Callback,
                    ghost done: seq<byte>, ghost rest: seq<byte>) returns (ok: bool)
    requires nl.total <= out.Length && ol.total <= |bytes| && |done| == nl.total && out[..] == done + rest
    requires CheckSound(f, nl) && ChecksSound(ol)
    requires FieldOk(f, nl, ol) ==> Honest(f, ol, bytes, cb)
    modifies out
    ensures ok == FieldOk(f, nl, ol)
    ensures out[..] == (if ok then Put(done, f, Written(f, ol, bytes, cb)) else done) + rest
  {
    ok := MoveField(out, nl, f, bytes, ol, cb);
    if ok {
      PutInside(done, rest, f, Written(f, ol, bytes, cb));
    }
  }

  /** `migrate_region_bytes`. `out` may be longer than the new struct, as the loader's scratch is. */
  method MigrateRegionBytes(out: array<byte>, nl: Layout, bytes: seq<byte>, ol: Layout, cb: Callback)
      returns (ok: bool)
    requires nl.total <= out.Length && ol.total <= |bytes|
    requires ChecksSound(nl) && ChecksSound(ol) && CallbackFits(nl, ol, bytes, cb)
    modifies out
    ensures ok == WellFormed(nl, ol)
    ensures ok ==> out[..nl.total] == Migrated(nl, ol, bytes, cb)
    ensures out[nl.total..] == old(out[nl.total..])
  {
    ghost var rest := out[nl.total..];
    ZeroFill(out, nl.total);
    ghost var done := Zeros(nl.total);
    assert out[..] == done + rest;
    for i := 0 to |nl.fields|
      invariant forall j :: 0 <= j < i ==> FieldOk(nl.fields[j], nl, ol)
      invariant |done| == nl.total && out[..] == done + rest
      invariant WellFormed(nl, ol) ==> done == Walk(nl, ol, bytes, cb, i)
    {
      var f := nl.fields[i];
      ok := MoveInside(out, nl, f, bytes, ol, cb, done, rest);
      if !ok {
        return;
      }
      done := Put(done, f, Written(f, ol, bytes, cb));
    }
    ok := true;
  }

  lemma PutInside(s: seq<byte>, rest: seq<byte>, f: Field, v: Option<seq<byte>>)
    requires f.End() <= |s| && (v.Some? ==> |v.value| == f.size)
    ensures Put(s + rest, f, v) == Put(s, f, v) + rest
  {
    assert (s + rest)[..f.offset] == s[..f.offset] && (s + rest)[f.End()..] == s[f.End()..] + rest;
    if v.Some? {
      assert s[..f.offset] + v.value + (s[f.End()..] + rest) == (s[..f.offset] + v.value + s[f.End()..]) + rest;
    }
  }
}
