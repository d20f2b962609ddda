/** `lua_table_flatten`: the writer, over a caller's buffer. */
module TableFlatten {
  import opened Arithmetic
  import opened Bytes
  import opened KeyOrder
  import opened TableCodec

  class Sink {
    const dst: array<byte>
    const cap: nat
    var pos: nat
    var overflowed: bool
    ghost var written: seq<byte>  // everything offered so far

    /** The buffer holds all that was offered, or the flag says that it did not fit. */
    ghost predicate Valid()
      reads this, dst
    {
      && pos <= cap <= dst.Length
      && (overflowed <==> |written| > cap)
      && (!overflowed ==> pos == |written| && dst[..pos] == written)
    }

    constructor (dst: array<byte>, cap: nat)
      requires cap <= dst.Length
      ensures Valid() && written == [] && this.dst == dst && this.cap == cap
    {
      this.dst, this.cap := dst, cap;
      pos, overflowed, written := 0, false, [];
    }

    method PutU8(v: byte)
      requires Valid() && cap + 1 < U32
      modifies this, dst
      ensures Valid() && written == old(written) + [v]
    {
      written := written + [v];
      if (pos + 1) % U32 > cap {
        overflowed := true;
        return;
      }
      dst[pos] := v;
      pos := pos + 1;
    }

    method PutU16(v: nat)
      requires Valid() && cap + 1 < U32 && v < U16
      modifies this, dst
      ensures Valid() && written == old(written) + Le16(v)
    {
      PutU8(v % 256);
      PutU8(v / 256 % 256);
    }

    method PutU32(v: nat)
      requires Valid() && cap + 1 < U32 && v < U32
      modifies this, dst
      ensures Valid() && written == old(written) + Le32(v)
    {
      PutU8(v % 256);
      PutU8(v / 256 % 256);
      PutU8(v / 0x1_0000 % 256);
      PutU8(v / 0x100_0000 % 256);
    }

    method PutU64(v: word64)
      requires Valid() && cap + 1 < U32
      modifies this, dst
      ensures Valid() && written == old(written) + Le64(v)
    {
      ghost var before := written;
      var lo, hi := v % U32, v / U32;
      PutU32(lo);
      PutU32(hi);
      Assoc(before, Le32(lo), Le32(hi));
    }

    method PutBytes(src: seq<byte>)
      requires Valid() && cap + |src| < U32
      modifies this, dst
      ensures Valid() && written == old(written) + src
    {
      written := written + src;
      if (pos + |src|) % U32 > cap {
        overflowed := true;
        return;
      }
      ghost var start := pos;
      for i := 0 to |src|
        invariant pos == start + i <= cap && overflowed == old(overflowed)
        invariant written == old(written) + src
        invariant dst[..start] == old(dst[..start]) && dst[start..pos] == src[..i]
      {
        dst[pos] := src[i];
        pos := pos + 1;
      }
    }

    method PutPayload(s: Scalar)
      requires Valid() && cap + MAX_KEY_LEN < U32 && (s.Str? ==> cap + |s.s| < U32)
      modifies this, dst
      ensures Valid() && written == old(written) + Payload(s)
    {
      match s {
        case Bool(b) => PutU8(if b then 1 else 0);
        case Int(i) => PutU64(i);
        case Float(f) => PutU64(CanonBits(f));
        case Str(run) =>
          Assoc(written, Le32(|run|), run);
          PutU32(|run|);
          PutBytes(run);
        case Other(_) =>
      }
    }
  }

  // ------------------------------------------------------------ detect_array

  lemma IndicesBound(e: map<TableKey, Scalar>, n: nat)
    requires forall i :: 1 <= i <= n ==> Index(i) in e
    ensures n <= |e|
    ensures Index(n + 1) in e ==> n < |e|
  {
    IndicesCount(n);
    SubsetCount(Indices(n), e.Keys);
    if Index(n + 1) in e {
      SubsetCount(Indices(n) + {Index(n + 1)}, e.Keys);
    }
  }

  /** The error names something that is wrong with an array. */
  predicate ArrayDefect(e: map<TableKey, Scalar>, status: Status) {
    match status
    case UnsupportedType => exists k :: k in e && k.Index? && e[k].Other?
    case MixedTypes => exists k :: k in e && k.Index? && Index(1) in e && Tag(e[k]) != Tag(e[Index(1)])
    case NonSequence => exists k :: k in e && !(k.Index? && 1 <= k.n <= |e|)
    case Overflow => |e| >= U32 - 1
    case _ => false
  }

  /** Accepts exactly the tables that are arrays; an error names what is wrong. */
  method DetectArray(e: map<TableKey, Scalar>) returns (status: Status, tag: byte, n: nat)
    requires |e| < U32
    ensures status == Ok <==> IsArray(e, ArrayTag(e), |e|)
    ensures status == Ok ==> tag == ArrayTag(e) && n == |e|
    ensures status != Ok ==> ArrayDefect(e, status)
  {
    n, tag := 0, 0;
    while Index(n + 1) in e
      invariant n <= |e| && (n == 0 ==> tag == 0)
      invariant forall i :: 1 <= i <= n ==> Index(i) in e && Tag(e[Index(i)]) == tag != 0
      decreases |e| - n
    {
      IndicesBound(e, n);
      var v := e[Index(n + 1)];
      if v.Other? {
        status := UnsupportedType;
        return;
      }
      if n == 0 {
        tag := Tag(v);
      } else if Tag(v) != tag {
        assert Index(1) in e && Tag(e[Index(1)]) == tag;
        status := MixedTypes;
        return;
      }
      n := n + 1;
      IndicesBound(e, n);
      if n > 0xffff_fffe {
        status := Overflow;
        return;
      }
    }
    var total := |e|;
    if total != n {
      status := NonSequence;
      ExtraKey(e, n);
      return;
    }
    status := Ok;
  }

  lemma ExtraKey(e: map<TableKey, Scalar>, n: nat)
    requires (forall i :: 1 <= i <= n ==> Index(i) in e) && Index(n + 1) !in e && n != |e|
    ensures exists k :: k in e && !(k.Index? && 1 <= k.n <= |e|)
  {
    IndicesBound(e, n);
    if forall k :: k in e ==> k.Index? && 1 <= k.n <= |e| {
      IndicesCount(|e|);
      var full := Indices(|e|);
      assert Index(n + 1) in full && e.Keys <= full;
      SubsetOfSameSize(e.Keys, full);
      assert false;
    }
  }

  // ----------------------------------------------------------------- flatten

  /** Positions stay below 2^32 while this value is written. */
  predicate Roomy(cap: nat, v: Value) {
    match v
    case Plain(s) => s.Str? ==> cap + |s.s| < U32
    case Array(e) => |e| < U32 && forall k :: k in e && e[k].Str? ==> cap + |e[k].s| < U32
  }

  /** The error names something that is wrong with a value. */
  predicate ValueDefect(v: Value, status: Status) {
    match v
    case Plain(s) => s.Other? && status == UnsupportedType
    case Array(e) => ArrayDefect(e, status)
  }

  method EmitElems(e: map<TableKey, Scalar>, n: nat, out: Sink)
    requires out.Valid() && out.cap + MAX_KEY_LEN < U32 && Roomy(out.cap, Array(e))
    requires forall i :: 1 <= i <= n ==> Index(i) in e
    modifies out, out.dst
    ensures out.Valid() && out.written == old(out.written) + Elems(e, 0, n)
  {
    ghost var head := out.written;
    for i := 0 to n
      invariant out.Valid() && out.written + Elems(e, i, n) == head + Elems(e, 0, n)
    {
      ghost var before := out.written;
      var v := e[Index(i + 1)];
      out.PutPayload(v);
      Assoc(before, Payload(v), Elems(e, i + 1, n));
    }
    assert out.written + [] == out.written;
  }

  method EmitArray(e: map<TableKey, Scalar>, out: Sink) returns (status: Status)
    requires out.Valid() && out.cap + MAX_KEY_LEN < U32 && Roomy(out.cap, Array(e))
    modifies out, out.dst
    ensures out.Valid()
    ensures status == Ok <==> Encodable(Array(e))
    ensures status == Ok ==> out.written == old(out.written) + EncodeValue(Array(e))
    ensures status != Ok ==> ArrayDefect(e, status)
  {
    var tag, n;
    status, tag, n := DetectArray(e);
    if status != Ok {
      return;
    }
    ghost var before := out.written;
    out.PutU8(5);
    out.PutU8(tag);
    out.PutU32(n);
    EmitElems(e, n, out);
    assert out.written == before + EncodeValue(Array(e)) by {
      assert out.written == before + [5] + [tag] + Le32(n) + Elems(e, 0, n);
      Assoc(before, [5], [tag]);
      Assoc(before, [5] + [tag], Le32(n));
      Assoc(before, [5] + [tag] + Le32(n), Elems(e, 0, n));
      Assoc([5], [tag], Le32(n));
      Assoc([5], [tag] + Le32(n), Elems(e, 0, n));
    }
  }

  method EmitValue(v: Value, out: Sink) returns (status: Status)
    requires out.Valid() && out.cap + MAX_KEY_LEN < U32 && Roomy(out.cap, v)
    modifies out, out.dst
    ensures out.Valid()
    ensures status == Ok <==> Encodable(v)
    ensures status == Ok ==> out.written == old(out.written) + EncodeValue(v)
    ensures status != Ok ==> ValueDefect(v, status)
  {
    match v {
      case Plain(s) =>
        if s.Other? {
          return UnsupportedType;
        }
        out.PutU8(Tag(s));
        out.PutPayload(s);
        status := Ok;
      case Array(e) =>
        status := EmitArray(e, out);
    }
  }

  /** `lua_next` meets every key of t once, in an order of its own. */
  ghost predicate Enumerates(order: seq<TableKey>, t: Table) {
    && (forall i, j :: 0 <= i < j < |order| ==> order[i] != order[j])
    && (forall k :: k in order <==> k in t)
  }

  lemma {:induction false} EnumerationLength(order: seq<TableKey>, keys: set<TableKey>)
    requires forall i, j :: 0 <= i < j < |order| ==> order[i] != order[j]
    requires forall k :: k in order <==> k in keys
    ensures |order| == |keys|
  {
    if order != [] {
      var last := order[|order| - 1];
      var front := order[..|order| - 1];
      assert order == front + [last];
      EnumerationLength(front, keys - {last});
    }
  }

  predicate WellKeyed(t: Table) {
    |t| <= MAX_FIELDS && forall k :: k in t ==> k.Name? && |k.k| <= MAX_KEY_LEN
  }

  /** The error names something that is wrong with the keys. */
  predicate KeyDefect(t: Table, status: Status) {
    match status
    case NonStringKey => exists k :: k in t && !k.Name?
    case KeyTooLong => exists k :: k in t && k.Name? && |k.k| > MAX_KEY_LEN
    case Overflow => |t| > MAX_FIELDS
    case _ => false
  }

  /** Phase 1: string keys only, few enough and short enough. */
  method CollectKeys(t: Table, order: seq<TableKey>, keys: array<Key>) returns (status: Status, n: nat)
    requires Enumerates(order, t) && keys.Length == MAX_FIELDS
    modifies keys
    ensures status == Ok ==> n == |order| <= MAX_FIELDS
    ensures status == Ok ==> forall i :: 0 <= i < n ==> order[i] == Name(keys[i]) && |keys[i]| <= MAX_KEY_LEN
    ensures status == Ok <==> WellKeyed(t)
    ensures status != Ok ==> KeyDefect(t, status)
  {
    n := 0;
    while n < |order|
      invariant n <= |order| && n <= MAX_FIELDS
      invariant forall i :: 0 <= i < n ==> order[i] == Name(keys[i]) && |keys[i]| <= MAX_KEY_LEN
    {
      assert order[n] in order;
      if !order[n].Name? {
        return NonStringKey, n;
      }
      if n >= MAX_FIELDS {
        EnumerationLength(order, t.Keys);
        return Overflow, n;
      }
      if |order[n].k| > MAX_KEY_LEN {
        return KeyTooLong, n;
      }
      keys[n] := order[n].k;
      n := n + 1;
    }
    EnumerationLength(order, t.Keys);
    forall k | k in t
      ensures k.Name? && |k.k| <= MAX_KEY_LEN
    {
      assert k in order;
    }
    status := Ok;
  }

  lemma CollectedCanonical(t: Table, order: seq<TableKey>, met: seq<Key>, ks: seq<Key>)
    requires Enumerates(order, t) && |met| == |order|
    requires forall i :: 0 <= i < |met| ==> order[i] == Name(met[i])
    requires Increasing(ks) && Elements(ks) == Elements(met)
    ensures Canonical(t, ks) && |t| == |order|
  {
    EnumerationLength(order, t.Keys);
    forall k
      ensures k in t.Keys <==> k.Name? && k.k in ks
    {
      assert k.Name? ==> (k.k in ks <==> k.k in Elements(ks));
      assert k.Name? ==> (k.k in met <==> k.k in Elements(met));
      if k in order {
        var i :| 0 <= i < |order| && order[i] == k;
        assert met[i] == k.k;
      }
      if k.Name? && k.k in met {
        var i :| 0 <= i < |met| && met[i] == k.k;
        assert order[i] == k;
      }
    }
  }

  lemma {:induction false} FieldsAppend(t: Table, ks: seq<Key>, k: Key)
    requires HasFields(t, ks) && HasField(t, k)
    ensures HasFields(t, ks + [k]) && Fields(t, ks + [k]) == Fields(t, ks) + Field(t, k)
    decreases |ks|
  {
    if ks == [] {
      assert ks + [k] == [k] && Fields(t, [k]) == Field(t, k) + Fields(t, []);
    } else {
      FieldsAppend(t, ks[1..], k);
      assert (ks + [k])[1..] == ks[1..] + [k];
      Assoc(Field(t, ks[0]), Fields(t, ks[1..]), Field(t, k));
    }
  }

  /** The longest prefix of a buffer that has overflowed stays overflowed. */
  lemma {:induction false} FieldsPrefix(t: Table, ks: seq<Key>, i: nat)
    requires HasFields(t, ks) && i <= |ks|
    ensures HasFields(t, ks[..i]) && |Fields(t, ks[..i])| <= |Fields(t, ks)|
    decreases |ks|
  {
    if i > 0 {
      FieldsPrefix(t, ks[1..], i - 1);
      assert ks[..i][1..] == ks[1..][..i - 1];
    }
  }

  method EmitField(t: Table, k: Key, out: Sink) returns (status: Status)
    requires out.Valid() && out.cap + MAX_KEY_LEN < U32
    requires Name(k) in t && Roomy(out.cap, t[Name(k)]) && |k| <= MAX_KEY_LEN
    modifies out, out.dst
    ensures out.Valid()
    ensures status == Ok <==> HasField(t, k)
    ensures status == Ok ==> out.written == old(out.written) + Field(t, k)
    ensures status != Ok ==> ValueDefect(t[Name(k)], status)
  {
    ghost var before := out.written;
    out.PutU16(|k|);
    out.PutBytes(k);
    status := EmitValue(t[Name(k)], out);
    if status == Ok {
      Assoc(before, Le16(|k|), k);
      Assoc(before, Le16(|k|) + k, EncodeValue(t[Name(k)]));
    }
  }

  /** One turn of phase 3. */
  method EmitNext(t: Table, ks: seq<Key>, i: nat, out: Sink, ghost head: seq<byte>) returns (status: Status)
    requires out.Valid() && out.cap + MAX_KEY_LEN < U32
    requires i < |ks| && Name(ks[i]) in t && Roomy(out.cap, t[Name(ks[i])]) && |ks[i]| <= MAX_KEY_LEN
    requires HasFields(t, ks[..i]) && out.written == head + Fields(t, ks[..i])
    modifies out, out.dst
    ensures out.Valid()
    ensures status == Ok <==> HasField(t, ks[i])
    ensures status == Ok ==> HasFields(t, ks[..i + 1]) && out.written == head + Fields(t, ks[..i + 1])
    ensures status != Ok ==> ValueDefect(t[Name(ks[i])], status)
  {
    status := EmitField(t, ks[i], out);
    if status == Ok {
      TakeNext(ks, i);
      FieldsAppend(t, ks[..i], ks[i]);
      Assoc(head, Fields(t, ks[..i]), Field(t, ks[i]));
    }
  }

  /** Emitting stops at field i: everything before it is encodable and fits, and its value has the defect
      that is reported; or the fields before it do not fit. */
  predicate StopsAt(t: Table, ks: seq<Key>, cap: nat, status: Status, i: nat) {
    && i <= |ks| && HasFields(t, ks[..i])
    && var size := |Le32(|ks|)| + |Fields(t, ks[..i])|;
       || (status == Overflow && size > cap)
       || (i < |ks| && (i > 0 ==> size <= cap) && Name(ks[i]) in t && ValueDefect(t[Name(ks[i])], status))
  }

  predicate Stops(t: Table, ks: seq<Key>, cap: nat, status: Status) {
    exists i: nat :: i <= |ks| && StopsAt(t, ks, cap, status, i)
  }

  /** Phase 3. */
  method EmitFields(t: Table, ks: seq<Key>, out: Sink) returns (status: Status)
    requires out.Valid() && out.cap + MAX_KEY_LEN < U32 && forall k :: k in t ==> Roomy(out.cap, t[k])
    requires forall i :: 0 <= i < |ks| ==> Name(ks[i]) in t && |ks[i]| <= MAX_KEY_LEN
    requires |ks| < U32 && out.written == []
    modifies out, out.dst
    ensures out.Valid()
    ensures status == Ok ==> HasFields(t, ks) && out.written == Encoding(t, ks) && !out.overflowed
    ensures status != Ok ==> Stops(t, ks, out.cap, status)
    ensures HasFields(t, ks) && status != Ok ==> status == Overflow && |Encoding(t, ks)| > out.cap
  {
    out.PutU32(|ks|);
    ghost var head := out.written;
    assert ks[..0] == [];
    for i := 0 to |ks|
      invariant out.Valid()
      invariant HasFields(t, ks[..i]) && out.written == head + Fields(t, ks[..i])
      invariant i > 0 ==> !out.overflowed
    {
      status := EmitNext(t, ks, i, out, head);
      if status != Ok {
        assert StopsAt(t, ks, out.cap, status, i);
        return;
      }
      if out.overflowed {
        assert StopsAt(t, ks, out.cap, Overflow, i + 1);
        if HasFields(t, ks) { FieldsPrefix(t, ks, i + 1); }
        return Overflow;
      }
    }
    assert ks[..|ks|] == ks;
    assert out.overflowed ==> StopsAt(t, ks, out.cap, Overflow, |ks|);
    status := if out.overflowed then Overflow else Ok;
  }

  /** `lua_table_flatten`. ks is the sorted key list, which t alone determines. */
  method Flatten(t: Table, order: seq<TableKey>, dst: array<byte>, cap: nat)
    returns (status: Status, len: nat, ghost ks: seq<Key>)
    requires Enumerates(order, t) && cap <= dst.Length && cap + MAX_KEY_LEN < U32
    requires forall k :: k in t ==> Roomy(cap, t[k])
    modifies dst
    ensures status == Ok ==>
              && Flattenable(t) && Canonical(t, ks) && HasFields(t, ks)
              && len == |Encoding(t, ks)| <= cap && dst[..len] == Encoding(t, ks)
    ensures Flattenable(t) && status != Ok ==>
              && Canonical(t, ks) && HasFields(t, ks)
              && status == Overflow && |Encoding(t, ks)| > cap
    // defects of the keys come before those of the values, and the reported one is there
    ensures !WellKeyed(t) ==> KeyDefect(t, status)
    ensures WellKeyed(t) && status != Ok ==> Canonical(t, ks) && Stops(t, ks, cap, status)
    ensures status != Ok ==> len == 0
  {
    len, ks := 0, [];
    var keys := new Key[MAX_FIELDS](_ => []);
    var n;
    status, n := CollectKeys(t, order, keys);
    if status != Ok {
      return;
    }
    ghost var met := keys[..n];
    KeySort(keys, n);
    ks := keys[..n];
    SortedKeys(t, order, met, ks);
    var out := new Sink(dst, cap);
    status := EmitFields(t, keys[..n], out);
    if status == Ok {
      len := out.pos;
    }
  }

  lemma SortedKeys(t: Table, order: seq<TableKey>, met: seq<Key>, ks: seq<Key>)
    requires Enumerates(order, t) && |met| == |order| <= MAX_FIELDS
    requires forall i :: 0 <= i < |met| ==> order[i] == Name(met[i]) && |met[i]| <= MAX_KEY_LEN
    requires Increasing(ks) && Elements(ks) == Elements(met)
    ensures Canonical(t, ks) && |t| <= MAX_FIELDS
    ensures forall i :: 0 <= i < |ks| ==> Name(ks[i]) in t && |ks[i]| <= MAX_KEY_LEN
    ensures Flattenable(t) ==> HasFields(t, ks)
  {
    CollectedCanonical(t, order, met, ks);
    forall i | 0 <= i < |ks|
      ensures Name(ks[i]) in t && |ks[i]| <= MAX_KEY_LEN
    {
      assert ks[i] in Elements(ks) && ks[i] in Elements(met) && Name(ks[i]) in t.Keys;
    }
    if Flattenable(t) {
      FlattenableHasFields(t, ks);
    }
  }
}
