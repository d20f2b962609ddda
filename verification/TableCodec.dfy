/** The wire format of a flattened Lua table, and its reader, as functions. */
module TableCodec {
  import opened Bytes
  import opened KeyOrder
  import opened NanBits

  const MAX_KEY_LEN: nat := 64
  const MAX_FIELDS: nat := 32
  const CANONICAL_NAN: nat := 0x7ff8_0000_0000_0000

  type word64 = x: nat | x < U64

  /** Lua values that are not tables; floats are their bit patterns. */
  datatype Scalar = Bool(b: bool) | Int(i: word64) | Float(f: word64) | Str(s: seq<byte>) | Other(id: int)
  datatype TableKey = Name(k: Key) | Index(n: int) | Alien(id: int)
  datatype Value = Plain(v: Scalar) | Array(entries: map<TableKey, Scalar>)
  type Table = map<TableKey, Value>

  datatype Status = Ok | Overflow | UnsupportedType | NonStringKey | KeyTooLong | MixedTypes | NonSequence
                  | Wild  // a length word wrapped the 32-bit position: the C code reads outside its buffer

  datatype Parse<+T> = Fail(why: Status) | Done(value: T, rest: seq<byte>)

  function Tag(s: Scalar): byte {
    match s
    case Bool(_) => 1
    case Int(_) => 2
    case Float(_) => 3
    case Str(_) => 4
    case Other(_) => 0
  }

  /** `canonicalize_nan64`: exponent all ones and a non-zero fraction. */
  function CanonBits(f: word64): word64 {
    if f / 0x10_0000_0000_0000 % 0x800 == 0x7ff && f % 0x10_0000_0000_0000 != 0 then CANONICAL_NAN else f
  }

  /** A float that is no NaN keeps its bits; every NaN becomes the one pattern. */
  lemma CanonExactly(f: word64)
    ensures CanonBits(f) == if Nan(f, 52, 63) then 0x7ff8_0000_0000_0000 else f
  {
    NanFields(f, 52, 63);
    Powers();
  }

  function CanonScalar(s: Scalar): Scalar {
    if s.Float? then Float(CanonBits(s.f)) else s
  }

  function CanonValue(v: Value): Value {
    match v
    case Plain(s) => Plain(CanonScalar(s))
    case Array(e) => Array(map k | k in e :: CanonScalar(e[k]))
  }

  function CanonTable(t: Table): Table {
    map k | k in t :: CanonValue(t[k])
  }

  // ---------------------------------------------------------------- writing

  /** The entries are exactly 1..n, all of the one primitive subtype with this tag. */
  predicate IsArray(e: map<TableKey, Scalar>, tag: byte, n: nat) {
    && |e| == n && n < U32 - 1
    && (n == 0 ==> tag == 0)
    && forall i :: 1 <= i <= n ==> Index(i) in e && Tag(e[Index(i)]) == tag != 0
  }

  function ArrayTag(e: map<TableKey, Scalar>): byte {
    if Index(1) in e then Tag(e[Index(1)]) else 0
  }

  /** Strings whose lengths fit the length word. */
  predicate ShortScalar(s: Scalar) {
    s.Str? ==> |s.s| < U32
  }

  predicate Encodable(v: Value) {
    match v
    case Plain(s) => !s.Other?
    case Array(e) => IsArray(e, ArrayTag(e), |e|)
  }

  /** The tables the flattener accepts, room in the buffer aside. */
  predicate Flattenable(t: Table) {
    && |t| <= MAX_FIELDS
    && forall k :: k in t ==> k.Name? && |k.k| <= MAX_KEY_LEN && Encodable(t[k])
  }

  predicate ShortStrings(t: Table) {
    forall k :: k in t ==> ShortValue(t[k])
  }

  /** A 64-bit value is written as its low word, then its high word. */
  function Payload(s: Scalar): seq<byte> {
    match s
    case Bool(b) => [if b then 1 else 0]
    case Int(i) => Le64(i)
    case Float(f) => Le64(CanonBits(f))
    case Str(s) => Le32(|s|) + s
    case Other(_) => []
  }

  /** Payloads of the elements i + 1 to n. */
  function Elems(e: map<TableKey, Scalar>, i: nat, n: nat): seq<byte>
    requires i <= n && forall j :: 1 <= j <= n ==> Index(j) in e
    decreases n - i
  {
    if i == n then [] else Payload(e[Index(i + 1)]) + Elems(e, i + 1, n)
  }

  function ArrayBytes(e: map<TableKey, Scalar>): seq<byte>
    requires IsArray(e, ArrayTag(e), |e|)
  {
    [ArrayTag(e)] + Le32(|e|) + Elems(e, 0, |e|)
  }

  function EncodeValue(v: Value): seq<byte>
    requires Encodable(v)
  {
    match v
    case Plain(s) => [Tag(s)] + Payload(s)
    case Array(e) => [5] + ArrayBytes(e)
  }

  predicate HasField(t: Table, k: Key) {
    Name(k) in t && Encodable(t[Name(k)])
  }

  function Field(t: Table, k: Key): seq<byte>
    requires HasField(t, k)
  {
    Le16(|k|) + k + EncodeValue(t[Name(k)])
  }

  predicate HasFields(t: Table, ks: seq<Key>) {
    forall i :: 0 <= i < |ks| ==> HasField(t, ks[i])
  }

  function Fields(t: Table, ks: seq<Key>): seq<byte>
    requires HasFields(t, ks)
  {
    if ks == [] then [] else Field(t, ks[0]) + Fields(t, ks[1..])
  }

  /** ks lists the keys of t in increasing order; at most one list does. */
  ghost predicate Canonical(t: Table, ks: seq<Key>) {
    && Increasing(ks)
    && t.Keys == set k | k in ks :: Name(k)
  }

  lemma CanonicalUnique(t: Table, a: seq<Key>, b: seq<Key>)
    requires Canonical(t, a) && Canonical(t, b)
    ensures a == b
  {
    forall k
      ensures k in a <==> k in b
    {
      assert Name(k) in t.Keys <==> k in a;
      assert Name(k) in t.Keys <==> k in b;
    }
    IncreasingUnique(a, b);
  }

  lemma {:induction false} CanonicalLength(t: Table, ks: seq<Key>)
    requires Canonical(t, ks)
    ensures |ks| == |t|
    decreases |ks|
  {
    if ks == [] {
      assert t.Keys == {};
    } else {
      var k := Name(ks[0]);
      assert ks[0] in ks;
      var u := t - {k};
      DropLeast(ks);
      forall x
        ensures x in u.Keys <==> x in (set k | k in ks[1..] :: Name(k))
      {
        assert x.Name? ==> (x.k in ks[1..] <==> x.k in Elements(ks[1..]));
        assert x.Name? ==> (x.k in ks <==> x.k in Elements(ks));
      }
      CanonicalLength(u, ks[1..]);
    }
  }

  /** The bytes of t; they depend on t alone, not on the order its keys are met in. */
  function Encoding(t: Table, ks: seq<Key>): seq<byte>
    requires HasFields(t, ks)
  {
    Le32(|ks|) + Fields(t, ks)
  }

  // ---------------------------------------------------------------- reading

  /** The first n bytes as a little-endian integer. */
  function Take(s: seq<byte>, n: nat): (p: Parse<nat>)
    ensures p.Done? ==> p.value < Pow256(n)
    ensures p != Fail(Ok)
  {
    if |s| < n then Fail(Overflow) else Done(FromLe(s[..n]), s[n..])
  }

  function Take64(s: seq<byte>): (p: Parse<word64>)
    ensures p != Fail(Ok)
  {
    match Take(s, 4)
    case Fail(why) => Fail(why)
    case Done(lo, rest) =>
      match Take(rest, 4)
      case Fail(why) => Fail(why)
      case Done(hi, rest') =>
            Done(lo + U32 * hi, rest')
  }

  /** A run of n bytes, n < 2^32, where total is the length of the whole buffer. */
  function TakeRun(total: nat, s: seq<byte>, n: nat): (p: Parse<seq<byte>>)
    ensures p != Fail(Ok)
  {
    if total - |s| + n >= U32 then Fail(Wild)
    else if |s| < n then Fail(Overflow)
    else Done(s[..n], s[n..])
  }

  function DecodeScalar(total: nat, tag: nat, s: seq<byte>): (p: Parse<Scalar>)
    ensures p != Fail(Ok)
  {
    if tag == 1 then
      match Take(s, 1)
      case Fail(why) => Fail(why)
      case Done(b, rest) => Done(Bool(b != 0), rest)
    else if tag == 2 || tag == 3 then
      match Take64(s)
      case Fail(why) => Fail(why)
      case Done(v, rest) => Done(if tag == 2 then Int(v) else Float(v), rest)
    else if tag == 4 then
      match Take(s, 4)
      case Fail(why) => Fail(why)
      case Done(n, rest) =>
        match TakeRun(total, rest, n)
        case Fail(why) => Fail(why)
        case Done(run, rest') => Done(Str(run), rest')
    else Fail(UnsupportedType)
  }

  function DecodeElems(total: nat, tag: nat, n: nat, i: nat, s: seq<byte>, acc: map<TableKey, Scalar>):
    (p: Parse<map<TableKey, Scalar>>)
    ensures p != Fail(Ok)
    requires i <= n
    decreases n - i
  {
    if i == n then Done(acc, s)
    else
      match DecodeScalar(total, tag, s)
      case Fail(why) => Fail(why)
      case Done(v, rest) => DecodeElems(total, tag, n, i + 1, rest, acc[Index(i + 1) := v])
  }

  function DecodeArray(total: nat, s: seq<byte>): (p: Parse<Value>)
    ensures p != Fail(Ok)
  {
    match Take(s, 1)
    case Fail(why) => Fail(why)
    case Done(tag, rest) =>
      match Take(rest, 4)
      case Fail(why) => Fail(why)
      case Done(n, rest') =>
        match DecodeElems(total, tag, n, 0, rest', map[])
        case Fail(why) => Fail(why)
        case Done(e, rest'') => Done(Array(e), rest'')
  }

  function DecodeValue(total: nat, s: seq<byte>): (p: Parse<Value>)
    ensures p != Fail(Ok)
  {
    match Take(s, 1)
    case Fail(why) => Fail(why)
    case Done(tag, rest) =>
      if tag == 5 then DecodeArray(total, rest)
      else
        match DecodeScalar(total, tag, rest)
        case Fail(why) => Fail(why)
        case Done(v, rest') => Done(Plain(v), rest')
  }

  function DecodeField(total: nat, s: seq<byte>): (p: Parse<(Key, Value)>)
    ensures p != Fail(Ok)
  {
    match Take(s, 2)
    case Fail(why) => Fail(why)
    case Done(n, rest) =>
      if n > MAX_KEY_LEN then Fail(Overflow)
      else
        match TakeRun(total, rest, n)
        case Fail(why) => Fail(why)
        case Done(k, rest') =>
          match DecodeValue(total, rest')
          case Fail(why) => Fail(why)
          case Done(v, rest'') => Done((k, v), rest'')
  }

  function DecodeFields(total: nat, n: nat, s: seq<byte>, acc: Table): (p: Parse<Table>)
    ensures p != Fail(Ok)
    decreases n
  {
    if n == 0 then Done(acc, s)
    else
      match DecodeField(total, s)
      case Fail(why) => Fail(why)
      case Done(f, rest) => DecodeFields(total, n - 1, rest, acc[Name(f.0) := f.1])
  }

  function Decode(s: seq<byte>): (p: Parse<Table>)
    ensures p != Fail(Ok)
  {
    match Take(s, 4)
    case Fail(why) => Fail(why)
    case Done(n, rest) => if n > MAX_FIELDS then Fail(Overflow) else DecodeFields(|s|, n, rest, map[])
  }

  // ------------------------------------------------------------- round trip

  lemma TakeEncoded(word: seq<byte>, rest: seq<byte>)
    ensures Take(word + rest, |word|) == Done(FromLe(word), rest)
  {
    assert (word + rest)[..|word|] == word && (word + rest)[|word|..] == rest;
  }

  lemma Take16Encoded(v: nat, rest: seq<byte>)
    requires v < U16
    ensures Take(Le16(v) + rest, 2) == Done(v, rest)
  {
    TakeEncoded(Le16(v), rest);
  }

  lemma Take32Encoded(v: nat, rest: seq<byte>)
    requires v < U32
    ensures Take(Le32(v) + rest, 4) == Done(v, rest)
  {
    TakeEncoded(Le32(v), rest);
    FromLe32(v);
  }

  lemma Take64Encoded(v: word64, rest: seq<byte>)
    ensures Take64(Le64(v) + rest) == Done(v, rest)
  {
    Assoc(Le32(v % U32), Le32(v / U32), rest);
    Take32Encoded(v % U32, Le32(v / U32) + rest);
    Take32Encoded(v / U32, rest);
  }

  lemma TakeByte(v: byte, rest: seq<byte>)
    ensures Take([v] + rest, 1) == Done(v, rest)
  {
    TakeEncoded([v], rest);
  }

  lemma ScalarRoundTrip(total: nat, s: Scalar, rest: seq<byte>)
    requires !s.Other? && ShortScalar(s) && |Payload(s) + rest| <= total < U32
    ensures DecodeScalar(total, Tag(s), Payload(s) + rest) == Done(CanonScalar(s), rest)
  {
    match s {
      case Bool(b) => TakeByte(if b then 1 else 0, rest);
      case Int(i) => Take64Encoded(i, rest);
      case Float(f) => Take64Encoded(CanonBits(f), rest);
      case Str(run) =>
        assert Payload(s) + rest == Le32(|run|) + (run + rest);
        Take32Encoded(|run|, run + rest);
    }
  }

  /** The elements 1..i of an array, canonicalised. */
  function CanonUpTo(e: map<TableKey, Scalar>, i: nat): map<TableKey, Scalar> {
    map k | k in e && k.Index? && 1 <= k.n <= i :: CanonScalar(e[k])
  }

  lemma {:induction false} ElemsRoundTrip(total: nat, e: map<TableKey, Scalar>, tag: byte, n: nat, i: nat,
                                          rest: seq<byte>)
    requires i <= n && tag != 0 && forall j :: 1 <= j <= n ==> Index(j) in e && Tag(e[Index(j)]) == tag
    requires forall k :: k in e ==> ShortScalar(e[k])
    requires |Elems(e, i, n) + rest| <= total < U32
    ensures DecodeElems(total, tag, n, i, Elems(e, i, n) + rest, CanonUpTo(e, i)) == Done(CanonUpTo(e, n), rest)
    decreases n - i
  {
    if i == n {
      assert Elems(e, i, n) + rest == rest;
    } else {
      var v := e[Index(i + 1)];
      var more := Elems(e, i + 1, n) + rest;
      assert Elems(e, i, n) + rest == Payload(v) + more;
      ScalarRoundTrip(total, v, more);
      assert CanonUpTo(e, i)[Index(i + 1) := CanonScalar(v)] == CanonUpTo(e, i + 1);
      ElemsRoundTrip(total, e, tag, n, i + 1, rest);
    }
  }

  function Indices(n: nat): set<TableKey> {
    set i | 1 <= i <= n :: Index(i)
  }

  lemma {:induction false} IndicesCount(n: nat)
    ensures |Indices(n)| == n
  {
    if n > 0 {
      IndicesCount(n - 1);
      assert Indices(n) == Indices(n - 1) + {Index(n)};
    }
  }

  lemma {:induction false} SubsetOfSameSize<T>(a: set<T>, b: set<T>)
    requires a <= b && |a| == |b|
    ensures a == b
  {
    if b != {} && a != {} {
      var x :| x in a;
      SubsetOfSameSize(a - {x}, b - {x});
    }
  }

  /** An array's keys are exactly 1..n. */
  lemma ArrayKeys(e: map<TableKey, Scalar>, tag: byte, n: nat)
    requires IsArray(e, tag, n)
    ensures e.Keys == Indices(n) && CanonUpTo(e, n) == CanonValue(Array(e)).entries
  {
    IndicesCount(n);
    SubsetOfSameSize(Indices(n), e.Keys);
  }

  predicate ShortValue(v: Value) {
    match v
    case Plain(s) => ShortScalar(s)
    case Array(e) => forall i :: i in e ==> ShortScalar(e[i])
  }

  lemma ArrayDecodes(total: nat, tag: byte, n: nat, elems: seq<byte>, e: map<TableKey, Scalar>, rest: seq<byte>)
    requires n < U32 && DecodeElems(total, tag, n, 0, elems + rest, map[]) == Done(e, rest)
    ensures DecodeArray(total, [tag] + Le32(n) + elems + rest) == Done(Array(e), rest)
  {
    var body := elems + rest;
    Assoc([tag] + Le32(n), elems, rest);
    Assoc([tag], Le32(n), body);
    TakeByte(tag, Le32(n) + body);
    Take32Encoded(n, body);
  }

  lemma ArrayRoundTrip(total: nat, e: map<TableKey, Scalar>, rest: seq<byte>)
    requires IsArray(e, ArrayTag(e), |e|) && (forall i :: i in e ==> ShortScalar(e[i]))
    requires |ArrayBytes(e) + rest| <= total < U32
    ensures DecodeArray(total, ArrayBytes(e) + rest) == Done(CanonValue(Array(e)), rest)
  {
    var tag, n := ArrayTag(e), |e|;
    ArrayKeys(e, tag, n);
    if n == 0 {
      assert Elems(e, 0, n) + rest == rest;
    } else {
      assert CanonUpTo(e, 0) == map[];
      ElemsRoundTrip(total, e, tag, n, 0, rest);
    }
    ArrayDecodes(total, tag, n, Elems(e, 0, n), CanonUpTo(e, n), rest);
  }

  lemma ValueRoundTrip(total: nat, v: Value, rest: seq<byte>)
    requires Encodable(v) && ShortValue(v) && |EncodeValue(v) + rest| <= total < U32
    ensures DecodeValue(total, EncodeValue(v) + rest) == Done(CanonValue(v), rest)
  {
    match v {
      case Plain(s) =>
        Assoc([Tag(s)], Payload(s), rest);
        TakeByte(Tag(s), Payload(s) + rest);
        ScalarRoundTrip(total, s, rest);
      case Array(e) =>
        Assoc([5], ArrayBytes(e), rest);
        TakeByte(5, ArrayBytes(e) + rest);
        ArrayRoundTrip(total, e, rest);
    }
  }

  lemma FieldDecodes(total: nat, k: Key, enc: seq<byte>, v: Value, rest: seq<byte>)
    requires |k| <= MAX_KEY_LEN && |k + (enc + rest)| <= total < U32
    requires DecodeValue(total, enc + rest) == Done(v, rest)
    ensures DecodeField(total, Le16(|k|) + k + enc + rest) == Done((k, v), rest)
  {
    var body := enc + rest;
    Assoc(Le16(|k|) + k, enc, rest);
    Assoc(Le16(|k|), k, body);
    Take16Encoded(|k|, k + body);
  }

  predicate ShortField(t: Table, k: Key) {
    Name(k) in t && ShortValue(t[Name(k)]) && |k| <= MAX_KEY_LEN
  }

  predicate ShortFields(t: Table, ks: seq<Key>) {
    forall i :: 0 <= i < |ks| ==> ShortField(t, ks[i])
  }

  lemma FieldRoundTrip(total: nat, t: Table, k: Key, rest: seq<byte>)
    requires HasField(t, k) && ShortField(t, k) && |Field(t, k) + rest| <= total < U32
    ensures DecodeField(total, Field(t, k) + rest) == Done((k, CanonValue(t[Name(k)])), rest)
  {
    ValueRoundTrip(total, t[Name(k)], rest);
    FieldDecodes(total, k, EncodeValue(t[Name(k)]), CanonValue(t[Name(k)]), rest);
  }

  /** acc extended with the canonical fields of t named in ks. */
  function WithFields(acc: Table, t: Table, ks: seq<Key>): Table
    requires HasFields(t, ks)
    decreases |ks|
  {
    if ks == [] then acc else WithFields(acc[Name(ks[0]) := CanonValue(t[Name(ks[0])])], t, ks[1..])
  }

  lemma {:induction false} FieldsRoundTrip(total: nat, t: Table, ks: seq<Key>, rest: seq<byte>, acc: Table)
    requires HasFields(t, ks) && ShortFields(t, ks) && |Fields(t, ks) + rest| <= total < U32
    ensures DecodeFields(total, |ks|, Fields(t, ks) + rest, acc) == Done(WithFields(acc, t, ks), rest)
    decreases |ks|
  {
    if ks == [] {
      assert Fields(t, ks) + rest == rest;
    } else {
      assert HasField(t, ks[0]) && ShortField(t, ks[0]);
      var v := CanonValue(t[Name(ks[0])]);
      var more := Fields(t, ks[1..]) + rest;
      assert DecodeField(total, Fields(t, ks) + rest) == Done((ks[0], v), more) by {
        Assoc(Field(t, ks[0]), Fields(t, ks[1..]), rest);
        FieldRoundTrip(total, t, ks[0], more);
      }
      FieldsRoundTrip(total, t, ks[1..], rest, acc[Name(ks[0]) := v]);
    }
  }

  lemma {:induction false} WithFieldsIs(acc: Table, t: Table, ks: seq<Key>, k: TableKey)
    requires HasFields(t, ks)
    ensures k in WithFields(acc, t, ks) <==> k in acc || (k.Name? && k.k in ks)
    ensures k in WithFields(acc, t, ks) ==>
              WithFields(acc, t, ks)[k] == if k.Name? && k.k in ks then CanonValue(t[k]) else acc[k]
    decreases |ks|
  {
    if ks != [] {
      WithFieldsIs(acc[Name(ks[0]) := CanonValue(t[Name(ks[0])])], t, ks[1..], k);
    }
  }

  lemma FlattenableHasFields(t: Table, ks: seq<Key>)
    requires Flattenable(t) && Canonical(t, ks)
    ensures HasFields(t, ks) && forall k :: k in t ==> k.Name? && k.k in ks
    ensures ShortStrings(t) ==> ShortFields(t, ks)
  {
    forall i | 0 <= i < |ks|
      ensures Name(ks[i]) in t
    {
      assert ks[i] in ks;
      assert Name(ks[i]) in t.Keys;
    }
    forall k | k in t
      ensures k.Name? && k.k in ks
    {
      assert k in t.Keys;
    }
  }

  lemma CollectedFields(t: Table, ks: seq<Key>)
    requires HasFields(t, ks) && forall k :: k in t ==> k.Name? && k.k in ks
    ensures WithFields(map[], t, ks) == CanonTable(t)
  {
    var got := WithFields(map[], t, ks);
    forall k
      ensures k in got <==> k in CanonTable(t)
      ensures k in got ==> got[k] == CanonTable(t)[k]
    {
      WithFieldsIs(map[], t, ks, k);
      if k.Name? && k.k in ks {
        var i :| 0 <= i < |ks| && ks[i] == k.k;
        assert HasField(t, ks[i]);
      }
    }
  }

  /** Reading back what was written gives the table with its NaNs canonical, whatever follows
      in the buffer. */
  lemma RoundTrip(t: Table, ks: seq<Key>, rest: seq<byte>)
    requires Flattenable(t) && ShortStrings(t) && Canonical(t, ks)
    requires HasFields(t, ks) && |Encoding(t, ks) + rest| < U32
    ensures Decode(Encoding(t, ks) + rest) == Done(CanonTable(t), rest)
  {
    FlattenableHasFields(t, ks);
    CanonicalLength(t, ks);
    Assoc(Le32(|ks|), Fields(t, ks), rest);
    Take32Encoded(|ks|, Fields(t, ks) + rest);
    FieldsRoundTrip(|Encoding(t, ks) + rest|, t, ks, rest, map[]);
    CollectedFields(t, ks);
  }

  ghost predicate NanFreeScalar(s: Scalar) {
    s.Float? ==> !Nan(s.f, 52, 63)
  }

  ghost predicate NanFree(t: Table) {
    forall k :: k in t ==> NanFreeValue(t[k])
  }

  ghost predicate NanFreeValue(v: Value) {
    match v
    case Plain(s) => NanFreeScalar(s)
    case Array(e) => forall k :: k in e ==> NanFreeScalar(e[k])
  }

  lemma NanFreeKept(v: Value)
    requires NanFreeValue(v)
    ensures CanonValue(v) == v
  {
    match v {
      case Plain(s) =>
        if s.Float? {
          CanonExactly(s.f);
        }
      case Array(e) =>
        forall k | k in e
          ensures CanonScalar(e[k]) == e[k]
        {
          if e[k].Float? {
            CanonExactly(e[k].f);
          }
        }
        assert CanonValue(v).entries == e;
    }
  }

  lemma NanFreeTable(t: Table)
    requires NanFree(t)
    ensures CanonTable(t) == t
  {
    forall k | k in t
      ensures CanonValue(t[k]) == t[k]
    {
      NanFreeKept(t[k]);
    }
  }

  /** A table without NaNs comes back as it was. */
  lemma RoundTripExact(t: Table, ks: seq<Key>, rest: seq<byte>)
    requires Flattenable(t) && ShortStrings(t) && Canonical(t, ks) && NanFree(t)
    requires HasFields(t, ks) && |Encoding(t, ks) + rest| < U32
    ensures Decode(Encoding(t, ks) + rest) == Done(t, rest)
  {
    RoundTrip(t, ks, rest);
    NanFreeTable(t);
  }

  /** Tables with the same bytes are the same table up to NaN patterns. */
  lemma EncodingInjective(t: Table, ks: seq<Key>, u: Table, us: seq<Key>)
    requires Flattenable(t) && ShortStrings(t) && Canonical(t, ks) && HasFields(t, ks)
    requires Flattenable(u) && ShortStrings(u) && Canonical(u, us) && HasFields(u, us)
    requires |Encoding(t, ks)| < U32 && Encoding(t, ks) == Encoding(u, us)
    ensures CanonTable(t) == CanonTable(u)
  {
    assert Encoding(t, ks) + [] == Encoding(t, ks) && Encoding(u, us) + [] == Encoding(u, us);
    RoundTrip(t, ks, []);
    RoundTrip(u, us, []);
  }
  /** Tables without NaNs that have the same bytes are the same table. */
  lemma EncodingInjectiveExact(t: Table, ks: seq<Key>, u: Table, us: seq<Key>)
    requires Flattenable(t) && ShortStrings(t) && Canonical(t, ks) && HasFields(t, ks) && NanFree(t)
    requires Flattenable(u) && ShortStrings(u) && Canonical(u, us) && HasFields(u, us) && NanFree(u)
    requires |Encoding(t, ks)| < U32 && Encoding(t, ks) == Encoding(u, us)
    ensures t == u
  {
    EncodingInjective(t, ks, u, us);
    NanFreeTable(t);
    NanFreeTable(u);
  }
  lemma SampleValues()
    ensures EncodeValue(Plain(Bool(true))) == [1, 1]
    ensures EncodeValue(Plain(Int(0xffff_ffff_ffff_fffe))) == [2, 254, 255, 255, 255, 255, 255, 255, 255]
    ensures EncodeValue(Plain(Float(0x3ff8_0000_0000_0000))) == [3, 0, 0, 0, 0, 0, 0, 248, 63]
    ensures EncodeValue(Plain(Str([104, 105]))) == [4, 2, 0, 0, 0, 104, 105]
  {
  }

  lemma SampleCount(e: map<TableKey, Scalar>)
    requires e == map[Index(1) := Int(7)]
    ensures |e| == 1 && ArrayTag(e) == 2 && Encodable(Array(e))
  {
    assert e.Keys == {Index(1)} && |e.Keys| == 1;
  }

  lemma SampleElems(e: map<TableKey, Scalar>)
    requires Index(1) in e && e[Index(1)] == Int(7)
    ensures Elems(e, 0, 1) == [7, 0, 0, 0, 0, 0, 0, 0]
  {
    assert Elems(e, 1, 1) == [];
  }

  lemma SampleArray(e: map<TableKey, Scalar>)
    requires e == map[Index(1) := Int(7)]
    ensures Encodable(Array(e))
    ensures EncodeValue(Array(e)) == [5, 2, 1, 0, 0, 0, 7, 0, 0, 0, 0, 0, 0, 0]
  {
    SampleCount(e);
    SampleElems(e);
  }

  lemma FieldBytes(t: Table, c: byte, rest: seq<Key>)
    requires HasFields(t, rest) && HasField(t, [c])
    ensures HasFields(t, [[c]] + rest)
    ensures Fields(t, [[c]] + rest) == [1, 0, c] + EncodeValue(t[Name([c])]) + Fields(t, rest)
  {
    var ks := [[c]] + rest;
    assert ks[1..] == rest && ks[0] == [c];
    assert Field(t, [c]) == [1, 0, c] + EncodeValue(t[Name([c])]);
  }

  /** The wire format, on a table with a field of every kind:
      { a = true, b = -2, c = 1.5, d = "hi", e = { 7 } }. */
  lemma SampleBytes(t: Table)
    requires Name([97]) in t && t[Name([97])] == Plain(Bool(true))
    requires Name([98]) in t && t[Name([98])] == Plain(Int(0xffff_ffff_ffff_fffe))
    requires Name([99]) in t && t[Name([99])] == Plain(Float(0x3ff8_0000_0000_0000))
    requires Name([100]) in t && t[Name([100])] == Plain(Str([104, 105]))
    requires Name([101]) in t && t[Name([101])] == Array(map[Index(1) := Int(7)])
    ensures HasFields(t, [[97], [98], [99], [100], [101]])
    ensures Encoding(t, [[97], [98], [99], [100], [101]])
         == [5, 0, 0, 0]
            + ([1, 0, 97] + [1, 1]
               + ([1, 0, 98] + [2, 254, 255, 255, 255, 255, 255, 255, 255]
                  + ([1, 0, 99] + [3, 0, 0, 0, 0, 0, 0, 248, 63]
                     + ([1, 0, 100] + [4, 2, 0, 0, 0, 104, 105]
                        + ([1, 0, 101] + [5, 2, 1, 0, 0, 0, 7, 0, 0, 0, 0, 0, 0, 0] + [])))))
  {
    SampleValues();
    SampleArray(t[Name([101])].entries);
    var e := [[101]] + [];
    FieldBytes(t, 101, []);
    var d := [[100]] + e;
    FieldBytes(t, 100, e);
    var c := [[99]] + d;
    FieldBytes(t, 99, d);
    var b := [[98]] + c;
    FieldBytes(t, 98, c);
    FieldBytes(t, 97, b);
    assert [[97]] + b == [[97], [98], [99], [100], [101]];
  }
}
