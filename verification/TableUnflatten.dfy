/** `lua_table_unflatten`: the reader. Any bytes may be given to it, so it is proved against the decoder
    of the format, which turns every byte string into a table or an error. */
module TableUnflatten {
  import opened Bytes
  import opened KeyOrder
  import opened TableCodec

  const MAX_SOURCE: nat := U32 - 0x100_0000

  class Source {
    const src: seq<byte>
    var pos: nat
    var underflowed: bool

    ghost predicate Valid()
      reads this
    {
      pos <= |src| < MAX_SOURCE
    }

    ghost function Rest(): seq<byte>
      requires Valid()
      reads this
    {
      src[pos..]
    }

    constructor (src: seq<byte>)
      requires |src| < MAX_SOURCE
      ensures Valid() && this.src == src && pos == 0 && !underflowed
    {
      this.src := src;
      pos, underflowed := 0, false;
    }

    method TakeU8() returns (v: byte)
      requires Valid()
      modifies this
      ensures Valid() && (old(underflowed) ==> underflowed)
      ensures old(pos) < |src| ==> v == src[old(pos)] && pos == old(pos) + 1 && underflowed == old(underflowed)
      ensures old(pos) == |src| ==> v == 0 && pos == |src| && underflowed
    {
      if pos + 1 > |src| {
        underflowed := true;
        return 0;
      }
      v := src[pos];
      pos := pos + 1;
    }

    method TakeU16() returns (v: nat)
      requires Valid()
      modifies this
      ensures Valid() && v < U16 && (old(underflowed) ==> underflowed)
      ensures match Take(old(Rest()), 2)
              case Done(w, rest) => v == w && Rest() == rest && underflowed == old(underflowed)
              case Fail(_) => underflowed
    {
      ghost var start := Rest();
      var a := TakeU8();
      var b := TakeU8();
      v := a as int + 256 * b as int;
      if |start| >= 2 {
        assert start[..2] == [a, b];
        TwoBytes([a, b]);
      }
    }

    method TakeU32() returns (v: nat)
      requires Valid()
      modifies this
      ensures Valid() && v < U32 && (old(underflowed) ==> underflowed)
      ensures match Take(old(Rest()), 4)
              case Done(w, rest) => v == w && Rest() == rest && underflowed == old(underflowed)
              case Fail(_) => underflowed && pos == |src| && v < 0x100_0000
    {
      ghost var start := Rest();
      var a := TakeU8();
      var b := TakeU8();
      var c := TakeU8();
      var d := TakeU8();
      v := a as int + 0x100 * b as int + 0x1_0000 * c as int + 0x100_0000 * d as int;
      if |start| >= 4 {
        assert start[..4] == [a, b, c, d];
        FourBytes([a, b, c, d]);
      }
    }

    method TakeU64() returns (v: word64)
      requires Valid() && !underflowed
      modifies this
      ensures Valid()
      ensures match Take64(old(Rest()))
              case Done(w, rest) => v == w && Rest() == rest && !underflowed
              case Fail(why) => why == Overflow && underflowed
    {
      var lo := TakeU32();
      var hi := TakeU32();
      v := lo + U32 * hi;
    }

    /** A run of n bytes, behind the guard `pos + n > len` in 32-bit arithmetic. */
    method TakeRunOf(n: nat) returns (status: Status, run: seq<byte>)
      requires Valid() && n < U32
      modifies this
      ensures Valid() && (status == Overflow || underflowed == old(underflowed))
      ensures match TakeRun(|src|, old(Rest()), n)
              case Done(r, rest) => status == Ok && run == r && Rest() == rest
              case Fail(why) => status == why
    {
      run := [];
      if (pos + n) % U32 > |src| {
        underflowed := true;
        return Overflow, [];
      }
      if pos + n > |src| {
        return Wild, [];
      }
      run := src[pos..pos + n];
      pos := pos + n;
      status := Ok;
    }

    /** The payload of one value. A boolean or number cut short is reported by the flag only. */
    method ReadScalar(tag: nat) returns (status: Status, v: Scalar)
      requires Valid() && !underflowed
      modifies this
      ensures Valid()
      ensures match DecodeScalar(|src|, tag, old(Rest()))
              case Done(w, rest) => status == Ok && v == w && Rest() == rest && !underflowed
              case Fail(why) => status == why || (status == Ok && underflowed && why == Overflow)
    {
      status, v := Ok, Other(0);
      if tag == 1 {
        var b := TakeU8();
        v := Bool(b != 0);
        if old(pos) < |src| { assert old(Rest())[..1] == [b] && [b][1..] == []; }
      } else if tag == 2 {
        var i := TakeU64();
        v := Int(i);
      } else if tag == 3 {
        var f := TakeU64();
        v := Float(f);
      } else if tag == 4 {
        var n := TakeU32();
        var run;
        status, run := TakeRunOf(n);
        v := Str(run);
      } else {
        status := UnsupportedType;
      }
    }

    /** `unflatten_array`, past the array tag. */
    method ReadArray() returns (status: Status, v: Value)
      requires Valid() && !underflowed
      modifies this
      ensures Valid()
      ensures match DecodeArray(|src|, old(Rest()))
              case Done(w, rest) => status == Ok && v == w && Rest() == rest && !underflowed
              case Fail(why) => status == why
    {
      status, v := Ok, Array(map[]);
      var tag := TakeU8();
      if old(pos) < |src| { assert old(Rest())[..1] == [tag] && [tag][1..] == []; }
      var n := TakeU32();
      if underflowed {
        return Overflow, v;
      }
      var e;
      status, e := ReadElems(tag, n);
      v := Array(e);
    }

    /** The element loop. */
    method ReadElems(tag: nat, n: nat) returns (status: Status, e: map<TableKey, Scalar>)
      requires Valid() && !underflowed
      modifies this
      ensures Valid()
      ensures match DecodeElems(|src|, tag, n, 0, old(Rest()), map[])
              case Done(w, rest) => status == Ok && e == w && Rest() == rest && !underflowed
              case Fail(why) => status == why
    {
      ghost var start := Rest();
      e := map[];
      for i := 0 to n
        invariant Valid() && !underflowed
        invariant DecodeElems(|src|, tag, n, i, Rest(), e) == DecodeElems(|src|, tag, n, 0, start, map[])
      {
        var x;
        status, x := ReadScalar(tag);
        if status != Ok {
          return;
        }
        if underflowed {
          return Overflow, e;
        }
        e := e[Index(i + 1) := x];
      }
      status := Ok;
    }

    method ReadValue() returns (status: Status, v: Value)
      requires Valid() && !underflowed
      modifies this
      ensures Valid()
      ensures match DecodeValue(|src|, old(Rest()))
              case Done(w, rest) => status == Ok && v == w && Rest() == rest && !underflowed
              case Fail(why) => status == why || (status == Ok && underflowed && why == Overflow)
    {
      v := Plain(Other(0));
      var tag := TakeU8();
      if underflowed {
        return Overflow, v;
      }
      assert old(Rest())[..1] == [tag] && [tag][1..] == [];
      if tag == 5 {
        status, v := ReadArray();
      } else {
        var s;
        status, s := ReadScalar(tag);
        v := Plain(s);
      }
    }

    method ReadField() returns (status: Status, k: Key, v: Value)
      requires Valid() && !underflowed
      modifies this
      ensures Valid()
      ensures match DecodeField(|src|, old(Rest()))
              case Done(f, rest) => status == Ok && (k, v) == f && Rest() == rest && !underflowed
              case Fail(why) => status == why || (status == Ok && underflowed && why == Overflow)
    {
      k, v := [], Plain(Other(0));
      var n := TakeU16();
      if underflowed || n > MAX_KEY_LEN {
        return Overflow, k, v;
      }
      status, k := TakeRunOf(n);
      if status != Ok {
        return;
      }
      status, v := ReadValue();
    }

    /** What the whole parse comes to with n fields still to come after those in t. */
    ghost function Ahead(n: nat, t: Table): Parse<Table>
      requires Valid()
      reads this
    {
      if underflowed then Fail(Overflow) else DecodeFields(|src|, n, Rest(), t)
    }

    /** One turn of the field loop, with n fields still to come. */
    method ReadOne(n: nat, t: Table, ghost goal: Parse<Table>) returns (status: Status, u: Table)
      requires Valid() && n > 0 && goal == Ahead(n, t)
      modifies this
      ensures Valid()
      ensures if status != Ok then goal == Fail(status) else goal == Ahead(n - 1, u)
    {
      if underflowed {
        return Overflow, t;
      }
      var k, v;
      FieldsStep(|src|, n, Rest(), t);
      status, k, v := ReadField();
      u := t[Name(k) := v];
    }

    /** The field loop. */
    method ReadFields(n: nat, ghost goal: Parse<Table>) returns (status: Status, t: Table)
      requires Valid() && goal == Ahead(n, map[])
      modifies this
      ensures Valid()
      ensures if status != Ok then goal == Fail(status) else goal == Ahead(0, t)
    {
      status, t := Ok, map[];
      for i := 0 to n
        invariant Valid() && goal == Ahead(n - i, t) && status == Ok
      {
        status, t := ReadOne(n - i, t, goal);
        if status != Ok {
          return;
        }
      }
    }
  }

  lemma FieldsDone(total: nat, s: seq<byte>, acc: Table)
    ensures DecodeFields(total, 0, s, acc) == Done(acc, s)
  {
  }

  lemma FieldsStep(total: nat, n: nat, s: seq<byte>, acc: Table)
    requires n > 0
    ensures DecodeFields(total, n, s, acc)
         == match DecodeField(total, s)
            case Fail(why) => Fail(why)
            case Done(f, rest) => DecodeFields(total, n - 1, rest, acc[Name(f.0) := f.1])
  {
  }

  /** `lua_table_unflatten`: what it makes of any bytes is what the format says. */
  method Unflatten(src: seq<byte>) returns (status: Status, t: Table)
    requires |src| < MAX_SOURCE
    ensures match Decode(src)
            case Done(u, _) => status == Ok && t == u
            case Fail(why) => status == why
  {
    var s := new Source(src);
    assert src[0..] == src;
    var nkeys := s.TakeU32();
    if s.underflowed || nkeys > MAX_FIELDS {
      return Overflow, map[];
    }
    ghost var goal := DecodeFields(|src|, nkeys, s.Rest(), map[]);
    status, t := s.ReadFields(nkeys, goal);
    if status == Ok {
      FieldsDone(|src|, s.Rest(), t);
      if s.underflowed {
        status := Overflow;
      }
    }
  }
}
