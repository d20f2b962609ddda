/** The symbol table, placement and relocation as functions. */
module Loader {
  import opened Bytes
  import opened LoaderSpec

  // ------------------------------------------------------------ symbol table

  predicate Named(defs: seq<Def>, name: string) {
    exists i :: 0 <= i < |defs| && defs[i].name == name
  }

  /** Names are kept in 64-byte fields. */
  function Clip(name: string): string {
    if |name| <= 63 then name else name[..63]
  }

  function AddSym(syms: seq<Def>, d: Def): seq<Def> {
    if |syms| >= SYM_MAX || Named(syms, d.name) then syms else syms + [Def(Clip(d.name), d.addr)]
  }

  function AddAll(syms: seq<Def>, defs: seq<Def>): seq<Def> {
    if defs == [] then syms else AddSym(AddAll(syms, defs[..|defs| - 1]), defs[|defs| - 1])
  }

  lemma {:induction false} AddAllAppend(syms: seq<Def>, a: seq<Def>, b: seq<Def>)
    ensures AddAll(syms, a + b) == AddAll(AddAll(syms, a), b)
  {
    if b == [] {
      assert a + b == a;
    } else {
      AddAllAppend(syms, a, b[..|b| - 1]);
      assert (a + b)[..|a + b| - 1] == a + b[..|b| - 1];
    }
  }

  lemma {:induction false} FirstOfAppend(defs: seq<Def>, d: Def, name: string)
    ensures FirstDefinition(defs + [d], name)
         == if Named(defs, name) then FirstDefinition(defs, name) else if d.name == name then d.addr else 0
    ensures !Named(defs, name) ==> FirstDefinition(defs, name) == 0
  {
    if defs != [] {
      if Named(defs[1..], name) {
        var i :| 0 <= i < |defs[1..]| && defs[1..][i].name == name;
        assert defs[i + 1].name == name;
      }
      FirstOfAppend(defs[1..], d, name);
      assert (defs + [d])[1..] == defs[1..] + [d];
      if defs[0].name != name && Named(defs, name) {
        var i :| 0 <= i < |defs| && defs[i].name == name;
        assert defs[1..][i - 1].name == name;
      }
    }
  }

  /** A table that never filled up answers with the first definition of every name. */
  lemma {:induction false} TableIsFirstDefinitions(defs: seq<Def>, name: string)
    requires forall i :: 0 <= i < |defs| ==> |defs[i].name| < 63
    requires |AddAll([], defs)| < SYM_MAX
    ensures FirstDefinition(AddAll([], defs), name) == FirstDefinition(defs, name)
    ensures Named(AddAll([], defs), name) <==> Named(defs, name)
  {
    if defs != [] {
      var front, d := defs[..|defs| - 1], defs[|defs| - 1];
      var table := AddAll([], front);
      TableIsFirstDefinitions(front, name);
      TableIsFirstDefinitions(front, d.name);
      assert defs == front + [d];
      FirstOfAppend(front, d, name);
      FirstOfAppend(table, d, name);
      assert Named(defs, name) <==> Named(front, name) || d.name == name by {
        if Named(front, name) {
          var i :| 0 <= i < |front| && front[i].name == name;
          assert defs[i].name == name;
        }
        assert defs[|defs| - 1] == d;
      }
      assert Clip(d.name) == d.name;
      assert Named(table + [d], name) <==> Named(table, name) || d.name == name by {
        if Named(table, name) {
          var i :| 0 <= i < |table| && table[i].name == name;
          assert (table + [d])[i].name == name;
        }
        assert (table + [d])[|table|] == d;
      }
    }
  }

  // ------------------------------------------------------------------ layout

  function MapSegment(mem: Memory, base: nat, s: Segment): Memory {
    var at := Add32(base, s.vaddr);
    var filled := Poke(mem, at, s.data);
    if s.memsz > |s.data| then Poke(filled, at + |s.data|, Zeros(s.memsz - |s.data|)) else filled
  }

  function MapSegments(mem: Memory, base: nat, segments: seq<Segment>, n: nat): Memory
    requires n <= |segments|
  {
    if n == 0 then mem else MapSegment(MapSegments(mem, base, segments, n - 1), base, segments[n - 1])
  }

  function MapImages(mem: Memory, libs: seq<Loaded>): Memory {
    if libs == [] then mem
    else
      var l := libs[|libs| - 1];
      MapSegments(MapImages(mem, libs[..|libs| - 1]), l.base, l.image.segments, |l.image.segments|)
  }

  function Mapping(mem: Memory, libs: seq<Loaded>): Memory {
    MapImages(mem, libs)
  }

  /** b is the first page boundary from a on. */
  predicate NextPage(a: nat, b: nat) {
    a <= b < a + LIB_ALIGN && b % LIB_ALIGN == 0
  }

  /** The first library starts at the load address, and each next one on the first page boundary that is
      not below the end of the one before. */
  ghost predicate PlacedAt(libs: seq<Loaded>, next: nat, i: nat) {
    i < |libs| ==>
      && LIB_LOAD_ADDR <= libs[i].base && libs[i].base % LIB_ALIGN == 0
      && (i == 0 ==> libs[i].base == LIB_LOAD_ADDR)
      && libs[i].base <= Extent(libs[i].image.segments, libs[i].base, |libs[i].image.segments|)
      && NextPage(Extent(libs[i].image.segments, libs[i].base, |libs[i].image.segments|),
                  if i + 1 < |libs| then libs[i + 1].base else next)
  }

  ghost predicate Placed(libs: seq<Loaded>, next: nat) {
    && LIB_LOAD_ADDR <= next <= LIB_LOAD_ADDR + |libs| * GUEST_MEMORY && next % LIB_ALIGN == 0
    && (libs == [] ==> next == LIB_LOAD_ADDR)
    && forall i: nat :: PlacedAt(libs, next, i)
  }

  lemma PlacedGrows(libs: seq<Loaded>, next: nat, l: Loaded)
    requires Placed(libs, next) && l.base == next && Fits(l.image) && |libs| < LIB_MAX
    ensures Placed(libs + [l], NextBase(l))
  {
    var all := libs + [l];
    var segments := l.image.segments;
    assert |libs| * GUEST_MEMORY <= 7 * GUEST_MEMORY;
    ExtentBounds(segments, next, |segments|);
    PageUpBounds(Extent(segments, next, |segments|));
    forall i: nat
      ensures PlacedAt(all, NextBase(l), i)
    {
      assert PlacedAt(libs, next, i);
    }
  }

  /** Placed libraries occupy disjoint address ranges, in load order. */
  lemma {:induction false} PlacedDisjoint(libs: seq<Loaded>, next: nat, i: nat, j: nat)
    requires Placed(libs, next) && i < j < |libs|
    ensures Extent(libs[i].image.segments, libs[i].base, |libs[i].image.segments|) <= libs[j].base
    ensures libs[i].base % LIB_ALIGN == 0 && libs[j].base % LIB_ALIGN == 0
    decreases j
  {
    assert PlacedAt(libs, next, i) && PlacedAt(libs, next, j) && PlacedAt(libs, next, j - 1);
    if i < j - 1 {
      PlacedDisjoint(libs, next, i, j - 1);
    }
  }

  // -------------------------------------------------------------- relocation

  /** The word a library relocation writes, given the finished symbol table. */
  function LibWrite(syms: seq<Def>, base: nat, dynsym: Option<seq<Symbol>>, r: Rela): Option<Write> {
    var at := Add32(base, r.offset);
    var symbolic := r.sym != 0 && dynsym.Some? && r.sym < |dynsym.value|;
    match r.kind
    case Relative => Some(Write(at, Add32(base, r.addend)))
    case Word32 => Some(Write(at, if symbolic then Add32(Resolve(syms, base, dynsym.value[r.sym]), r.addend)
                                  else r.addend % U32))
    case JumpSlot => if symbolic then Some(Write(at, Resolve(syms, base, dynsym.value[r.sym]) % U32)) else None
    case GlobDat =>
      if symbolic then Some(Write(at, Add32(Resolve(syms, base, dynsym.value[r.sym]), r.addend))) else None
    case None_ => None
    case Unhandled => None
  }

  function Opt(w: Option<Write>): seq<Write> {
    if w.Some? then [w.value] else []
  }

  function LibWrites(syms: seq<Def>, l: Loaded, n: nat): seq<Write>
    requires n <= |l.image.relas|
  {
    if n == 0 then []
    else
      var w := LibWrite(syms, l.base, l.image.dynsym, l.image.relas[n - 1]);
      LibWrites(syms, l, n - 1) + Opt(w)
  }

  function LibsWrites(syms: seq<Def>, libs: seq<Loaded>): seq<Write> {
    if libs == [] then []
    else LibsWrites(syms, libs[..|libs| - 1])
         + LibWrites(syms, libs[|libs| - 1], |libs[|libs| - 1].image.relas|)
  }

  /** Step 3: a PLT slot of the cart takes the address itself, or stays as it was. */
  function PltWrite(syms: seq<Def>, dynsym: seq<Symbol>, r: Rela): Option<Write> {
    if (r.kind == JumpSlot || r.kind == GlobDat) && 0 < r.sym < |dynsym| then
      var a := FirstDefinition(syms, dynsym[r.sym].name);
      if a != 0 then Some(Write(r.offset, a % U32)) else None
    else None
  }

  /** Step 4: the cart's other relocations; its own base is zero. */
  function CartWrite(syms: seq<Def>, dynsym: seq<Symbol>, r: Rela): Option<Write> {
    var symbolic := 0 < r.sym < |dynsym|;
    var a := if symbolic then FirstDefinition(syms, dynsym[r.sym].name) else 0;
    match r.kind
    case JumpSlot => if a != 0 then Some(Write(r.offset, Add32(a, r.addend))) else None
    case GlobDat => if a != 0 then Some(Write(r.offset, Add32(a, r.addend))) else None
    case Word32 =>
      var own := if symbolic && a == 0 then dynsym[r.sym].value else a;
      Some(Write(r.offset, Add32(own, r.addend)))
    case Relative => Some(Write(r.offset, r.addend % U32))
    case None_ => None
    case Unhandled => None
  }

  function CartWrites(syms: seq<Def>, dynsym: seq<Symbol>, relas: seq<Rela>, plt: bool, n: nat): seq<Write>
    requires n <= |relas|
  {
    if n == 0 then []
    else
      var w := if plt then PltWrite(syms, dynsym, relas[n - 1]) else CartWrite(syms, dynsym, relas[n - 1]);
      CartWrites(syms, dynsym, relas, plt, n - 1) + Opt(w)
  }

  function AllWrites(syms: seq<Def>, cart: Cart, libs: seq<Loaded>): seq<Write> {
    LibsWrites(syms, libs)
    + match cart.dynsym
      case None => []
      case Some(d) => CartWrites(syms, d, cart.jmprel, true, |cart.jmprel|)
                      + CartWrites(syms, d, cart.rela, false, |cart.rela|)
  }

  function InForce(cart: Cart, libs: seq<Loaded>): seq<Def> {
    Definitions(cart, libs)
  }

  /** The finished symbol table: the cart's definitions, then each library's. */
  function SymTable(cart: Cart, libs: seq<Loaded>): seq<Def> {
    AddAll([], Definitions(cart, libs))
  }

  /** Memory after the link: the images mapped, then every relocation written. */
  function Linked(mem: Memory, cart: Cart, libs: seq<Loaded>): Memory {
    Apply(MapImages(mem, libs), AllWrites(SymTable(cart, libs), cart, libs))
  }
}
