/** What the multi-library loader should compute, stated without its tables or passes. */
module LoaderSpec {
  import opened Bytes

  const LIB_LOAD_ADDR: nat := 0x0800_0000
  const LIB_ALIGN: nat := 0x1000
  const GUEST_MEMORY: nat := 0x1000_0000
  const SYM_MAX: nat := 4096
  const LIB_MAX: nat := 8

  /** A parsed ELF image. `memsz` of a segment may exceed its file bytes. */
  datatype Segment = Segment(vaddr: nat, data: seq<byte>, memsz: nat)
  datatype Symbol = Symbol(name: string, value: nat, defined: bool, bind: nat)
  datatype Kind = None_ | Word32 | Relative | JumpSlot | GlobDat | Unhandled
  datatype Rela = Rela(offset: nat, kind: Kind, sym: nat, addend: nat)
  datatype Image = Image(segments: seq<Segment>, dynsym: Option<seq<Symbol>>, relas: seq<Rela>, needed: seq<string>)
  datatype Cart = Cart(exports: seq<Symbol>, dynsym: Option<seq<Symbol>>, needed: seq<string>,
                       jmprel: seq<Rela>, rela: seq<Rela>)

  datatype Loaded = Loaded(soname: string, base: nat, image: Image)
  datatype Def = Def(name: string, addr: nat)
  datatype Write = Write(at: nat, value: nat)

  type Memory = map<nat, byte>

  function Add32(a: nat, b: nat): nat {
    (a + b) % U32
  }

  // ---------------------------------------------------------------- symbols

  predicate Exported(s: Symbol) {
    s.defined && s.value != 0 && (s.bind == 1 || s.bind == 2) && s.name != ""
  }

  /** Definitions among the first n symbols; entry 0 is the null symbol. */
  function Exports(symbols: seq<Symbol>, base: nat, n: nat): seq<Def>
    requires n <= |symbols|
  {
    if n <= 1 then []
    else if Exported(symbols[n - 1]) then
      Exports(symbols, base, n - 1) + [Def(symbols[n - 1].name, Add32(base, symbols[n - 1].value))]
    else Exports(symbols, base, n - 1)
  }

  function ImageDefs(l: Loaded): seq<Def> {
    match l.image.dynsym
    case None => []
    case Some(symbols) => Exports(symbols, l.base, |symbols|)
  }

  /** Every definition in force: the cart's, then each library's in load order. */
  function Definitions(cart: Cart, libs: seq<Loaded>): seq<Def> {
    if libs == [] then Exports(cart.exports, 0, |cart.exports|)
    else Definitions(cart, libs[..|libs| - 1]) + ImageDefs(libs[|libs| - 1])
  }

  /** Address given by the first definition of name, or 0. */
  function FirstDefinition(defs: seq<Def>, name: string): nat {
    if defs == [] then 0
    else if defs[0].name == name then defs[0].addr
    else FirstDefinition(defs[1..], name)
  }

  /** What a reference of a module resolves to: the first definition anywhere, else the
      module's own value, else zero. */
  function Resolve(defs: seq<Def>, base: nat, s: Symbol): nat {
    var found := FirstDefinition(defs, s.name);
    if found != 0 then found else if s.value != 0 then Add32(base, s.value) else 0
  }

  // ----------------------------------------------------------- dependencies

  /** path follows DT_NEEDED entries of the available images. */
  predicate IsPath(fs: map<string, Image>, path: seq<string>) {
    && |path| > 0
    && forall i :: 0 <= i < |path| - 1 ==> path[i] in fs && path[i + 1] in fs[path[i]].needed
  }

  ghost predicate Reaches(fs: map<string, Image>, from: string, to: string) {
    exists path :: IsPath(fs, path) && path[0] == from && path[|path| - 1] == to
  }

  lemma ReachesSelf(fs: map<string, Image>, a: string)
    ensures Reaches(fs, a, a)
  {
    assert IsPath(fs, [a]);
  }

  lemma ReachesThrough(fs: map<string, Image>, a: string, b: string, c: string)
    requires a in fs && b in fs[a].needed && Reaches(fs, b, c)
    ensures Reaches(fs, a, c)
  {
    var path :| IsPath(fs, path) && path[0] == b && path[|path| - 1] == c;
    var longer := [a] + path;
    forall i | 0 <= i < |longer| - 1
      ensures longer[i] in fs && longer[i + 1] in fs[longer[i]].needed
    {
      if i > 0 {
        assert path[i - 1] in fs && path[i] in fs[path[i - 1]].needed;
      }
    }
    assert IsPath(fs, longer);
  }

  function Sonames(libs: seq<Loaded>): set<string> {
    set i | 0 <= i < |libs| :: libs[i].soname
  }

  predicate Distinct(libs: seq<Loaded>) {
    forall i, j :: 0 <= i < j < |libs| ==> libs[i].soname != libs[j].soname
  }

  lemma {:induction false} DistinctCount(libs: seq<Loaded>)
    requires Distinct(libs)
    ensures |Sonames(libs)| == |libs|
  {
    if libs != [] {
      var rest := libs[..|libs| - 1];
      DistinctCount(rest);
      assert Sonames(libs) == Sonames(rest) + {libs[|libs| - 1].soname};
    }
  }

  function Listed(libs: seq<Loaded>): (names: seq<string>)
    ensures |names| == |libs| && forall i :: 0 <= i < |libs| ==> names[i] == libs[i].soname
  {
    seq(|libs|, i requires 0 <= i < |libs| => libs[i].soname)
  }

  // ------------------------------------------------------------- load order

  function Others(all: set<string>, seen: seq<string>): set<string> {
    all - (set s | s in seen)
  }

  lemma OneFewer(all: set<string>, seen: seq<string>, s: string)
    requires s in all && s !in seen
    ensures |Others(all, seen + [s])| < |Others(all, seen)|
  {
    assert Others(all, seen) == Others(all, seen + [s]) + {s};
  }

  /** Depth-first preorder of the dependency graph: the libraries already seen, then each one on the
      stack that is new, directly followed by what it needs. */
  function Preorder(fs: map<string, Image>, stack: seq<string>, seen: seq<string>): seq<string>
    decreases |Others(fs.Keys, seen)|, |stack|
  {
    if stack == [] then seen
    else if stack[0] in seen || stack[0] !in fs then Preorder(fs, stack[1..], seen)
    else
      OneFewer(fs.Keys, seen, stack[0]);
      Preorder(fs, fs[stack[0]].needed + stack[1..], seen + [stack[0]])
  }

  function Order(fs: map<string, Image>, stack: seq<string>, seen: seq<string>): seq<string> {
    Preorder(fs, stack, seen)
  }

  lemma OrderPast(fs: map<string, Image>, s: string, rest: seq<string>, seen: seq<string>)
    requires s in seen
    ensures Order(fs, [s] + rest, seen) == Order(fs, rest, seen)
  {
    assert ([s] + rest)[1..] == rest;
  }

  lemma OrderInto(fs: map<string, Image>, s: string, rest: seq<string>, seen: seq<string>)
    requires s in fs && s !in seen
    ensures Order(fs, [s] + rest, seen) == Order(fs, fs[s].needed + rest, seen + [s])
  {
    assert ([s] + rest)[1..] == rest;
  }

  /** The next of a list of names is on top of the stack. */
  lemma Top(names: seq<string>, k: nat, rest: seq<string>)
    requires k < |names|
    ensures names[k..] + rest == [names[k]] + (names[k + 1..] + rest)
  {
  }

  /** Every dependency of library i is itself loaded. */
  predicate Satisfied(libs: seq<Loaded>, i: nat) {
    i < |libs| ==> forall k :: 0 <= k < |libs[i].image.needed| ==> libs[i].image.needed[k] in Sonames(libs)
  }

  /** Libraries all of whose dependencies are loaded include everything they reach. */
  lemma {:induction false} SatisfiedIsClosed(fs: map<string, Image>, libs: seq<Loaded>, path: seq<string>)
    requires forall i: nat :: Satisfied(libs, i)
    requires forall i :: 0 <= i < |libs| ==> libs[i].soname in fs && fs[libs[i].soname] == libs[i].image
    requires IsPath(fs, path) && path[0] in Sonames(libs)
    ensures path[|path| - 1] in Sonames(libs)
    decreases |path|
  {
    if |path| > 1 {
      var i :| 0 <= i < |libs| && libs[i].soname == path[0];
      assert Satisfied(libs, i);
      assert path[0] in fs && path[1] in fs[path[0]].needed;
      var k :| 0 <= k < |libs[i].image.needed| && libs[i].image.needed[k] == path[1];
      forall j | 0 <= j < |path[1..]| - 1
        ensures path[1..][j] in fs && path[1..][j + 1] in fs[path[1..][j]].needed
      {
        assert path[j + 1] in fs && path[j + 2] in fs[path[j + 1]].needed;
      }
      SatisfiedIsClosed(fs, libs, path[1..]);
    }
  }

  // -------------------------------------------------------------- addresses

  /** Highest address of the first n segments of an image at base, never below base. */
  function Extent(segments: seq<Segment>, base: nat, n: nat): (top: nat)
    requires n <= |segments|
  {
    if n == 0 then base
    else
      var end := Add32(Add32(base, segments[n - 1].vaddr), segments[n - 1].memsz);
      var top := Extent(segments, base, n - 1);
      if end > top then end else top
  }

  function PageUp(a: nat): nat {
    var wrapped := Add32(a, LIB_ALIGN - 1);
    wrapped - wrapped % LIB_ALIGN
  }

  function NextBase(l: Loaded): nat {
    PageUp(Extent(l.image.segments, l.base, |l.image.segments|))
  }

  predicate SegmentFits(s: Segment) {
    |s.data| <= s.memsz && s.vaddr + s.memsz <= GUEST_MEMORY - LIB_ALIGN
  }

  /** The image fits the guest's memory. */
  predicate Fits(img: Image) {
    forall i :: 0 <= i < |img.segments| ==> SegmentFits(img.segments[i])
  }

  lemma SmallSum(a: nat, b: nat)
    requires a + b < U32
    ensures Add32(a, b) == a + b
  {
  }

  lemma {:induction false} ExtentBounds(segments: seq<Segment>, base: nat, n: nat)
    requires n <= |segments| && base + GUEST_MEMORY < U32
    requires forall i :: 0 <= i < |segments| ==> SegmentFits(segments[i])
    ensures base <= Extent(segments, base, n) <= base + GUEST_MEMORY - LIB_ALIGN
    ensures forall i :: 0 <= i < n ==> base + segments[i].vaddr + segments[i].memsz <= Extent(segments, base, n)
  {
    if n > 0 {
      ExtentBounds(segments, base, n - 1);
      var s := segments[n - 1];
      assert SegmentFits(s);
      SmallSum(base, s.vaddr);
      SmallSum(base + s.vaddr, s.memsz);
    }
  }

  /** The extent of a library is the end of its highest segment. */
  lemma {:induction false} ExtentIsAnEnd(segments: seq<Segment>, base: nat, n: nat)
    requires n <= |segments| && base + GUEST_MEMORY < U32
    requires forall i :: 0 <= i < |segments| ==> SegmentFits(segments[i])
    ensures Extent(segments, base, n) == base
         || exists i :: 0 <= i < n && Extent(segments, base, n) == base + segments[i].vaddr + segments[i].memsz
  {
    if n > 0 {
      ExtentIsAnEnd(segments, base, n - 1);
      var s := segments[n - 1];
      assert SegmentFits(s);
      SmallSum(base, s.vaddr);
      SmallSum(base + s.vaddr, s.memsz);
    }
  }

  lemma PageUpBounds(a: nat)
    requires a + LIB_ALIGN <= U32
    ensures a <= PageUp(a) < a + LIB_ALIGN && PageUp(a) % LIB_ALIGN == 0
  {
  }

  // ----------------------------------------------------------------- memory

  /** mem with data stored from `at` on. */
  function Poke(mem: Memory, at: nat, data: seq<byte>): Memory {
    if data == [] then mem
    else Poke(mem, at, data[..|data| - 1])[at + |data| - 1 := data[|data| - 1]]
  }

  lemma {:induction false} PokeAt(mem: Memory, at: nat, data: seq<byte>, a: nat)
    ensures at <= a < at + |data| ==> a in Poke(mem, at, data) && Poke(mem, at, data)[a] == data[a - at]
    ensures !(at <= a < at + |data|) ==>
              (a in Poke(mem, at, data) <==> a in mem) && (a in mem ==> Poke(mem, at, data)[a] == mem[a])
  {
    if data != [] {
      PokeAt(mem, at, data[..|data| - 1], a);
    }
  }

  function Apply(mem: Memory, ws: seq<Write>): Memory {
    if ws == [] then mem
    else Poke(Apply(mem, ws[..|ws| - 1]), ws[|ws| - 1].at, Le32(ws[|ws| - 1].value))
  }

  lemma {:induction false} ApplyAppend(mem: Memory, a: seq<Write>, b: seq<Write>)
    ensures Apply(mem, a + b) == Apply(Apply(mem, a), b)
  {
    if b == [] {
      assert a + b == a;
    } else {
      ApplyAppend(mem, a, b[..|b| - 1]);
      assert (a + b)[..|a + b| - 1] == a + b[..|b| - 1];
    }
  }

  predicate Apart(v: Write, w: Write) {
    v.at + 4 <= w.at || w.at + 4 <= v.at
  }

  /** The relocated words are distinct. */
  predicate AllApart(ws: seq<Write>) {
    forall i, j :: 0 <= i < j < |ws| ==> Apart(ws[i], ws[j])
  }

  predicate Mapped(mem: Memory, at: nat) {
    at in mem && at + 1 in mem && at + 2 in mem && at + 3 in mem
  }

  function Word(mem: Memory, at: nat): nat
    requires Mapped(mem, at)
  {
    FromLe([mem[at], mem[at + 1], mem[at + 2], mem[at + 3]])
  }

  lemma PokedWord(mem: Memory, at: nat, v: nat)
    requires v < U32
    ensures var m := Poke(mem, at, Le32(v)); Mapped(m, at) && Word(m, at) == v
  {
    var s := Le32(v);
    PokeAt(mem, at, s, at);
    PokeAt(mem, at, s, at + 1);
    PokeAt(mem, at, s, at + 2);
    PokeAt(mem, at, s, at + 3);
    var m := Poke(mem, at, s);
    assert [m[at], m[at + 1], m[at + 2], m[at + 3]] == s;
    FromLe32(v);
  }

  lemma OtherWord(mem: Memory, at: nat, v: nat, other: nat)
    requires Mapped(mem, other) && (at + 4 <= other || other + 4 <= at)
    ensures var m := Poke(mem, at, Le32(v)); Mapped(m, other) && Word(m, other) == Word(mem, other)
  {
    var s := Le32(v);
    PokeAt(mem, at, s, other);
    PokeAt(mem, at, s, other + 1);
    PokeAt(mem, at, s, other + 2);
    PokeAt(mem, at, s, other + 3);
  }

  /** After writes to distinct words, each word holds what was written to it. */
  lemma {:induction false} DistinctWrites(mem: Memory, ws: seq<Write>, i: nat)
    requires AllApart(ws) && i < |ws| && ws[i].value < U32
    ensures Mapped(Apply(mem, ws), ws[i].at) && Word(Apply(mem, ws), ws[i].at) == ws[i].value
  {
    var front, last := ws[..|ws| - 1], ws[|ws| - 1];
    if i == |ws| - 1 {
      PokedWord(Apply(mem, front), last.at, last.value);
    } else {
      DistinctWrites(mem, front, i);
      assert Apart(ws[i], last);
      OtherWord(Apply(mem, front), last.at, last.value, ws[i].at);
    }
  }

  /** Bytes outside the relocated words are as the images left them. */
  lemma {:induction false} OtherBytesStay(mem: Memory, ws: seq<Write>, a: nat)
    requires forall i :: 0 <= i < |ws| ==> !(ws[i].at <= a < ws[i].at + 4)
    ensures (a in Apply(mem, ws) <==> a in mem) && (a in mem ==> Apply(mem, ws)[a] == mem[a])
  {
    if ws != [] {
      var front, last := ws[..|ws| - 1], ws[|ws| - 1];
      OtherBytesStay(mem, front, a);
      PokeAt(Apply(mem, front), last.at, Le32(last.value), a);
    }
  }
}
