/** The loader's tables and procedures. */
module Linker {
  import opened Arithmetic
  import opened Bytes
  import opened LinkedMemory
  import opened Loader
  import opened LoaderSpec

  /** Sonames that DT_NEEDED can lead to; the available ones fit the registry. */
  ghost predicate Closed(fs: map<string, Image>, names: set<string>) {
    && |names * fs.Keys| <= LIB_MAX
    && forall n :: n in names && n in fs ==>
         Fits(fs[n]) && forall k :: 0 <= k < |fs[n].needed| ==> fs[n].needed[k] in names
  }

  /** The registry holds distinct available libraries among names. */
  ghost predicate Registered(fs: map<string, Image>, names: set<string>, libs: seq<Loaded>) {
    && Distinct(libs)
    && forall i :: 0 <= i < |libs| ==>
         libs[i].soname in names && libs[i].soname in fs && libs[i].image == fs[libs[i].soname]
  }

  lemma RegistryBound(fs: map<string, Image>, names: set<string>, libs: seq<Loaded>)
    requires Registered(fs, names, libs)
    ensures |libs| <= |names * fs.Keys|
    ensures forall s :: s in names && s in fs && s !in Sonames(libs) ==> |libs| < |names * fs.Keys|
  {
    DistinctCount(libs);
    SubsetCount(Sonames(libs), names * fs.Keys);
    forall s | s in names && s in fs && s !in Sonames(libs)
      ensures |libs| < |names * fs.Keys|
    {
      SubsetCount(Sonames(libs) + {s}, names * fs.Keys);
    }
  }

  /** While `libs[self]` is having its dependencies loaded: the first k are there, and every
      later library is complete and was reached from it. */
  ghost predicate Descending(fs: map<string, Image>, libs: seq<Loaded>, self: nat, k: nat) {
    && self < |libs| && libs[self].soname in fs && fs[libs[self].soname] == libs[self].image
    && k <= |libs[self].image.needed|
    && (forall i :: self <= i < |libs| ==> Reaches(fs, libs[self].soname, libs[i].soname))
    && (forall j :: 0 <= j < k ==> libs[self].image.needed[j] in Sonames(libs))
    && (forall i: nat :: i > self ==> Satisfied(libs, i))
  }

  lemma SonamesGrow(a: seq<Loaded>, b: seq<Loaded>)
    requires a <= b
    ensures Sonames(a) <= Sonames(b)
  {
    forall i | 0 <= i < |a|
      ensures a[i].soname in Sonames(b)
    {
      assert b[i] == a[i];
    }
  }

  lemma SatisfiedGrows(a: seq<Loaded>, b: seq<Loaded>, i: nat)
    requires a <= b && i < |a| && Satisfied(a, i)
    ensures Satisfied(b, i)
  {
    SonamesGrow(a, b);
  }

  lemma DescendingStep(fs: map<string, Image>, a: seq<Loaded>, b: seq<Loaded>, self: nat, k: nat)
    requires Descending(fs, a, self, k) && a <= b && k < |a[self].image.needed|
    requires forall i :: |a| <= i < |b| ==> Reaches(fs, a[self].image.needed[k], b[i].soname)
    requires a[self].image.needed[k] in Sonames(b) && forall i: nat :: i >= |a| ==> Satisfied(b, i)
    ensures Descending(fs, b, self, k + 1)
  {
    SonamesGrow(a, b);
    var soname, next := a[self].soname, a[self].image.needed[k];
    forall i | self <= i < |b|
      ensures Reaches(fs, soname, b[i].soname)
    {
      if i >= |a| {
        ReachesThrough(fs, soname, next, b[i].soname);
      }
    }
    forall i: nat | i > self
      ensures Satisfied(b, i)
    {
      if i < |a| {
        SatisfiedGrows(a, b, i);
      }
    }
  }

  lemma DescendingStart(fs: map<string, Image>, names: set<string>, libs: seq<Loaded>, l: Loaded)
    requires Registered(fs, names, libs) && l.soname in names && l.soname !in Sonames(libs)
    requires l.soname in fs && fs[l.soname] == l.image
    ensures Registered(fs, names, libs + [l]) && Descending(fs, libs + [l], |libs|, 0)
    ensures |libs| < |names * fs.Keys|
  {
    RegistryBound(fs, names, libs);
    ReachesSelf(fs, l.soname);
    assert forall i: nat :: i > |libs| ==> Satisfied(libs + [l], i);
  }

  /** Something that soname leads to is missing. */
  ghost predicate Broken(fs: map<string, Image>, soname: string) {
    exists s :: s !in fs && Reaches(fs, soname, s)
  }

  lemma DescendingStops(fs: map<string, Image>, a: seq<Loaded>, b: seq<Loaded>, self: nat, k: nat)
    requires Descending(fs, a, self, k) && a <= b && k < |a[self].image.needed|
    requires forall i :: |a| <= i < |b| ==> Reaches(fs, a[self].image.needed[k], b[i].soname)
    requires Broken(fs, a[self].image.needed[k])
    ensures forall i :: self <= i < |b| ==> Reaches(fs, a[self].soname, b[i].soname)
    ensures Broken(fs, a[self].soname)
  {
    var soname, next := a[self].soname, a[self].image.needed[k];
    var s :| s !in fs && Reaches(fs, next, s);
    ReachesThrough(fs, soname, next, s);
    forall i | self <= i < |b|
      ensures Reaches(fs, soname, b[i].soname)
    {
      if i >= |a| {
        ReachesThrough(fs, soname, next, b[i].soname);
      }
    }
  }

  ghost predicate Reached(fs: map<string, Image>, roots: seq<string>, s: string) {
    exists r :: r in roots && Reaches(fs, r, s)
  }

  /** The first n roots are loaded, with all they need and nothing else. */
  ghost predicate Rooted(fs: map<string, Image>, libs: seq<Loaded>, roots: seq<string>, n: nat) {
    && n <= |roots|
    && (forall j :: 0 <= j < n ==> roots[j] in Sonames(libs))
    && (forall i: nat :: Satisfied(libs, i))
    && (forall i :: 0 <= i < |libs| ==> Reached(fs, roots, libs[i].soname))
  }

  lemma RootedStep(fs: map<string, Image>, a: seq<Loaded>, b: seq<Loaded>, roots: seq<string>, n: nat)
    requires Rooted(fs, a, roots, n) && a <= b && n < |roots|
    requires forall i :: |a| <= i < |b| ==> Reaches(fs, roots[n], b[i].soname)
    requires roots[n] in Sonames(b) && forall i: nat :: i >= |a| ==> Satisfied(b, i)
    ensures Rooted(fs, b, roots, n + 1)
  {
    SonamesGrow(a, b);
    forall i: nat
      ensures Satisfied(b, i)
    {
      if i < |a| {
        SatisfiedGrows(a, b, i);
      }
    }
    forall i | 0 <= i < |b|
      ensures Reached(fs, roots, b[i].soname)
    {
      assert i < |a| ==> Reached(fs, roots, a[i].soname);
    }
  }

  lemma AllLoaded(fs: map<string, Image>, names: set<string>, libs: seq<Loaded>, roots: seq<string>)
    requires Registered(fs, names, libs) && Rooted(fs, libs, roots, |roots|)
    ensures forall s :: s in Sonames(libs) <==> Reached(fs, roots, s)
    ensures forall s :: Reached(fs, roots, s) ==> s in fs
  {
    forall s | Reached(fs, roots, s)
      ensures s in Sonames(libs) && s in fs
    {
      var r :| r in roots && Reaches(fs, r, s);
      var path :| IsPath(fs, path) && path[0] == r && path[|path| - 1] == s;
      SatisfiedIsClosed(fs, libs, path);
    }
  }

  lemma ListedSonames(libs: seq<Loaded>, s: string)
    ensures s in Listed(libs) <==> s in Sonames(libs)
  {
    if s in Listed(libs) {
      var i :| 0 <= i < |libs| && Listed(libs)[i] == s;
      assert libs[i].soname == s;
    }
    if s in Sonames(libs) {
      var i :| 0 <= i < |libs| && libs[i].soname == s;
      assert Listed(libs)[i] == s;
    }
  }

  lemma ListsEntered(fs: map<string, Image>, libs: seq<Loaded>, l: Loaded, rest: seq<string>)
    requires l.soname in fs && fs[l.soname] == l.image && l.soname !in Sonames(libs)
    ensures Order(fs, [l.soname] + rest, Listed(libs)) == Order(fs, l.image.needed[0..] + rest, Listed(libs + [l]))
  {
    ListedSonames(libs, l.soname);
    OrderInto(fs, l.soname, rest, Listed(libs));
    assert Listed(libs + [l]) == Listed(libs) + [l.soname] && l.image.needed[0..] == l.image.needed;
  }

  lemma CartWritesNext(mem: Memory, syms: seq<Def>, d: seq<Symbol>, relas: seq<Rela>, plt: bool, n: nat)
    requires n < |relas|
    ensures var w := if plt then PltWrite(syms, d, relas[n]) else CartWrite(syms, d, relas[n]);
            Apply(mem, CartWrites(syms, d, relas, plt, n + 1))
              == Apply(Apply(mem, CartWrites(syms, d, relas, plt, n)), Opt(w))
  {
    ApplyAppend(mem, CartWrites(syms, d, relas, plt, n),
                Opt(if plt then PltWrite(syms, d, relas[n]) else CartWrite(syms, d, relas[n])));
  }

  class Linker {
    const fs: map<string, Image>  // images found under the library path
    const cart: Cart
    ghost const mem0: Memory      // guest memory before any library is mapped
    var syms: seq<Def>
    var libs: seq<Loaded>
    var nextBase: nat
    var mem: Memory

    /** The tables hold exactly what the registered libraries define and map. */
    ghost predicate Consistent()
      reads this
    {
      && syms == SymTable(cart, libs) && mem == Mapping(mem0, libs)
      && Placed(libs, nextBase)
    }

    constructor (fs: map<string, Image>, cart: Cart, mem: Memory)
      ensures this.fs == fs && this.cart == cart && this.mem == mem0 == mem
      ensures syms == [] && libs == [] && nextBase == LIB_LOAD_ADDR
    {
      this.fs := fs;
      this.cart := cart;
      this.mem0 := mem;
      this.mem := mem;
      syms := [];
      libs := [];
      nextBase := LIB_LOAD_ADDR;
    }

    method SymAdd(d: Def)
      modifies this`syms
      ensures syms == AddSym(old(syms), d)
    {
      if |syms| >= SYM_MAX {
        return;
      }
      for i := 0 to |syms|
        invariant forall k :: 0 <= k < i ==> syms[k].name != d.name
      {
        if syms[i].name == d.name {
          return;
        }
      }
      syms := syms + [Def(Clip(d.name), d.addr)];
    }

    method SymFind(name: string) returns (a: nat)
      ensures a == FirstDefinition(syms, name)
    {
      var i := 0;
      while i < |syms|
        invariant i <= |syms| && FirstDefinition(syms, name) == FirstDefinition(syms[i..], name)
      {
        if syms[i].name == name {
          return syms[i].addr;
        }
        i := i + 1;
      }
      a := 0;
    }

    method IsLoaded(soname: string) returns (b: bool)
      ensures b <==> soname in Sonames(libs)
    {
      for i := 0 to |libs|
        invariant forall k :: 0 <= k < i ==> libs[k].soname != soname
      {
        if libs[i].soname == soname {
          return true;
        }
      }
      b := false;
    }

    /** Registers the definitions of one symbol section. */
    method AddExports(symbols: seq<Symbol>, base: nat)
      modifies this`syms
      ensures syms == AddAll(old(syms), Exports(symbols, base, |symbols|))
    {
      var si := 1;
      ghost var before := syms;
      while si < |symbols|
        invariant 1 <= si && (si <= |symbols| || |symbols| == 0)
        invariant |symbols| > 0 ==> syms == AddAll(before, Exports(symbols, base, si))
        invariant |symbols| == 0 ==> syms == before
      {
        var s := symbols[si];
        if Exported(s) {
          ghost var done := Exports(symbols, base, si);
          SymAdd(Def(s.name, Add32(base, s.value)));
          assert (done + [Def(s.name, Add32(base, s.value))])[..|done|] == done;
        }
        si := si + 1;
      }
    }

    method MapOne(base: nat, s: Segment)
      modifies this`mem
      ensures mem == MapSegment(old(mem), base, s)
    {
      var at := Add32(base, s.vaddr);
      var filled := Poke(mem, at, s.data);
      if s.memsz > |s.data| {
        filled := Poke(filled, at + |s.data|, Zeros(s.memsz - |s.data|));
      }
      mem := filled;
    }

    method MapImage(l: Loaded)
      modifies this`mem
      ensures mem == MapSegments(old(mem), l.base, l.image.segments, |l.image.segments|)
    {
      for p := 0 to |l.image.segments|
        invariant mem == MapSegments(old(mem), l.base, l.image.segments, p)
      {
        MapOne(l.base, l.image.segments[p]);
      }
    }

    method LibExtent(l: Loaded) returns (top: nat)
      ensures top == Extent(l.image.segments, l.base, |l.image.segments|)
    {
      top := l.base;
      for p := 0 to |l.image.segments|
        invariant top == Extent(l.image.segments, l.base, p)
      {
        var s := l.image.segments[p];
        var end := Add32(Add32(l.base, s.vaddr), s.memsz);
        if end > top {
          top := end;
        }
      }
    }

    /** Registers, maps and exports one image at the next free page. */
    method LoadOne(l: Loaded)
      requires Consistent() && l.base == nextBase && Fits(l.image) && |libs| < LIB_MAX
      modifies this
      ensures libs == old(libs) + [l] && Consistent()
    {
      PlacedGrows(libs, nextBase, l);
      AddAllAppend([], Definitions(cart, libs), ImageDefs(l));
      if |libs| < LIB_MAX {
        libs := libs + [l];
      }
      MapImage(l);
      var top := LibExtent(l);
      nextBase := PageUp(top);
      if l.image.dynsym.Some? {
        AddExports(l.image.dynsym.value, l.base);
      }
      assert libs[..|libs| - 1] == old(libs);
    }

    /** `fc32_load_lib`: loads soname unless it is registered, then what it needs. It fails
        exactly when it meets a library that cannot be opened. */
    method LoadLib(soname: string, ghost names: set<string>, ghost rest: seq<string>) returns (ok: bool)
      requires Closed(fs, names) && soname in names && Registered(fs, names, libs) && Consistent()
      modifies this
      ensures Registered(fs, names, libs) && Consistent() && old(libs) <= libs
      ensures forall i :: |old(libs)| <= i < |libs| ==> Reaches(fs, soname, libs[i].soname)
      ensures ok ==> soname in Sonames(libs) && forall i: nat :: i >= |old(libs)| ==> Satisfied(libs, i)
      ensures ok ==> Order(fs, [soname] + rest, Listed(old(libs))) == Order(fs, rest, Listed(libs))
      ensures !ok ==> Broken(fs, soname)
      decreases |names * fs.Keys| - |libs|, 0
    {
      var loaded := IsLoaded(soname);
      if loaded {
        ListedSonames(libs, soname);
        OrderPast(fs, soname, rest, Listed(libs));
        return true;
      }
      if soname !in fs {
        ReachesSelf(fs, soname);
        return false;
      }
      var l := Loaded(soname, nextBase, fs[soname]);
      DescendingStart(fs, names, libs, l);
      ListsEntered(fs, libs, l, rest);
      ghost var self, order := |libs|, Order(fs, [soname] + rest, Listed(libs));
      LoadOne(l);
      for k := 0 to |l.image.needed|
        invariant Registered(fs, names, libs) && Consistent()
        invariant old(libs) + [l] <= libs && Descending(fs, libs, self, k)
        invariant order == Order(fs, l.image.needed[k..] + rest, Listed(libs))
      {
        ok := LoadNeeded(l.image.needed, k, names, rest, self);
        if !ok {
          return;
        }
      }
      assert Satisfied(libs, self) && l.image.needed[|l.image.needed|..] + rest == rest;
      ok := true;
    }

    /** One turn of its loop over DT_NEEDED, for the library registered as number self. */
    method LoadNeeded(needed: seq<string>, k: nat, ghost names: set<string>, ghost rest: seq<string>, ghost self: nat)
        returns (ok: bool)
      requires Closed(fs, names) && Registered(fs, names, libs) && Consistent()
      requires Descending(fs, libs, self, k) && k < |needed| && needed == libs[self].image.needed
      modifies this
      ensures Registered(fs, names, libs) && Consistent() && old(libs) <= libs
      ensures ok ==> Descending(fs, libs, self, k + 1)
      ensures ok ==> Order(fs, needed[k..] + rest, Listed(old(libs))) == Order(fs, needed[k + 1..] + rest, Listed(libs))
      ensures !ok ==> forall i :: self <= i < |libs| ==> Reaches(fs, libs[self].soname, libs[i].soname)
      ensures !ok ==> Broken(fs, libs[self].soname)
      decreases |names * fs.Keys| - |libs|, 1
    {
      RegistryBound(fs, names, libs);
      ghost var before := libs;
      Top(needed, k, rest);
      ok := LoadLib(needed[k], names, needed[k + 1..] + rest);
      if ok {
        DescendingStep(fs, before, libs, self, k);
      } else {
        DescendingStops(fs, before, libs, self, k);
      }
    }

    method Write32(at: nat, v: nat)
      modifies this`mem
      ensures mem == Poke(old(mem), at, Le32(v))
    {
      mem := Poke(mem, at, Le32(v));
    }

    /** The value of a symbolic reference in a library: the table, else the library's own. */
    method Value(base: nat, s: Symbol) returns (v: nat)
      ensures v == Resolve(syms, base, s)
    {
      v := SymFind(s.name);
      if v == 0 && s.value != 0 {
        v := Add32(base, s.value);
      }
    }

    method ApplyOne(l: Loaded, r: Rela)
      modifies this`mem
      ensures var w := LibWrite(syms, l.base, l.image.dynsym, r);
              mem == Apply(old(mem), Opt(w))
    {
      var at := Add32(l.base, r.offset);
      var symbolic := r.sym != 0 && l.image.dynsym.Some? && r.sym < |l.image.dynsym.value|;
      ghost var before := mem;
      match r.kind {
        case Relative =>
          Write32(at, Add32(l.base, r.addend));
        case Word32 =>
          if symbolic {
            var v := Value(l.base, l.image.dynsym.value[r.sym]);
            Write32(at, Add32(v, r.addend));
          } else {
            Write32(at, r.addend % U32);
          }
        case JumpSlot =>
          if symbolic {
            var v := Value(l.base, l.image.dynsym.value[r.sym]);
            Write32(at, v % U32);
          }
        case GlobDat =>
          if symbolic {
            var v := Value(l.base, l.image.dynsym.value[r.sym]);
            Write32(at, Add32(v, r.addend));
          }
        case None_ =>
        case Unhandled =>
      }
    }

    method ApplyLibRela(l: Loaded)
      modifies this`mem
      ensures mem == Apply(old(mem), LibWrites(syms, l, |l.image.relas|))
    {
      for ri := 0 to |l.image.relas|
        invariant mem == Apply(old(mem), LibWrites(syms, l, ri))
      {
        ghost var done := LibWrites(syms, l, ri);
        ghost var w := LibWrite(syms, l.base, l.image.dynsym, l.image.relas[ri]);
        ApplyOne(l, l.image.relas[ri]);
        ApplyAppend(old(mem), done, Opt(w));
      }
    }

    /** The second pass, over every registered library. */
    method RelocateLibs()
      modifies this`mem
      ensures mem == Apply(old(mem), LibsWrites(syms, libs))
    {
      for i := 0 to |libs|
        invariant mem == Apply(old(mem), LibsWrites(syms, libs[..i]))
      {
        ApplyLibRela(libs[i]);
        assert libs[..i + 1][..i] == libs[..i];
        ApplyAppend(old(mem), LibsWrites(syms, libs[..i]), LibWrites(syms, libs[i], |libs[i].image.relas|));
      }
      assert libs[..|libs|] == libs;
    }

    method ApplyCart(d: seq<Symbol>, r: Rela, plt: bool)
      modifies this`mem
      ensures var w := if plt then PltWrite(syms, d, r) else CartWrite(syms, d, r);
              mem == Apply(old(mem), Opt(w))
    {
      var a := 0;
      if 0 < r.sym < |d| {
        a := SymFind(d[r.sym].name);
      }
      if plt {
        if (r.kind == JumpSlot || r.kind == GlobDat) && 0 < r.sym < |d| && a != 0 {
          Write32(r.offset, a % U32);
        }
        return;
      }
      match r.kind {
        case JumpSlot =>
          if a != 0 { Write32(r.offset, Add32(a, r.addend)); }
        case GlobDat =>
          if a != 0 { Write32(r.offset, Add32(a, r.addend)); }
        case Word32 =>
          if 0 < r.sym < |d| && a == 0 {
            a := d[r.sym].value;
          }
          Write32(r.offset, Add32(a, r.addend));
        case Relative =>
          Write32(r.offset, r.addend % U32);
        case None_ =>
        case Unhandled =>
      }
    }

    method RelocateCart(d: seq<Symbol>, relas: seq<Rela>, plt: bool)
      modifies this`mem
      ensures mem == Apply(old(mem), CartWrites(syms, d, relas, plt, |relas|))
    {
      for ri := 0 to |relas|
        invariant mem == Apply(old(mem), CartWrites(syms, d, relas, plt, ri))
      {
        ApplyCart(d, relas[ri], plt);
        CartWritesNext(old(mem), syms, d, relas, plt, ri);
      }
    }

    /** STEP 2b to STEP 4. */
    method Relocate()
      modifies this`mem
      ensures mem == Apply(old(mem), AllWrites(syms, cart, libs))
    {
      RelocateLibs();
      ghost var ws := LibsWrites(syms, libs);
      if cart.dynsym.Some? {
        var d := cart.dynsym.value;
        RelocateCart(d, cart.jmprel, true);
        RelocateCart(d, cart.rela, false);
        ghost var plt := CartWrites(syms, d, cart.jmprel, true, |cart.jmprel|);
        ghost var rest := CartWrites(syms, d, cart.rela, false, |cart.rela|);
        ApplyAppend(Apply(old(mem), ws), plt, rest);
        ApplyAppend(old(mem), ws, plt + rest);
      } else {
        ApplyAppend(old(mem), ws, []);
      }
    }

    /** The sonames the cart itself asks for: its first LIB_MAX entries. */
    function Roots(): seq<string> {
      if |cart.needed| <= LIB_MAX then cart.needed else cart.needed[..LIB_MAX]
    }

    method LoadRoot(roots: seq<string>, i: nat, ghost names: set<string>) returns (ok: bool)
      requires Consistent() && Closed(fs, names) && Registered(fs, names, libs)
      requires i < |roots| && roots[i] in names && Rooted(fs, libs, roots, i)
      modifies this
      ensures Registered(fs, names, libs) && Consistent()
      ensures ok ==> Rooted(fs, libs, roots, i + 1)
      ensures ok ==> Order(fs, roots[i..], Listed(old(libs))) == Order(fs, roots[i + 1..], Listed(libs))
      ensures !ok ==> Broken(fs, roots[i])
    {
      ghost var before := libs;
      Top(roots, i, []);
      assert roots[i..] + [] == roots[i..] && roots[i + 1..] + [] == roots[i + 1..];
      ok := LoadLib(roots[i], names, roots[i + 1..]);
      if ok {
        RootedStep(fs, before, libs, roots, i);
      }
    }

    /** STEP 2: every root in turn, each with all it needs. */
    method LoadRoots(roots: seq<string>, ghost names: set<string>) returns (ok: bool)
      requires Consistent() && libs == [] && Closed(fs, names) && forall r :: r in roots ==> r in names
      modifies this
      ensures Registered(fs, names, libs) && Consistent()
      ensures ok ==> Rooted(fs, libs, roots, |roots|) && Listed(libs) == Order(fs, roots, [])
      ensures !ok ==> exists i :: 0 <= i < |roots| && Broken(fs, roots[i])
    {
      assert Listed(libs) == [] && roots[0..] == roots;
      for i := 0 to |roots|
        invariant Registered(fs, names, libs) && Consistent() && Rooted(fs, libs, roots, i)
        invariant Order(fs, roots, []) == Order(fs, roots[i..], Listed(libs))
      {
        ok := LoadRoot(roots, i, names);
        if !ok {
          return;
        }
      }
      assert roots[|roots|..] == [];
      ok := true;
    }

    /** `fc32_dynload`. */
    method Dynload(ghost names: set<string>) returns (ok: bool)
      requires syms == [] && libs == [] && nextBase == LIB_LOAD_ADDR && mem == mem0
      requires Closed(fs, names) && forall r :: r in Roots() ==> r in names
      modifies this
      ensures ok ==>
                && Registered(fs, names, libs) && Placed(libs, nextBase)
                && syms == SymTable(cart, libs) && mem == Linked(mem0, cart, libs)
      // but for the words of the relocations, memory is the libraries' segments where they were placed
      ensures ok ==> forall i: nat, j: nat, a: nat :: Shows(mem, cart, libs, i, j, a)
      ensures ok ==> forall a: nat :: Keeps(mem, mem0, cart, libs, a)
      // exactly what the cart's dependencies reach is loaded, each once, in depth-first preorder
      ensures ok ==> Listed(libs) == Order(fs, Roots(), [])
      ensures ok ==> forall s :: s in Sonames(libs) <==> Reached(fs, Roots(), s)
      ensures ok <==> forall s :: Reached(fs, Roots(), s) ==> s in fs
    {
      AddExports(cart.exports, 0);
      ok := LoadRoots(Roots(), names);
      if !ok {
        ghost var i :| 0 <= i < |Roots()| && Broken(fs, Roots()[i]);
        ghost var s :| s !in fs && Reaches(fs, Roots()[i], s);
        assert Reached(fs, Roots(), s);
        return;
      }
      AllLoaded(fs, names, libs, Roots());
      RegistryBound(fs, names, libs);
      LinkedMemoryIs(mem0, cart, libs, nextBase);
      Relocate();
    }
  }
}
