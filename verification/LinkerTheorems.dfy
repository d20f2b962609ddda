/** What a finished link means for the words the program will read. */
module LinkerTheorems {
  import opened Bytes
  import opened LoaderSpec
  import opened Loader

  lemma {:induction false} ExportsBounded(symbols: seq<Symbol>, base: nat, n: nat)
    requires n <= |symbols|
    ensures forall d :: d in Exports(symbols, base, n) ==> d.addr < U32
  {
    if n > 1 {
      ExportsBounded(symbols, base, n - 1);
    }
  }

  lemma {:induction false} DefinitionsBounded(cart: Cart, libs: seq<Loaded>)
    ensures forall d :: d in Definitions(cart, libs) ==> d.addr < U32
  {
    if libs == [] {
      ExportsBounded(cart.exports, 0, |cart.exports|);
    } else {
      DefinitionsBounded(cart, libs[..|libs| - 1]);
      var l := libs[|libs| - 1];
      if l.image.dynsym.Some? {
        ExportsBounded(l.image.dynsym.value, l.base, |l.image.dynsym.value|);
      }
    }
  }

  lemma {:induction false} FirstBounded(defs: seq<Def>, name: string)
    requires forall d :: d in defs ==> d.addr < U32
    ensures FirstDefinition(defs, name) < U32
  {
    if defs != [] {
      assert defs[0] in defs;
      FirstBounded(defs[1..], name);
    }
  }

  /** The symbol table never filled up and no name was cut. */
  ghost predicate TableKept(cart: Cart, libs: seq<Loaded>) {
    && |AddAll([], Definitions(cart, libs))| < SYM_MAX
    && forall d :: d in Definitions(cart, libs) ==> |d.name| < 63
  }

  lemma TableResolves(cart: Cart, libs: seq<Loaded>, base: nat, s: Symbol)
    requires TableKept(cart, libs)
    ensures var defs, table := InForce(cart, libs), SymTable(cart, libs);
            && FirstDefinition(table, s.name) == FirstDefinition(defs, s.name) < U32
            && Resolve(table, base, s) == Resolve(defs, base, s) < U32
  {
    var defs := Definitions(cart, libs);
    assert forall i :: 0 <= i < |defs| ==> defs[i] in defs;
    TableIsFirstDefinitions(defs, s.name);
    DefinitionsBounded(cart, libs);
    FirstBounded(defs, s.name);
  }

  lemma {:induction false} LibWriteListed(syms: seq<Def>, l: Loaded, n: nat, k: nat)
    requires k < n <= |l.image.relas|
    requires LibWrite(syms, l.base, l.image.dynsym, l.image.relas[k]).Some?
    ensures LibWrite(syms, l.base, l.image.dynsym, l.image.relas[k]).value in LibWrites(syms, l, n)
  {
    if k < n - 1 {
      LibWriteListed(syms, l, n - 1, k);
    }
  }

  lemma {:induction false} LibsWriteListed(syms: seq<Def>, libs: seq<Loaded>, i: nat, w: Write)
    requires i < |libs| && w in LibWrites(syms, libs[i], |libs[i].image.relas|)
    ensures w in LibsWrites(syms, libs)
  {
    if i < |libs| - 1 {
      LibsWriteListed(syms, libs[..|libs| - 1], i, w);
    }
  }

  lemma {:induction false} CartWriteListed(syms: seq<Def>, d: seq<Symbol>, relas: seq<Rela>, plt: bool, n: nat, k: nat)
    requires k < n <= |relas|
    requires (if plt then PltWrite(syms, d, relas[k]) else CartWrite(syms, d, relas[k])).Some?
    ensures (if plt then PltWrite(syms, d, relas[k]) else CartWrite(syms, d, relas[k])).value
            in CartWrites(syms, d, relas, plt, n)
  {
    if k < n - 1 {
      CartWriteListed(syms, d, relas, plt, n - 1, k);
    }
  }

  lemma WrittenWordHolds(mem: Memory, ws: seq<Write>, w: Write)
    requires AllApart(ws) && w in ws && w.value < U32
    ensures Mapped(Apply(mem, ws), w.at) && Word(Apply(mem, ws), w.at) == w.value
  {
    var i :| 0 <= i < |ws| && ws[i] == w;
    DistinctWrites(mem, ws, i);
  }

  lemma LibWriteInAll(syms: seq<Def>, cart: Cart, libs: seq<Loaded>, i: nat, k: nat)
    requires i < |libs| && k < |libs[i].image.relas|
    requires LibWrite(syms, libs[i].base, libs[i].image.dynsym, libs[i].image.relas[k]).Some?
    ensures LibWrite(syms, libs[i].base, libs[i].image.dynsym, libs[i].image.relas[k]).value
            in AllWrites(syms, cart, libs)
  {
    LibWriteListed(syms, libs[i], |libs[i].image.relas|, k);
    LibsWriteListed(syms, libs, i, LibWrite(syms, libs[i].base, libs[i].image.dynsym, libs[i].image.relas[k]).value);
  }

  lemma LibWordHolds(syms: seq<Def>, cart: Cart, libs: seq<Loaded>, mem: Memory, i: nat, k: nat, w: Write)
    requires i < |libs| && k < |libs[i].image.relas| && w.value < U32
    requires LibWrite(syms, libs[i].base, libs[i].image.dynsym, libs[i].image.relas[k]) == Some(w)
    requires AllApart(AllWrites(syms, cart, libs))
    ensures var linked := Apply(mem, AllWrites(syms, cart, libs));
            Mapped(linked, w.at) && Word(linked, w.at) == w.value
  {
    LibWriteInAll(syms, cart, libs, i, k);
    WrittenWordHolds(mem, AllWrites(syms, cart, libs), w);
  }

  predicate Symbolic(l: Loaded, r: Rela) {
    l.image.dynsym.Some? && 0 < r.sym < |l.image.dynsym.value|
  }

  /** The relocations of a library that write a word, whether or not their symbol is defined. */
  predicate Relocates(l: Loaded, r: Rela) {
    r.kind == Relative || r.kind == Word32 || ((r.kind == JumpSlot || r.kind == GlobDat) && Symbolic(l, r))
  }

  /** What it writes: the first definition among the cart's and then the libraries' in load order, else
      the library's own value, else zero; JUMP_SLOT leaves out the addend, RELATIVE adds the base. */
  function Target(cart: Cart, libs: seq<Loaded>, l: Loaded, r: Rela): nat {
    if r.kind == Relative then Add32(l.base, r.addend)
    else if !Symbolic(l, r) then r.addend % U32
    else
      var s := l.image.dynsym.value[r.sym];
      var first := FirstDefinition(InForce(cart, libs), s.name);
      var found := if first == 0 && s.value != 0 then Add32(l.base, s.value) else first;
      if r.kind == JumpSlot then found else Add32(found, r.addend)
  }

  lemma WritesTarget(cart: Cart, libs: seq<Loaded>, l: Loaded, r: Rela)
    requires TableKept(cart, libs) && Relocates(l, r)
    ensures Target(cart, libs, l, r) < U32
    ensures LibWrite(SymTable(cart, libs), l.base, l.image.dynsym, r)
         == Some(Write(Add32(l.base, r.offset), Target(cart, libs, l, r)))
  {
    if Symbolic(l, r) {
      TableResolves(cart, libs, l.base, l.image.dynsym.value[r.sym]);
    }
  }

  /** After a link with distinct relocation words, the word of every library relocation holds its target. */
  lemma LibraryWordResolved(cart: Cart, libs: seq<Loaded>, mem: Memory, i: nat, k: nat)
    requires i < |libs| && k < |libs[i].image.relas| && TableKept(cart, libs)
    requires AllApart(AllWrites(SymTable(cart, libs), cart, libs)) && Relocates(libs[i], libs[i].image.relas[k])
    ensures var (l, r) := (libs[i], libs[i].image.relas[k]);
            var linked, at := Linked(mem, cart, libs), Add32(l.base, r.offset);
            Mapped(linked, at) && Word(linked, at) == Target(cart, libs, l, r)
  {
    var l, r, syms := libs[i], libs[i].image.relas[k], SymTable(cart, libs);
    WritesTarget(cart, libs, l, r);
    var w := Write(Add32(l.base, r.offset), Target(cart, libs, l, r));
    LibWordHolds(syms, cart, libs, MapImages(mem, libs), i, k, w);
  }

  lemma PltWordHolds(syms: seq<Def>, cart: Cart, libs: seq<Loaded>, mem: Memory, k: nat, w: Write)
    requires k < |cart.jmprel| && cart.dynsym.Some? && w.value < U32
    requires PltWrite(syms, cart.dynsym.value, cart.jmprel[k]) == Some(w) && AllApart(AllWrites(syms, cart, libs))
    ensures var linked := Apply(mem, AllWrites(syms, cart, libs));
            Mapped(linked, w.at) && Word(linked, w.at) == w.value
  {
    CartWriteListed(syms, cart.dynsym.value, cart.jmprel, true, |cart.jmprel|, k);
    WrittenWordHolds(mem, AllWrites(syms, cart, libs), w);
  }

  /** Every PLT word of the cart whose symbol is defined anywhere holds the first definition. */
  lemma CartPltResolved(cart: Cart, libs: seq<Loaded>, mem: Memory, k: nat)
    requires k < |cart.jmprel| && cart.dynsym.Some? && TableKept(cart, libs)
    requires AllApart(AllWrites(SymTable(cart, libs), cart, libs))
    requires var r := cart.jmprel[k];
             && (r.kind == JumpSlot || r.kind == GlobDat) && 0 < r.sym < |cart.dynsym.value|
             && FirstDefinition(InForce(cart, libs), cart.dynsym.value[r.sym].name) != 0
    ensures var linked := Linked(mem, cart, libs);
            && Mapped(linked, cart.jmprel[k].offset)
            && Word(linked, cart.jmprel[k].offset)
               == FirstDefinition(InForce(cart, libs), cart.dynsym.value[cart.jmprel[k].sym].name)
  {
    var r, d, syms := cart.jmprel[k], cart.dynsym.value, SymTable(cart, libs);
    TableResolves(cart, libs, 0, d[r.sym]);
    var a := FirstDefinition(InForce(cart, libs), d[r.sym].name);
    PltWordHolds(syms, cart, libs, MapImages(mem, libs), k, Write(r.offset, a));
  }
  lemma RelaWordHolds(syms: seq<Def>, cart: Cart, libs: seq<Loaded>, mem: Memory, k: nat, w: Write)
    requires k < |cart.rela| && cart.dynsym.Some? && w.value < U32
    requires CartWrite(syms, cart.dynsym.value, cart.rela[k]) == Some(w) && AllApart(AllWrites(syms, cart, libs))
    ensures var linked := Apply(mem, AllWrites(syms, cart, libs));
            Mapped(linked, w.at) && Word(linked, w.at) == w.value
  {
    CartWriteListed(syms, cart.dynsym.value, cart.rela, false, |cart.rela|, k);
    WrittenWordHolds(mem, AllWrites(syms, cart, libs), w);
  }

  /** What a relocation of the cart outside its PLT writes: RELATIVE and R_RISCV_32 always do, the other two
      when their symbol is defined anywhere; the cart's own value counts for R_RISCV_32 alone. */
  function CartTarget(cart: Cart, libs: seq<Loaded>, r: Rela): Option<nat>
    requires cart.dynsym.Some?
  {
    if r.kind == Relative || (r.kind == Word32 && !(0 < r.sym < |cart.dynsym.value|)) then Some(r.addend % U32)
    else if !(0 < r.sym < |cart.dynsym.value|) then None
    else
      var s := cart.dynsym.value[r.sym];
      var first := FirstDefinition(InForce(cart, libs), s.name);
      if first != 0 && (r.kind == Word32 || r.kind == JumpSlot || r.kind == GlobDat) then Some(Add32(first, r.addend))
      else if r.kind == Word32 then Some(Add32(s.value, r.addend))
      else None
  }

  lemma CartWordResolved(cart: Cart, libs: seq<Loaded>, mem: Memory, k: nat)
    requires k < |cart.rela| && cart.dynsym.Some? && TableKept(cart, libs)
    requires AllApart(AllWrites(SymTable(cart, libs), cart, libs))
    requires CartTarget(cart, libs, cart.rela[k]).Some?
    ensures var linked, at := Linked(mem, cart, libs), cart.rela[k].offset;
            Mapped(linked, at) && Word(linked, at) == CartTarget(cart, libs, cart.rela[k]).value
  {
    var r, d, syms := cart.rela[k], cart.dynsym.value, SymTable(cart, libs);
    if 0 < r.sym < |d| {
      TableResolves(cart, libs, 0, d[r.sym]);
    }
    RelaWordHolds(syms, cart, libs, MapImages(mem, libs), k,
                  Write(r.offset, CartTarget(cart, libs, r).value));
  }

  // --------------------------------------------- which definition is the first

  /** Entry k of a symbol section gives name to other modules. */
  predicate Gives(symbols: seq<Symbol>, k: nat, name: string) {
    && 0 < k < |symbols| && symbols[k].name == name != "" && symbols[k].defined && symbols[k].value != 0
    && (symbols[k].bind == 1 || symbols[k].bind == 2)
  }

  predicate GivesFirst(symbols: seq<Symbol>, k: nat, name: string) {
    Gives(symbols, k, name) && forall j: nat :: j < k ==> !Gives(symbols, j, name)
  }

  predicate GivesNone(symbols: seq<Symbol>, name: string) {
    forall j: nat :: j < |symbols| ==> !Gives(symbols, j, name)
  }

  function SymbolsOf(l: Loaded): seq<Symbol> {
    if l.image.dynsym.Some? then l.image.dynsym.value else []
  }

  lemma {:induction false} ExportsGive(symbols: seq<Symbol>, base: nat, n: nat, name: string, k: nat)
    requires n <= |symbols|
    ensures GivesFirst(symbols, k, name) && k < n ==>
              Named(Exports(symbols, base, n), name)
              && FirstDefinition(Exports(symbols, base, n), name) == Add32(base, symbols[k].value)
    ensures (forall j: nat :: j < n ==> !Gives(symbols, j, name)) ==>
              !Named(Exports(symbols, base, n), name) && FirstDefinition(Exports(symbols, base, n), name) == 0
  {
    if n > 1 {
      ExportsGive(symbols, base, n - 1, name, k);
      var front, s := Exports(symbols, base, n - 1), symbols[n - 1];
      var d := Def(s.name, Add32(base, s.value));
      FirstOfAppend(front, d, name);
      NamedInAppend(front, [d], name);
      assert [d][0] == d;
      assert s.name == name && Exported(s) <==> Gives(symbols, n - 1, name);
    }
  }

  lemma NamedInAppend(a: seq<Def>, b: seq<Def>, name: string)
    ensures Named(a + b, name) <==> Named(a, name) || Named(b, name)
  {
    if Named(a, name) {
      var i :| 0 <= i < |a| && a[i].name == name;
      assert (a + b)[i].name == name;
    }
    if Named(b, name) {
      var i :| 0 <= i < |b| && b[i].name == name;
      assert (a + b)[|a| + i].name == name;
    }
  }

  lemma {:induction false} FirstOfBoth(a: seq<Def>, b: seq<Def>, name: string)
    ensures FirstDefinition(a + b, name)
         == if Named(a, name) then FirstDefinition(a, name) else FirstDefinition(b, name)
    ensures Named(a + b, name) <==> Named(a, name) || Named(b, name)
  {
    NamedInAppend(a, b, name);
    if a == [] {
      assert a + b == b;
    } else {
      FirstOfBoth(a[1..], b, name);
      assert (a + b)[1..] == a[1..] + b;
      NamedInAppend([a[0]], a[1..], name);
      assert [a[0]] + a[1..] == a && [a[0]][0] == a[0];
    }
  }

  /** With no library giving the name before library i, and not the cart. */
  predicate NotBefore(cart: Cart, libs: seq<Loaded>, i: nat, name: string) {
    i <= |libs| && GivesNone(cart.exports, name) && forall j: nat :: j < i ==> GivesNone(SymbolsOf(libs[j]), name)
  }

  /** The cart's first definition wins; without one, the first one of the first library in load order that
      has any; without that there is none. */
  lemma {:induction false} FirstGiven(cart: Cart, libs: seq<Loaded>, name: string, i: nat, k: nat)
    ensures GivesFirst(cart.exports, k, name) ==>
              Named(Definitions(cart, libs), name)
              && FirstDefinition(Definitions(cart, libs), name) == cart.exports[k].value % U32
    ensures i < |libs| && NotBefore(cart, libs, i, name) && GivesFirst(SymbolsOf(libs[i]), k, name) ==>
              Named(Definitions(cart, libs), name)
              && FirstDefinition(Definitions(cart, libs), name) == Add32(libs[i].base, SymbolsOf(libs[i])[k].value)
    ensures NotBefore(cart, libs, |libs|, name) ==>
              !Named(Definitions(cart, libs), name) && FirstDefinition(Definitions(cart, libs), name) == 0
  {
    if libs == [] {
      ExportsGive(cart.exports, 0, |cart.exports|, name, k);
    } else {
      var front, l := libs[..|libs| - 1], libs[|libs| - 1];
      FirstGiven(cart, front, name, i, k);
      ExportsGive(SymbolsOf(l), l.base, |SymbolsOf(l)|, name, k);
      FirstOfBoth(Definitions(cart, front), ImageDefs(l), name);
    }
  }
}
