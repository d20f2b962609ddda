/** What memory holds after a link, but for the relocated words. */
module LinkedMemory {
  import opened Bytes
  import opened LoaderSpec
  import opened Loader

  predicate InSegment(base: nat, s: Segment, a: nat) {
    base + s.vaddr <= a < base + s.vaddr + s.memsz
  }

  /** The byte at offset k of a segment: its data, then zeros. */
  function SegmentByte(s: Segment, k: nat): byte {
    if k < |s.data| then s.data[k] else 0
  }

  /** Segment j covers a, and none behind it does. */
  predicate LastCover(base: nat, segments: seq<Segment>, n: nat, j: nat, a: nat) {
    && j < n <= |segments| && InSegment(base, segments[j], a)
    && forall k :: j < k < n ==> !InSegment(base, segments[k], a)
  }

  predicate Covers(base: nat, segments: seq<Segment>, n: nat, a: nat)
    requires n <= |segments|
  {
    exists j :: 0 <= j < n && InSegment(base, segments[j], a)
  }

  predicate Same(m: Memory, mem: Memory, a: nat) {
    (a in m <==> a in mem) && (a in m ==> m[a] == mem[a])
  }

  lemma SegmentMapped(mem: Memory, base: nat, s: Segment, a: nat)
    requires SegmentFits(s) && base + GUEST_MEMORY < U32
    ensures var m := MapSegment(mem, base, s);
            if InSegment(base, s, a) then a in m && m[a] == SegmentByte(s, a - base - s.vaddr) else Same(m, mem, a)
  {
    var at := base + s.vaddr;
    SmallSum(base, s.vaddr);
    PokeAt(mem, at, s.data, a);
    PokeAt(Poke(mem, at, s.data), at + |s.data|, Zeros(s.memsz - |s.data|), a);
  }

  lemma {:induction false} SegmentsMapped(mem: Memory, base: nat, segments: seq<Segment>, n: nat, j: nat, a: nat)
    requires n <= |segments| && base + GUEST_MEMORY < U32
    requires forall k :: 0 <= k < |segments| ==> SegmentFits(segments[k])
    ensures var m := MapSegments(mem, base, segments, n);
            && (LastCover(base, segments, n, j, a) ==>
                  a in m && m[a] == SegmentByte(segments[j], a - base - segments[j].vaddr))
            && (!Covers(base, segments, n, a) ==> Same(m, mem, a))
  {
    if n > 0 {
      SegmentsMapped(mem, base, segments, n - 1, j, a);
      SegmentMapped(MapSegments(mem, base, segments, n - 1), base, segments[n - 1], a);
    }
  }

  predicate InLibrary(l: Loaded, a: nat) {
    Covers(l.base, l.image.segments, |l.image.segments|, a)
  }

  /** The library fits the guest's memory where it is. */
  predicate FitsAt(l: Loaded) {
    Fits(l.image) && l.base + GUEST_MEMORY < U32
  }

  lemma {:induction false} LibraryMapped(mem: Memory, libs: seq<Loaded>, i: nat, j: nat, a: nat)
    requires forall k :: 0 <= k < |libs| ==> FitsAt(libs[k])
    requires i < |libs| && LastCover(libs[i].base, libs[i].image.segments, |libs[i].image.segments|, j, a)
    requires forall k :: i < k < |libs| ==> !InLibrary(libs[k], a)
    ensures var m, l := MapImages(mem, libs), libs[i];
            a in m && m[a] == SegmentByte(l.image.segments[j], a - l.base - l.image.segments[j].vaddr)
  {
    var last := libs[|libs| - 1];
    var front := MapImages(mem, libs[..|libs| - 1]);
    SegmentsMapped(front, last.base, last.image.segments, |last.image.segments|, j, a);
    if i < |libs| - 1 {
      LibraryMapped(mem, libs[..|libs| - 1], i, j, a);
    }
  }

  lemma {:induction false} NoneMapped(mem: Memory, libs: seq<Loaded>, a: nat)
    requires forall k :: 0 <= k < |libs| ==> FitsAt(libs[k]) && !InLibrary(libs[k], a)
    ensures Same(MapImages(mem, libs), mem, a)
  {
    if libs != [] {
      var last := libs[|libs| - 1];
      NoneMapped(mem, libs[..|libs| - 1], a);
      SegmentsMapped(MapImages(mem, libs[..|libs| - 1]), last.base, last.image.segments, |last.image.segments|, 0, a);
    }
  }

  lemma {:induction false} BelowNext(libs: seq<Loaded>, next: nat, i: nat)
    requires Placed(libs, next) && i < |libs|
    ensures libs[i].base <= next
    decreases |libs| - i
  {
    assert PlacedAt(libs, next, i);
    if i + 1 < |libs| {
      BelowNext(libs, next, i + 1);
    }
  }

  /** Every library of a registry is placed, and fits. */
  ghost predicate AllPlaced(libs: seq<Loaded>, next: nat) {
    Placed(libs, next) && |libs| <= LIB_MAX && forall i :: 0 <= i < |libs| ==> Fits(libs[i].image)
  }

  lemma PlacedFits(libs: seq<Loaded>, next: nat, i: nat)
    requires AllPlaced(libs, next) && i < |libs|
    ensures FitsAt(libs[i])
  {
    BelowNext(libs, next, i);
  }

  /** No address is in two libraries. */
  lemma PlacedApart(libs: seq<Loaded>, next: nat, i: nat, k: nat, a: nat)
    requires AllPlaced(libs, next) && i < k < |libs| && InLibrary(libs[i], a)
    ensures !InLibrary(libs[k], a)
  {
    PlacedFits(libs, next, i);
    PlacedDisjoint(libs, next, i, k);
    ExtentBounds(libs[i].image.segments, libs[i].base, |libs[i].image.segments|);
  }

  // ------------------------------------------------------ relocated words

  predicate InWord(at: nat, a: nat) {
    at <= a < at + 4
  }

  /** No relocation entry of any library or of the cart is for a word that a lies in. */
  ghost predicate Unrelocated(cart: Cart, libs: seq<Loaded>, a: nat) {
    && (forall i: nat, k: nat :: i < |libs| && k < |libs[i].image.relas| ==>
          !InWord(Add32(libs[i].base, libs[i].image.relas[k].offset), a))
    && (forall k: nat :: k < |cart.jmprel| ==> !InWord(cart.jmprel[k].offset, a))
    && (forall k: nat :: k < |cart.rela| ==> !InWord(cart.rela[k].offset, a))
  }

  predicate Misses(ws: seq<Write>, a: nat) {
    forall i :: 0 <= i < |ws| ==> !InWord(ws[i].at, a)
  }

  lemma {:induction false} LibMisses(syms: seq<Def>, l: Loaded, n: nat, a: nat)
    requires n <= |l.image.relas|
    requires forall k: nat :: k < n ==> !InWord(Add32(l.base, l.image.relas[k].offset), a)
    ensures Misses(LibWrites(syms, l, n), a)
  {
    if n > 0 {
      LibMisses(syms, l, n - 1, a);
    }
  }

  lemma {:induction false} LibsMiss(syms: seq<Def>, libs: seq<Loaded>, a: nat)
    requires forall i: nat, k: nat :: i < |libs| && k < |libs[i].image.relas| ==>
               !InWord(Add32(libs[i].base, libs[i].image.relas[k].offset), a)
    ensures Misses(LibsWrites(syms, libs), a)
  {
    if libs != [] {
      LibsMiss(syms, libs[..|libs| - 1], a);
      LibMisses(syms, libs[|libs| - 1], |libs[|libs| - 1].image.relas|, a);
    }
  }

  lemma {:induction false} CartMisses(syms: seq<Def>, d: seq<Symbol>, relas: seq<Rela>, plt: bool, n: nat, a: nat)
    requires n <= |relas| && forall k: nat :: k < n ==> !InWord(relas[k].offset, a)
    ensures Misses(CartWrites(syms, d, relas, plt, n), a)
  {
    if n > 0 {
      CartMisses(syms, d, relas, plt, n - 1, a);
    }
  }

  lemma AllMiss(syms: seq<Def>, cart: Cart, libs: seq<Loaded>, a: nat)
    requires Unrelocated(cart, libs, a)
    ensures Misses(AllWrites(syms, cart, libs), a)
  {
    LibsMiss(syms, libs, a);
    if cart.dynsym.Some? {
      CartMisses(syms, cart.dynsym.value, cart.jmprel, true, |cart.jmprel|, a);
      CartMisses(syms, cart.dynsym.value, cart.rela, false, |cart.rela|, a);
    }
  }

  // --------------------------------------------------------- after the link

  /** Address a, which no relocation is for, holds the byte of segment j of library i that covers it. */
  ghost predicate Shows(m: Memory, cart: Cart, libs: seq<Loaded>, i: nat, j: nat, a: nat) {
    i < |libs| && Unrelocated(cart, libs, a)
    && LastCover(libs[i].base, libs[i].image.segments, |libs[i].image.segments|, j, a) ==>
      a in m && m[a] == SegmentByte(libs[i].image.segments[j], a - libs[i].base - libs[i].image.segments[j].vaddr)
  }

  /** Address a, which is in no library and which no relocation is for, is as it was. */
  ghost predicate Keeps(m: Memory, mem: Memory, cart: Cart, libs: seq<Loaded>, a: nat) {
    Unrelocated(cart, libs, a) && (forall i :: 0 <= i < |libs| ==> !InLibrary(libs[i], a)) ==> Same(m, mem, a)
  }

  /** After a link every library lies where it was placed, each address holding what the last of its
      segments there says: the file's byte, or zero past the file's end. */
  lemma LinkedShows(mem: Memory, cart: Cart, libs: seq<Loaded>, next: nat, i: nat, j: nat, a: nat)
    requires AllPlaced(libs, next)
    ensures Shows(Linked(mem, cart, libs), cart, libs, i, j, a)
  {
    if i < |libs| && Unrelocated(cart, libs, a)
       && LastCover(libs[i].base, libs[i].image.segments, |libs[i].image.segments|, j, a) {
      forall k | 0 <= k < |libs|
        ensures FitsAt(libs[k])
      {
        PlacedFits(libs, next, k);
      }
      forall k | i < k < |libs|
        ensures !InLibrary(libs[k], a)
      {
        PlacedApart(libs, next, i, k, a);
      }
      LibraryMapped(mem, libs, i, j, a);
      AllMiss(SymTable(cart, libs), cart, libs, a);
      OtherBytesStay(MapImages(mem, libs), AllWrites(SymTable(cart, libs), cart, libs), a);
    }
  }

  lemma LinkedKeeps(mem: Memory, cart: Cart, libs: seq<Loaded>, next: nat, a: nat)
    requires AllPlaced(libs, next)
    ensures Keeps(Linked(mem, cart, libs), mem, cart, libs, a)
  {
    if Unrelocated(cart, libs, a) && forall i :: 0 <= i < |libs| ==> !InLibrary(libs[i], a) {
      forall k | 0 <= k < |libs|
        ensures FitsAt(libs[k])
      {
        PlacedFits(libs, next, k);
      }
      NoneMapped(mem, libs, a);
      AllMiss(SymTable(cart, libs), cart, libs, a);
      OtherBytesStay(MapImages(mem, libs), AllWrites(SymTable(cart, libs), cart, libs), a);
    }
  }
  lemma LinkedMemoryIs(mem: Memory, cart: Cart, libs: seq<Loaded>, next: nat)
    requires AllPlaced(libs, next)
    ensures forall i: nat, j: nat, a: nat :: Shows(Linked(mem, cart, libs), cart, libs, i, j, a)
    ensures forall a: nat :: Keeps(Linked(mem, cart, libs), mem, cart, libs, a)
  {
    forall i: nat, j: nat, a: nat
      ensures Shows(Linked(mem, cart, libs), cart, libs, i, j, a)
    {
      LinkedShows(mem, cart, libs, next, i, j, a);
    }
    forall a: nat
      ensures Keeps(Linked(mem, cart, libs), mem, cart, libs, a)
    {
      LinkedKeeps(mem, cart, libs, next, a);
    }
  }
}
