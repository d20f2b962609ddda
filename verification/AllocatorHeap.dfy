/** The C allocator: header words and free-list links live in the heap bytes. */
module AllocatorHeap {
  import opened Bytes
  import opened AllocatorPool

  function ByteOf(w: nat, i: nat): byte {
    w / Pow256(i) % 256
  }

  lemma ByteOfWord(w: nat)
    requires w < U32
    ensures w == ByteOf(w, 0) as int + 0x100 * ByteOf(w, 1) as int
                 + 0x1_0000 * ByteOf(w, 2) as int + 0x100_0000 * ByteOf(w, 3) as int
  {
    Pow256Values();
    assert Pow256(3) == 0x100_0000 && Pow256(0) == 1;
    ByteAbove(w, 1, 0x100);
    ByteAbove(w, 0x100, 0x1_0000);
    ByteAbove(w, 0x1_0000, 0x100_0000);
  }

  /** h with the 4 bytes from `at` replaced. */
  ghost predicate Written(h: seq<byte>, h': seq<byte>, at: nat, w: nat)
    requires at + 4 <= |h|
  {
    && |h'| == |h| && WordAt(h', at) == w
    && forall i :: 0 <= i < |h| && !(at <= i < at + 4) ==> h'[i] == h[i]
  }

  /** Block id lies in the heap, opens with its own size, and is followed by its link word. */
  ghost predicate BlockLaid(h: seq<byte>, starts: seq<nat>, links: seq<nat>, id: nat) {
    && id < |links| && id + 1 < |starts|
    && starts[id] + 8 <= starts[id + 1] <= |h|
    && WordAt(h, starts[id]) == starts[id + 1] - starts[id]
    && WordAt(h, starts[id] + 4) == links[id]
  }

  ghost predicate Laid(h: seq<byte>, starts: seq<nat>, links: seq<nat>) {
    && |links| + 1 == |starts|
    && forall id: nat :: id < |links| ==> BlockLaid(h, starts, links, id)
  }

  /** What block id holds beside its header. */
  function Payload(h: seq<byte>, starts: seq<nat>, id: nat): seq<byte> {
    if id + 1 < |starts| && starts[id] + HEADER <= starts[id + 1] <= |h|
    then h[starts[id] + HEADER..starts[id + 1]]
    else []
  }

  lemma BlockUntouched(h: seq<byte>, h': seq<byte>, starts: seq<nat>, links: seq<nat>, id: nat)
    requires BlockLaid(h, starts, links, id) && |h'| == |h|
    requires h'[starts[id]..starts[id + 1]] == h[starts[id]..starts[id + 1]]
    ensures BlockLaid(h', starts, links, id) && Payload(h', starts, id) == Payload(h, starts, id)
  {
    var s, s' := h[starts[id]..starts[id + 1]], h'[starts[id]..starts[id + 1]];
    assert forall i :: 0 <= i < |s| ==> h[starts[id] + i] == s[i] && h'[starts[id] + i] == s'[i];
    assert Payload(h, starts, id) == s[HEADER..] && Payload(h', starts, id) == s'[HEADER..];
  }

  /** Writing inside block id past its header changes no header, no other link and no other payload. */
  lemma PayloadWritten(h: seq<byte>, h': seq<byte>, starts: seq<nat>, links: seq<nat>, id: nat)
    requires Tiled(starts) && Laid(h, starts, links) && BlockLaid(h, starts, links, id) && |h'| == |h|
    requires forall i :: 0 <= i < |h| && !(starts[id] + HEADER <= i < starts[id + 1]) ==> h'[i] == h[i]
    ensures Laid(h', starts, links[id := WordAt(h', starts[id] + 4)])
    ensures forall j: nat :: j < |links| && j != id ==> Payload(h', starts, j) == Payload(h, starts, j)
  {
    var links' := links[id := WordAt(h', starts[id] + 4)];
    forall j: nat | j < |links|
      ensures BlockLaid(h', starts, links', j)
      ensures j != id ==> Payload(h', starts, j) == Payload(h, starts, j)
    {
      if j != id {
        assert BlockLaid(h, starts, links, j);
        assert Before(starts, j + 1, id) && Before(starts, id + 1, j);
        BlockUntouched(h, h', starts, links, j);
      }
    }
  }

  lemma MoveRanges(starts: seq<nat>, from: nat, to: nat, n: nat)
    requires Tiled(starts) && IsBlock(starts, from) && IsBlock(starts, to) && from != to
    requires n + HEADER == Size(starts, from) <= Size(starts, to)
    ensures starts[to] + HEADER + n <= starts[from] || starts[from] + HEADER + n <= starts[to]
    ensures starts[from] + HEADER + n == starts[from + 1] && starts[to] + HEADER + n <= starts[to + 1]
  {
    assert Before(starts, from + 1, to) && Before(starts, to + 1, from);
  }

  lemma PayloadCopied(h: seq<byte>, h': seq<byte>, starts: seq<nat>, from: nat, to: nat, n: nat)
    requires from + 1 < |starts| && to + 1 < |starts| && |h'| == |h|
    requires starts[from] + HEADER + n == starts[from + 1] <= |h|
    requires starts[to] + HEADER + n <= starts[to + 1] <= |h|
    requires h'[starts[to] + HEADER..starts[to] + HEADER + n]
             == h[starts[from] + HEADER..starts[from] + HEADER + n]
    ensures Payload(h, starts, from) <= Payload(h', starts, to)
  {
    assert Payload(h', starts, to)[..n] == h'[starts[to] + HEADER..starts[to] + HEADER + n];
  }

  lemma FrontOfPayload(h: seq<byte>, starts: seq<nat>, id: nat, n: nat)
    requires id + 1 < |starts| && starts[id] + HEADER + n <= starts[id + 1] <= |h|
    ensures h[starts[id] + HEADER..starts[id] + HEADER + n] <= Payload(h, starts, id)
  {
  }

  /** A header written at `brk` opens a new block and leaves every older one alone. */
  lemma BlockCut(h: seq<byte>, h': seq<byte>, starts: seq<nat>, links: seq<nat>, need: nat, link: nat)
    requires Tiled(starts) && Laid(h, starts, links)
    requires need >= 8 && Last(starts) + need <= |h| && Written(h, h', Last(starts), need)
    requires link == WordAt(h', Last(starts) + 4)
    ensures Laid(h', starts + [Last(starts) + need], links + [link])
    ensures forall j: nat :: j < |links| ==>
              Payload(h', starts + [Last(starts) + need], j) == Payload(h, starts, j)
  {
    var starts', links' := starts + [Last(starts) + need], links + [link];
    forall j: nat | j < |links|
      ensures BlockLaid(h', starts', links', j) && Payload(h', starts', j) == Payload(h, starts, j)
    {
      assert BlockLaid(h, starts, links, j);
      assert Before(starts, j + 1, |starts| - 1);
      BlockUntouched(h, h', starts, links, j);
      assert starts'[j] == starts[j] && starts'[j + 1] == starts[j + 1] && links'[j] == links[j];
    }
    assert BlockLaid(h', starts', links', |links|);
  }

  /** The link value that leads to position k of the free list; 0 ends the list. */
  function LinkTo(base: nat, starts: seq<nat>, free: seq<nat>, k: nat): nat {
    if k < |free| && free[k] < |starts| then base + starts[free[k]] else 0
  }

  /** The second word of the block at position k leads to position k + 1. */
  ghost predicate LinkOk(base: nat, starts: seq<nat>, free: seq<nat>, links: seq<nat>, k: nat) {
    && k < |free| && free[k] < |links| < |starts|
    && links[free[k]] == LinkTo(base, starts, free, k + 1)
  }

  /** `head` and the second words of the free blocks thread the free list. */
  ghost predicate Chain(base: nat, starts: seq<nat>, free: seq<nat>, links: seq<nat>, head: nat) {
    && head == LinkTo(base, starts, free, 0)
    && forall k: nat :: k < |free| ==> LinkOk(base, starts, free, links, k)
  }

  lemma UnlinkChain(base: nat, starts: seq<nat>, free: seq<nat>, links: seq<nat>, head: nat, k: nat)
    requires Chain(base, starts, free, links, head) && Distinct(free) && k < |free|
    ensures LinkOk(base, starts, free, links, k) && (k > 0 ==> LinkOk(base, starts, free, links, k - 1))
    ensures var next := links[free[k]];
            if k == 0 then Chain(base, starts, Without(free, k), links, next)
            else Chain(base, starts, Without(free, k), links[free[k - 1] := next], head)
  {
    var rest := Without(free, k);
    assert LinkOk(base, starts, free, links, k) && (k > 0 ==> LinkOk(base, starts, free, links, k - 1));
    var links' := if k == 0 then links else links[free[k - 1] := links[free[k]]];
    forall i: nat | i < |rest|
      ensures LinkOk(base, starts, rest, links', i)
    {
      assert LinkOk(base, starts, free, links, if i < k then i else i + 1);
    }
  }

  lemma PushChain(base: nat, starts: seq<nat>, free: seq<nat>, links: seq<nat>, head: nat, id: nat)
    requires Chain(base, starts, free, links, head) && id !in free && id < |links| < |starts|
    ensures Chain(base, starts, [id] + free, links[id := head], base + starts[id])
  {
    var links' := links[id := head];
    forall k: nat | k < |[id] + free|
      ensures LinkOk(base, starts, [id] + free, links', k)
    {
      assert k > 0 ==> LinkOk(base, starts, free, links, k - 1);
    }
  }

  /** The second word of a block that is not on the list is the caller's. */
  lemma PayloadChain(base: nat, starts: seq<nat>, free: seq<nat>, links: seq<nat>, head: nat, id: nat, w: nat)
    requires Chain(base, starts, free, links, head) && id !in free && id < |links|
    ensures Chain(base, starts, free, links[id := w], head)
  {
    var links' := links[id := w];
    forall k: nat | k < |free|
      ensures LinkOk(base, starts, free, links', k)
    {
      assert LinkOk(base, starts, free, links, k);
    }
  }

  lemma BumpChain(base: nat, starts: seq<nat>, free: seq<nat>, links: seq<nat>, head: nat, end: nat, w: nat)
    requires Chain(base, starts, free, links, head) 
    ensures Chain(base, starts + [end], free, links + [w], head)
  {
    forall k: nat | k < |free|
      ensures LinkOk(base, starts + [end], free, links + [w], k)
    {
      assert LinkOk(base, starts, free, links, k);
      assert k + 1 < |free| ==> LinkOk(base, starts, free, links, k + 1);
    }
    assert |free| > 0 ==> LinkOk(base, starts, free, links, 0);
  }

  /** The pointer malloc hands out: to the first free block that is large enough, else to a new block at
      brk, else null. */
  ghost predicate Answered(base: nat, before: Pool, n: nat, p: nat, brk: nat) {
    && |before.starts| > 0
    && (forall k: nat :: FirstToFit(before, n, k) ==>
          p == base + before.starts[before.free[k]] + HEADER && brk == before.Brk())
    && (NoneFits(before, n) && before.Brk() + Footprint(n) <= HEAP_SIZE ==>
          p == base + before.Brk() + HEADER && brk == before.Brk() + Footprint(n))
    && (p == 0 <==> Exhausted(before, n))
  }

  /** Realloc stays in place exactly when the block already holds n bytes, and is null exactly when it does
      not and malloc fails. */
  ghost predicate Resized(before: Pool, b: nat, n: nat, p: nat, q: nat) {
    && (q == p <==> RoomIn(before, b, n))
    && (q == 0 <==> !RoomIn(before, b, n) && Exhausted(before, n))
  }

  /** q is the pointer to block b's payload; null for no block. */
  ghost predicate Leads(base: nat, p: Pool, b: Option<nat>, q: nat) {
    match b
    case None => q == 0
    case Some(id) => IsBlock(p.starts, id) && q == base + p.starts[id] + HEADER
  }

  lemma MallocAnswered(base: nat, before: Pool, n: nat, p: nat)
    requires before.Inv() && n < U32 && NoWrap(before.Brk(), n) && base > 0
    requires before.Malloc(n).0.Inv()
    requires Leads(base, before.Malloc(n).0, before.Malloc(n).1, p)
    ensures Answered(base, before, n, p, before.Malloc(n).0.Brk())
  {
    MallocOutcome(before, n, 0);
    forall k: nat | FirstToFit(before, n, k)
      ensures p == base + before.starts[before.free[k]] + HEADER && before.Malloc(n).0.Brk() == before.Brk()
    {
      MallocOutcome(before, n, k);
    }
    if k: nat :| FirstToFit(before, n, k) {
      assert Fits(before, n, k);
    }
  }

  /** A block of another number begins at another address. */
  lemma ElsewhereThan(before: Pool, b: nat, n: nat)
    requires before.Inv() && 0 < n < U32 && NoWrap(before.Brk(), n) && b in before.live
    ensures IsBlock(before.starts, b)
    ensures var (after, r) := before.Realloc(Some(b), n);
            r.Some? && r.value != b ==> r.value < |after.starts| && after.starts[r.value] != before.starts[b]
  {
    LiveIsBlock(before, b);
    if before.Realloc(Some(b), n).1 != Some(b) {
      MallocInv(before, n);
      if before.Malloc(n).1.Some? {
        GrownSizes(before, n, b);
        var (m, r) := before.Malloc(n);
        assert Before(m.starts, b, r.value) && Before(m.starts, r.value, b);
      }
    }
  }

  lemma ReallocAnswered(base: nat, before: Pool, b: Option<nat>, n: nat, p: nat, q: nat)
    requires before.Inv() && n < U32 && NoWrap(before.Brk(), n) && base > 0
    requires (b.Some? ==> b.value in before.live) && Leads(base, before, b, p)
    requires before.Realloc(b, n).0.Inv() && Leads(base, before.Realloc(b, n).0, before.Realloc(b, n).1, q)
    ensures b.None? ==> Answered(base, before, n, q, before.Realloc(b, n).0.Brk())
    ensures b.Some? && n == 0 ==> q == 0
    ensures b.Some? && n > 0 ==> Resized(before, b.value, n, p, q)
  {
    if b.None? {
      MallocAnswered(base, before, n, q);
    } else if n > 0 {
      ReallocOutcome(before, b.value, n);
      ElsewhereThan(before, b.value, n);
    }
  }

  class Heap {
    const base: nat  // address of heap[0]; never 0, so 0 is the null pointer
    const heap: array<byte>
    var brk: nat
    var freelist: nat
    ghost var pool: Pool
    ghost var links: seq<nat>  // second word of every block

    /** The heap bytes, `brk` and `freelist` stand for these blocks and this free list. */
    ghost predicate Represents(starts: seq<nat>, free: seq<nat>)
      reads this`brk, this`freelist, this`links, heap
    {
      && heap.Length == HEAP_SIZE && 0 < base && base + HEAP_SIZE < U32
      && |starts| > 0 && brk == Last(starts)
      && Laid(heap[..], starts, links) && Chain(base, starts, free, links, freelist)
    }

    ghost predicate Valid()
      reads this, heap
    {
      pool.Inv() && Represents(pool.starts, pool.free)
    }

    ghost predicate Holds(p: nat, b: Option<nat>)
      reads this`pool
    {
      Leads(base, pool, b, p)
    }

    constructor (base: nat)
      requires 0 < base && base + HEAP_SIZE < U32
      ensures Valid() && pool == EMPTY && this.base == base && fresh(heap)
    {
      this.base := base;
      heap := new byte[HEAP_SIZE](_ => 0);
      brk := 0;
      freelist := 0;
      pool := EMPTY;
      links := [];
    }

    method GetWord(at: nat) returns (w: nat)
      requires at + 4 <= heap.Length
      ensures w == WordAt(heap[..], at)
    {
      w := heap[at] as int + 0x100 * heap[at + 1] as int
           + 0x1_0000 * heap[at + 2] as int + 0x100_0000 * heap[at + 3] as int;
    }

    method SetWord(at: nat, w: nat)
      requires at + 4 <= heap.Length && w < U32
      modifies heap
      ensures Written(old(heap[..]), heap[..], at, w)
    {
      ByteOfWord(w);
      heap[at] := ByteOf(w, 0);
      heap[at + 1] := ByteOf(w, 1);
      heap[at + 2] := ByteOf(w, 2);
      heap[at + 3] := ByteOf(w, 3);
    }

    /** Stores into the link word of block id. */
    method SetLink(ghost id: nat, block: nat, w: nat)
      requires Tiled(pool.starts) && Laid(heap[..], pool.starts, links)
      requires id < |links| && block == pool.starts[id] && w < U32
      modifies this`links, heap
      ensures Laid(heap[..], pool.starts, links) && links == old(links)[id := w]
      ensures forall j: nat :: j < |links| && j != id ==>
                Payload(heap[..], pool.starts, j) == old(Payload(heap[..], pool.starts, j))
    {
      ghost var h := heap[..];
      assert BlockLaid(h, pool.starts, links, id);
      SetWord(block + 4, w);
      PayloadWritten(h, heap[..], pool.starts, links, id);
      links := links[id := w];
    }

    /** Stores a block's link into its predecessor's, prev, or into the list head if prev is 0. */
    method Unlink(prev: nat, cur: nat, ghost k: nat)
      requires base > 0 && Tiled(pool.starts) && Distinct(pool.free) && k < |pool.free|
      requires Laid(heap[..], pool.starts, links)
      requires Chain(base, pool.starts, pool.free, links, freelist)
      requires cur == LinkTo(base, pool.starts, pool.free, k)
      requires prev == if k == 0 then 0 else LinkTo(base, pool.starts, pool.free, k - 1)
      modifies this`freelist, this`links, heap
      ensures Laid(heap[..], pool.starts, links) && |links| == |old(links)|
      ensures Chain(base, pool.starts, Without(pool.free, k), links, freelist)
      ensures forall id: nat :: id < |links| && id !in pool.free ==>
                Payload(heap[..], pool.starts, id) == old(Payload(heap[..], pool.starts, id))
    {
      UnlinkChain(base, pool.starts, pool.free, links, freelist, k);
      assert BlockLaid(heap[..], pool.starts, links, pool.free[k]);
      var next := GetWord(cur - base + 4);
      if prev == 0 {
        freelist := next;
      } else {
        SetLink(pool.free[k - 1], prev - base, next);
      }
    }

    /** Cuts a block of `need` bytes from above `brk` and writes its header. */
    method Bump(need: nat) returns (p: nat)
      requires Tiled(pool.starts) && Laid(heap[..], pool.starts, links) && brk == pool.Brk()
      requires Chain(base, pool.starts, pool.free, links, freelist)
      requires 8 <= need < U32 && brk + need <= heap.Length
      modifies this`brk, this`links, heap
      ensures brk == old(brk) + need && p == base + old(brk) + HEADER
      ensures Laid(heap[..], pool.starts + [brk], links)
      ensures Chain(base, pool.starts + [brk], pool.free, links, freelist)
      ensures forall id: nat :: IsBlock(pool.starts, id) ==>
                Payload(heap[..], pool.starts + [brk], id) == old(Payload(heap[..], pool.starts, id))
    {
      ghost var h := heap[..];
      SetWord(brk, need);
      ghost var link := WordAt(heap[..], brk + 4);
      BlockCut(h, heap[..], pool.starts, links, need, link);
      BumpChain(base, pool.starts, pool.free, links, freelist, brk + need, link);
      p := base + brk + HEADER;
      brk := brk + need;
      links := links + [link];
    }

    /** The walk from link to link: cur is the first block that is large enough, or null. */
    method FindFit(need: nat) returns (prev: nat, cur: nat, ghost k: nat)
      requires base > 0 && Tiled(pool.starts) && (forall id :: id in pool.free ==> IsBlock(pool.starts, id))
      requires Laid(heap[..], pool.starts, links)
      requires Chain(base, pool.starts, pool.free, links, freelist)
      ensures k == FirstFit(pool.starts, pool.free, need, 0)
      ensures cur == LinkTo(base, pool.starts, pool.free, FirstFit(pool.starts, pool.free, need, 0))
      ensures cur == 0 <==> FirstFit(pool.starts, pool.free, need, 0) == |pool.free|
      ensures prev == if k == 0 then 0 else LinkTo(base, pool.starts, pool.free, k - 1)
    {
      prev, cur, k := 0, freelist, 0;
      while cur != 0
        invariant k <= |pool.free| && cur == LinkTo(base, pool.starts, pool.free, k)
        invariant prev == if k == 0 then 0 else LinkTo(base, pool.starts, pool.free, k - 1)
        invariant FirstFit(pool.starts, pool.free, need, 0) == FirstFit(pool.starts, pool.free, need, k)
        decreases |pool.free| - k
      {
        assert LinkOk(base, pool.starts, pool.free, links, k);
        assert BlockLaid(heap[..], pool.starts, links, pool.free[k]);
        var size := GetWord(cur - base);
        if size >= need {
          return;
        }
        var next := GetWord(cur - base + 4);
        prev, cur, k := cur, next, k + 1;
      }
      assert k < |pool.free| ==> LinkOk(base, pool.starts, pool.free, links, k);
    }

    /** The search and the bump of malloc, free of what the blocks are used for. */
    method Serve(need: nat) returns (p: nat, ghost k: nat)
      requires Represents(pool.starts, pool.free) && Tiled(pool.starts) && Last(pool.starts) <= HEAP_SIZE
      requires Distinct(pool.free) && (forall id :: id in pool.free ==> IsBlock(pool.starts, id))
      requires 8 <= need < U32 && (RoomAbove(brk, need) ==> brk + need <= HEAP_SIZE)
      modifies this`brk, this`freelist, this`links, heap
      ensures k == FirstFit(pool.starts, pool.free, need, 0)
      ensures if k < |pool.free| then
                && Represents(pool.starts, Without(pool.free, k))
                && IsBlock(pool.starts, pool.free[k])
                && p == base + pool.starts[pool.free[k]] + HEADER
              else if RoomAbove(old(brk), need) then
                && Represents(pool.starts + [Last(pool.starts) + need], pool.free)
                && p == base + Last(pool.starts) + HEADER
              else
                Represents(pool.starts, pool.free) && p == 0
      ensures forall id: nat :: IsBlock(pool.starts, id) && id !in pool.free ==>
                Payload(heap[..], pool.starts, id) == old(Payload(heap[..], pool.starts, id))
    {
      var prev, cur;
      prev, cur, k := FindFit(need);
      if cur != 0 {
        Unlink(prev, cur, k);
        p := cur + HEADER;
      } else if (brk + need) % U32 > HEAP_SIZE {
        p := 0;
      } else {
        p := Bump(need);
      }
    }

    /** Malloc as its callers in here need it: some block, as the pool says. */
    method Obtain(n: nat) returns (p: nat)
      requires Valid() && n < U32 && NoWrap(brk, n)
      modifies this, heap
      ensures Valid() && pool == old(pool).Malloc(n).0
      ensures Holds(p, old(pool).Malloc(n).1)
      ensures forall id :: id in old(pool.live) ==>
                Payload(heap[..], pool.starts, id) == old(Payload(heap[..], pool.starts, id))
    {
      MallocInv(pool, n);
      FreeAreBlocks(pool);
      ghost var k;
      p, k := Serve(Need(n));
      pool := pool.Malloc(n).0;
    }

    method Malloc(n: nat) returns (p: nat)
      requires Valid() && n < U32 && NoWrap(brk, n)
      modifies this, heap
      ensures Valid() && pool == old(pool).Malloc(n).0
      ensures Holds(p, old(pool).Malloc(n).1)
      ensures Answered(base, old(pool), n, p, brk)
      ensures forall id :: id in old(pool.live) ==>
                Payload(heap[..], pool.starts, id) == old(Payload(heap[..], pool.starts, id))
    {
      ghost var before := pool;
      p := Obtain(n);
      MallocAnswered(base, before, n, p);
    }

    method Free(p: nat, ghost b: Option<nat>)
      requires Valid() && Holds(p, b) && (b.Some? ==> b.value in pool.live)
      modifies this, heap
      ensures Valid()
      ensures pool == if b.None? then old(pool) else old(pool).Free(b.value)
      ensures forall id: nat :: id in pool.live ==>
                Payload(heap[..], pool.starts, id) == old(Payload(heap[..], pool.starts, id))
    {
      if p == 0 {
        return;
      }
      ghost var id := b.value;
      FreeInv(pool, id);
      LiveIsBlock(pool, id);
      PushChain(base, pool.starts, pool.free, links, freelist, id);
      assert |pool.free| > 0 ==> Before(pool.starts, pool.free[0], |pool.starts| - 1);
      var block := p - HEADER;
      SetLink(id, block - base, freelist);
      freelist := block;
      pool := pool.Free(id);
    }

    /** `memcpy` between two stretches that do not overlap. */
    method Copy(dst: nat, src: nat, n: nat)
      requires dst + n <= heap.Length && src + n <= heap.Length
      requires dst + n <= src || src + n <= dst
      modifies heap
      ensures heap[dst..dst + n] == old(heap[src..src + n])
      ensures forall i :: 0 <= i < heap.Length && !(dst <= i < dst + n) ==> heap[i] == old(heap[i])
    {
      ghost var h := heap[..];
      for i := 0 to n
        invariant heap[dst..dst + i] == h[src..src + i]
        invariant forall j :: 0 <= j < heap.Length && !(dst <= j < dst + i) ==> heap[j] == h[j]
      {
        heap[dst + i] := heap[src + i];
      }
    }

    /** Only the payload of a block that is not on the list changed since h: all still stands. */
    ghost method Refresh(h: seq<byte>, id: nat)
      requires heap.Length == |h| == HEAP_SIZE && 0 < base && base + HEAP_SIZE < U32
      requires Tiled(pool.starts) && brk == Last(pool.starts)
      requires Laid(h, pool.starts, links) && Chain(base, pool.starts, pool.free, links, freelist)
      requires IsBlock(pool.starts, id) && id !in pool.free
      requires forall i :: 0 <= i < |h| && !(pool.starts[id] + HEADER <= i < pool.starts[id + 1]) ==> heap[i] == h[i]
      modifies this`links
      ensures Represents(pool.starts, pool.free)
      ensures forall j: nat :: IsBlock(pool.starts, j) && j != id ==>
                Payload(heap[..], pool.starts, j) == Payload(h, pool.starts, j)
    {
      assert BlockLaid(h, pool.starts, links, id);
      PayloadWritten(h, heap[..], pool.starts, links, id);
      var w := WordAt(heap[..], pool.starts[id] + 4);
      PayloadChain(base, pool.starts, pool.free, links, freelist, id, w);
      links := links[id := w];
    }

    /** A caller's own store through a live pointer. */
    method Store(p: nat, k: nat, v: byte, ghost id: nat)
      requires Valid() && id in pool.live && Holds(p, Some(id)) && k < pool.live[id]
      modifies this`links, heap
      ensures Valid()
      ensures k < |old(Payload(heap[..], pool.starts, id))|
      ensures Payload(heap[..], pool.starts, id) == old(Payload(heap[..], pool.starts, id))[k := v]
      ensures forall j: nat :: j in pool.live && j != id ==>
                Payload(heap[..], pool.starts, j) == old(Payload(heap[..], pool.starts, j))
    {
      LiveIsBlock(pool, id);
      ghost var h := heap[..];
      assert BlockLaid(h, pool.starts, links, id);
      heap[p - base + k] := v;
      Refresh(h, id);
      forall j: nat | j in pool.live
        ensures IsBlock(pool.starts, j)
      {
        LiveIsBlock(pool, j);
      }
    }

    method ZeroRange(at: nat, n: nat)
      requires at + n <= heap.Length
      modifies heap
      ensures heap[at..at + n] == seq(n, _ => 0)
      ensures forall j :: 0 <= j < heap.Length && !(at <= j < at + n) ==> heap[j] == old(heap[j])
    {
      for i := 0 to n
        invariant heap[at..at + i] == seq(i, _ => 0)
        invariant forall j :: 0 <= j < heap.Length && !(at <= j < at + n) ==> heap[j] == old(heap[j])
      {
        heap[at + i] := 0;
      }
    }

    /** `memset` to zero at the start of a live payload. */
    method Clear(p: nat, n: nat, ghost id: nat)
      requires Represents(pool.starts, pool.free) && Tiled(pool.starts)
      requires Holds(p, Some(id)) && id !in pool.free && n + HEADER <= Size(pool.starts, id)
      modifies this`links, heap
      ensures Represents(pool.starts, pool.free)
      ensures seq(n, _ => 0 as byte) <= Payload(heap[..], pool.starts, id)
      ensures forall j: nat :: IsBlock(pool.starts, j) && j != id ==>
                Payload(heap[..], pool.starts, j) == old(Payload(heap[..], pool.starts, j))
    {
      ghost var h := heap[..];
      assert BlockLaid(h, pool.starts, links, id);
      ZeroRange(p - base, n);
      Refresh(h, id);
      FrontOfPayload(heap[..], pool.starts, id, n);
    }

    method Calloc(n: nat, size: nat) returns (p: nat)
      requires Valid() && n < U32 && size < U32 && NoWrap(brk, n * size % U32)
      modifies this, heap
      ensures Valid() && pool == old(pool).Malloc(n * size % U32).0
      ensures Holds(p, old(pool).Malloc(n * size % U32).1)
      ensures p != 0 ==> seq(n * size % U32, _ => 0 as byte)
                         <= Payload(heap[..], pool.starts, old(pool).Malloc(n * size % U32).1.value)
      ensures forall id :: id in old(pool.live) ==>
                Payload(heap[..], pool.starts, id) == old(Payload(heap[..], pool.starts, id))
    {
      var total := n * size % U32;
      MallocInv(pool, total);
      ghost var r := pool.Malloc(total).1;
      p := Obtain(total);
      if p != 0 {
        LiveIsBlock(pool, r.value);
        LiveAreBlocks(pool);
        Clear(p, total, r.value);
      }
    }

    /** The copy of a realloc: block `to` then begins with all that block `from` holds. */
    method Move(p: nat, q: nat, n: nat, ghost from: nat, ghost to: nat)
      requires Represents(pool.starts, pool.free) && Tiled(pool.starts)
      requires from != to && Holds(p, Some(from)) && Holds(q, Some(to)) && to !in pool.free
      requires n + HEADER == Size(pool.starts, from) <= Size(pool.starts, to)
      modifies this`links, heap
      ensures Represents(pool.starts, pool.free)
      ensures old(Payload(heap[..], pool.starts, from)) <= Payload(heap[..], pool.starts, to)
      ensures forall j: nat :: IsBlock(pool.starts, j) && j != to ==>
                Payload(heap[..], pool.starts, j) == old(Payload(heap[..], pool.starts, j))
    {
      ghost var h, starts := heap[..], pool.starts;
      assert BlockLaid(h, starts, links, from) && BlockLaid(h, starts, links, to);
      MoveRanges(starts, from, to, n);
      Copy(q - base, p - base, n);
      assert heap[..][starts[to] + HEADER..starts[to] + HEADER + n]
          == h[starts[from] + HEADER..starts[from] + HEADER + n];
      PayloadCopied(h, heap[..], starts, from, to, n);
      Refresh(h, to);
    }

    /** Copies block `from` into the larger block `to`, then frees it. */
    method MoveAndFree(p: nat, q: nat, n: nat, ghost from: nat, ghost to: nat)
      requires Valid() && from in pool.live && to in pool.live
      requires from != to && Holds(p, Some(from)) && Holds(q, Some(to))
      requires n + HEADER == Size(pool.starts, from) <= Size(pool.starts, to)
      modifies this, heap
      ensures Valid() && pool == old(pool).Free(from)
      ensures old(Payload(heap[..], pool.starts, from)) <= Payload(heap[..], pool.starts, to)
      ensures forall j: nat :: j in pool.live && j != to ==>
                Payload(heap[..], pool.starts, j) == old(Payload(heap[..], pool.starts, j))
    {
      LiveIsBlock(pool, to);
      LiveAreBlocks(pool);
      Move(p, q, n, from, to);
      Free(p, Some(from));
    }

    /** The part of realloc that finds the block too small. */
    method Regrow(p: nat, n: nat, total: nat, ghost id: nat) returns (q: nat)
      requires Valid() && n < U32 && NoWrap(brk, n) && id in pool.live && Holds(p, Some(id))
      requires total >= 8 && n > total - HEADER && total == Size(pool.starts, id)
      modifies this, heap
      ensures Valid() && pool == old(pool).Realloc(Some(id), n).0
      ensures Holds(q, old(pool).Realloc(Some(id), n).1)
      ensures q != 0 ==> old(Payload(heap[..], pool.starts, id))
                         <= Payload(heap[..], pool.starts, old(pool).Realloc(Some(id), n).1.value)
      ensures forall j :: j in old(pool.live) && (j != id || q == 0) ==>
                Payload(heap[..], pool.starts, j) == old(Payload(heap[..], pool.starts, j))
    {
      ghost var before := pool;
      ghost var r := pool.Malloc(n).1;
      MallocInv(pool, n);
      q := Obtain(n);
      if q != 0 {
        GrownSizes(before, n, id);
        MoveAndFree(p, q, total - HEADER, id, r.value);
      }
    }

    /** Realloc, as the pool says. */
    method Resize(p: nat, n: nat, ghost b: Option<nat>) returns (q: nat)
      requires Valid() && n < U32 && NoWrap(brk, n)
      requires Holds(p, b) && (b.Some? ==> b.value in pool.live)
      modifies this, heap
      ensures Valid() && pool == old(pool).Realloc(b, n).0
      ensures Holds(q, old(pool).Realloc(b, n).1)
      // what the block held is the start of what the result holds
      ensures b.Some? && q != 0 ==>
                old(Payload(heap[..], pool.starts, b.value))
                <= Payload(heap[..], pool.starts, old(pool).Realloc(b, n).1.value)
      // every other payload, and after a failure this one too, is as it was
      ensures forall id :: id in old(pool.live) && id in pool.live && (Some(id) != b || (q == 0 && n > 0)) ==>
                Payload(heap[..], pool.starts, id) == old(Payload(heap[..], pool.starts, id))
    {
      if p == 0 {
        q := Obtain(n);
        return;
      }
      ghost var id := b.value;
      if n == 0 {
        Free(p, b);
        return 0;
      }
      LiveIsBlock(pool, id);
      assert BlockLaid(heap[..], pool.starts, links, id);
      var total := GetWord(p - HEADER - base);
      if n <= total - HEADER {
        ReallocInv(pool, b, n);
        pool := Pool(pool.starts, pool.free, pool.live[id := n]);
        return p;
      }
      q := Regrow(p, n, total, id);
    }

    method Realloc(p: nat, n: nat, ghost b: Option<nat>) returns (q: nat)
      requires Valid() && n < U32 && NoWrap(brk, n)
      requires Holds(p, b) && (b.Some? ==> b.value in pool.live)
      modifies this, heap
      ensures Valid() && pool == old(pool).Realloc(b, n).0
      ensures Holds(q, old(pool).Realloc(b, n).1)
      ensures b.None? ==> Answered(base, old(pool), n, q, brk)
      ensures b.Some? && n == 0 ==> q == 0
      ensures b.Some? && n > 0 ==> Resized(old(pool), b.value, n, p, q)
      // what the block held is the start of what the result holds
      ensures b.Some? && q != 0 ==>
                old(Payload(heap[..], pool.starts, b.value))
                <= Payload(heap[..], pool.starts, old(pool).Realloc(b, n).1.value)
      // every other payload, and after a failure this one too, is as it was
      ensures forall id :: id in old(pool.live) && id in pool.live && (Some(id) != b || (q == 0 && n > 0)) ==>
                Payload(heap[..], pool.starts, id) == old(Payload(heap[..], pool.starts, id))
    {
      ghost var before := pool;
      q := Resize(p, n, b);
      ReallocAnswered(base, before, b, n, p, q);
    }
  }
}
