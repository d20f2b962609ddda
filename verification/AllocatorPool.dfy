/** The first-fit allocator, as bookkeeping a caller can reason with. */
module AllocatorPool {
  import opened Bytes

  const HEAP_SIZE: nat := 8 * 1024 * 1024
  const HEADER: nat := 4

  /** `align_up` to 8 in 32-bit `size_t` arithmetic. */
  function AlignUp(n: nat): (m: nat)
    requires n < U32
  {
    var wrapped := (n + 7) % U32;
    wrapped - wrapped % 8
  }

  function Asked(n: nat): nat {
    if n == 0 then 1 else n
  }

  /** The block size malloc looks for, as the machine computes it. */
  function Need(n: nat): nat
    requires n < U32
  {
    AlignUp((Asked(n) + HEADER) % U32)
  }

  /** The machine's test for room above `brk`; the sum is a 32-bit one. */
  predicate RoomAbove(brk: nat, need: nat) {
    (brk + need) % U32 <= HEAP_SIZE
  }

  /** The block a request really takes: header and payload rounded up to a multiple of 8. */
  function Footprint(n: nat): (m: nat)
    ensures Asked(n) + HEADER <= m < Asked(n) + HEADER + 8 && m % 8 == 0
  {
    (Asked(n) + HEADER + 7) / 8 * 8
  }

  predicate NoWrap(brk: nat, n: nat) {
    brk + Footprint(n) < U32
  }

  lemma NeedIsFootprint(n: nat)
    requires n < U32
    ensures Footprint(n) < U32 ==> Need(n) == Footprint(n)
    ensures Footprint(n) >= U32 ==> Need(n) <= 8
  {
    var a := Asked(n) + HEADER;
    if a + 7 < U32 {
    } else if a < U32 {
      assert (a + 7) % U32 == a + 7 - U32;
    } else {
      assert a % U32 == a - U32;
    }
  }

  /** malloc takes a block that holds the request, and takes it from above `brk` only when it
      lies inside the heap, exactly when neither 32-bit sum wraps. */
  lemma WrapExact(brk: nat, n: nat)
    requires n < U32 && brk <= HEAP_SIZE && brk % 8 == 0
    ensures NoWrap(brk, n) <==>
            && Asked(n) + HEADER <= Need(n)
            && (RoomAbove(brk, Need(n)) ==> brk + Need(n) <= HEAP_SIZE)
  {
    NeedIsFootprint(n);
    if Footprint(n) < U32 <= brk + Footprint(n) {
      assert (brk + Need(n)) % U32 == brk + Need(n) - U32;
    }
    if Footprint(n) >= U32 && Need(n) == 8 && Asked(n) == 4 { assert false; }
  }

  lemma NeedFits(brk: nat, n: nat)
    requires n < U32 && brk <= HEAP_SIZE && brk % 8 == 0 && NoWrap(brk, n)
    ensures n + HEADER <= Need(n) && Need(n) % 8 == 0
    ensures RoomAbove(brk, Need(n)) ==> brk + Need(n) <= HEAP_SIZE
  {
    NeedIsFootprint(n);
    WrapExact(brk, n);
  }

  function Without(s: seq<nat>, k: nat): seq<nat>
    requires k < |s|
  {
    s[..k] + s[k + 1..]
  }

  predicate Distinct(s: seq<nat>) {
    forall i, j :: 0 <= i < j < |s| ==> s[i] != s[j]
  }

  lemma RemoveOne(s: seq<nat>, k: nat)
    requires Distinct(s) && k < |s|
    ensures Distinct(Without(s, k))
    ensures forall x :: x in Without(s, k) <==> x in s && x != s[k]
  {
    var rest := Without(s, k);
    assert forall i :: 0 <= i < |rest| ==> rest[i] == s[if i < k then i else i + 1];
    forall x | x in s && x != s[k]
      ensures x in rest
    {
      var j :| 0 <= j < |s| && s[j] == x;
      assert rest[if j < k then j else j - 1] == x;
    }
  }

  /** Blocks keep their order, and a block has room for a header and a link. */
  predicate Before(starts: seq<nat>, i: nat, j: nat) {
    i < j < |starts| ==> starts[i] + 8 <= starts[j]
  }

  predicate Aligned(starts: seq<nat>, i: nat) {
    i < |starts| ==> starts[i] % 8 == 0
  }

  /** starts[id] is where block id begins; the last entry is `brk`. */
  ghost predicate Tiled(starts: seq<nat>) {
    && |starts| > 0 && starts[0] == 0
    && (forall i: nat, j: nat :: Before(starts, i, j))
    && (forall i: nat :: Aligned(starts, i))
  }

  predicate IsBlock(starts: seq<nat>, id: nat) {
    id + 1 < |starts|
  }

  ghost function Size(starts: seq<nat>, id: nat): nat
    requires Tiled(starts) && IsBlock(starts, id)
  {
    assert Before(starts, id, id + 1);
    starts[id + 1] - starts[id]
  }

  function Last(starts: seq<nat>): nat
    requires |starts| > 0
  {
    starts[|starts| - 1]
  }

  /** Blocks are numbered in the order in which they were cut from the heap, and every block is either
      live or on the free list. `AllocatorHeap` has the C code, whose header words and list links are
      bytes of the heap itself. */
  datatype Pool = Pool(starts: seq<nat>, free: seq<nat>, live: map<nat, nat>) {

    /** A number stands for a block when it is live or on the free list, never both; a live
        block holds its request beside the header. */
    ghost predicate Accounted(id: nat)
      requires Tiled(starts)
    {
      && (IsBlock(starts, id) <==> id in live || id in free)
      && (id in live ==> id !in free && live[id] + HEADER <= Size(starts, id))
    }

    /** `[0, brk)` is tiled by blocks, each live or on the free list exactly once. */
    ghost predicate Inv() {
      && Tiled(starts) && Last(starts) <= HEAP_SIZE
      && Distinct(free)
      && (forall id: nat :: Accounted(id))
    }

    function Brk(): nat
      requires |starts| > 0
    {
      Last(starts)
    }

    /** The pool once the block at position k of the free list serves a request of n bytes. */
    function Take(k: nat, n: nat): Pool
      requires k < |free|
    {
      Pool(starts, Without(free, k), live[free[k] := n])
    }

    /** The pool once a new block of `need` bytes serves a request of n bytes. */
    function Grow(need: nat, n: nat): Pool
      requires |starts| > 0
    {
      Pool(starts + [Last(starts) + need], free, live[|starts| - 1 := n])
    }

    ghost function Malloc(n: nat): (Pool, Option<nat>)
      requires Inv() && n < U32
    {
      FreeAreBlocks(this);
      var k := FirstFit(starts, free, Need(n), 0);
      if k < |free| then (Take(k, n), Some(free[k]))
      else if RoomAbove(Brk(), Need(n)) then (Grow(Need(n), n), Some(|starts| - 1))
      else (this, None)
    }

    function Free(id: nat): Pool {
      Pool(starts, [id] + free, live - {id})
    }

    ghost function Realloc(p: Option<nat>, n: nat): (Pool, Option<nat>)
      requires Inv() && n < U32
      requires p.Some? ==> p.value in live
    {
      if p.None? then Malloc(n)
      else if n == 0 then (Free(p.value), None)
      else if assert Accounted(p.value); n <= Size(starts, p.value) - HEADER then
        (Pool(starts, free, live[p.value := n]), p)
      else
        var (grown, q) := Malloc(n);
        if q.None? then (this, None) else (grown.Free(p.value), q)
    }
  }

  /** Position of the first free block from k on that is large enough, or |free|. */
  ghost function FirstFit(starts: seq<nat>, free: seq<nat>, need: nat, k: nat): (r: nat)
    requires Tiled(starts) && k <= |free|
    requires forall id :: id in free ==> IsBlock(starts, id)
    ensures k <= r <= |free|
    ensures r < |free| ==> Size(starts, free[r]) >= need
    ensures forall i :: k <= i < r ==> Size(starts, free[i]) < need
    decreases |free| - k
  {
    if k == |free| || Size(starts, free[k]) >= need then k else FirstFit(starts, free, need, k + 1)
  }

  const EMPTY := Pool([0], [], map[])

  lemma FreeAreBlocks(p: Pool)
    requires p.Inv()
    ensures forall id :: id in p.free ==> IsBlock(p.starts, id) && id !in p.live
  {
    forall id | id in p.free
      ensures IsBlock(p.starts, id) && id !in p.live
    {
      assert p.Accounted(id);
    }
  }

  lemma LiveIsBlock(p: Pool, id: nat)
    requires p.Inv() && id in p.live
    ensures IsBlock(p.starts, id) && id !in p.free && p.live[id] + HEADER <= Size(p.starts, id)
    ensures p.starts[id + 1] <= HEAP_SIZE
  {
    assert p.Accounted(id) && Before(p.starts, id + 1, |p.starts| - 1);
  }

  lemma LiveAreBlocks(p: Pool)
    requires p.Inv()
    ensures forall id :: id in p.live ==> IsBlock(p.starts, id)
  {
    forall id | id in p.live
      ensures IsBlock(p.starts, id)
    {
      LiveIsBlock(p, id);
    }
  }

  lemma ReuseInv(p: Pool, k: nat, n: nat)
    requires p.Inv() && k < |p.free| && IsBlock(p.starts, p.free[k])
    requires n + HEADER <= Size(p.starts, p.free[k])
    ensures p.Take(k, n).Inv()
  {
    RemoveOne(p.free, k);
    forall id: nat
      ensures p.Take(k, n).Accounted(id)
    {
      assert p.Accounted(id);
    }
  }

  lemma GrowTiled(starts: seq<nat>, need: nat)
    requires Tiled(starts) && need % 8 == 0 && need >= 8
    ensures Tiled(starts + [Last(starts) + need])
    ensures forall id: nat :: IsBlock(starts, id) ==>
              Size(starts + [Last(starts) + need], id) == Size(starts, id)
  {
    var grown := starts + [Last(starts) + need];
    forall i: nat, j: nat
      ensures Before(grown, i, j)
    {
      assert Before(starts, i, j) && Before(starts, i, |starts| - 1);
    }
    forall i: nat
      ensures Aligned(grown, i)
    {
      assert Aligned(starts, i) && Aligned(starts, |starts| - 1);
    }
  }

  lemma GrowInv(p: Pool, need: nat, n: nat)
    requires p.Inv() && need % 8 == 0 && need >= 8 && n + HEADER <= need && p.Brk() + need <= HEAP_SIZE
    ensures p.Grow(need, n).Inv()
  {
    GrowTiled(p.starts, need);
    forall id: nat
      ensures p.Grow(need, n).Accounted(id)
    {
      assert p.Accounted(id);
    }
  }

  lemma MallocInv(p: Pool, n: nat)
    requires p.Inv() && n < U32 && NoWrap(p.Brk(), n)
    ensures p.Malloc(n).0.Inv()
    ensures 8 <= Need(n) < U32 && (RoomAbove(p.Brk(), Need(n)) ==> p.Brk() + Need(n) <= HEAP_SIZE)
    ensures match p.Malloc(n).1
            case None => p.Malloc(n).0 == p
            case Some(id) => id !in p.live && p.Malloc(n).0.live == p.live[id := n]
  {
    assert Aligned(p.starts, |p.starts| - 1);
    NeedFits(p.Brk(), n);
    FreeAreBlocks(p);
    var k := FirstFit(p.starts, p.free, Need(n), 0);
    if k < |p.free| {
      ReuseInv(p, k, n);
    } else if RoomAbove(p.Brk(), Need(n)) {
      GrowInv(p, Need(n), n);
      assert p.Accounted(|p.starts| - 1);
    }
  }

  // When malloc and realloc succeed, and with which block.

  /** The block at position k of the free list holds a request of n bytes with its header. */
  ghost predicate Fits(p: Pool, n: nat, k: nat) {
    && k < |p.free| && IsBlock(p.starts, p.free[k])
    && p.starts[p.free[k]] + Footprint(n) <= p.starts[p.free[k] + 1]
  }

  ghost predicate FirstToFit(p: Pool, n: nat, k: nat) {
    Fits(p, n, k) && forall j: nat :: j < k ==> !Fits(p, n, j)
  }

  ghost predicate NoneFits(p: Pool, n: nat) {
    forall k: nat :: !Fits(p, n, k)
  }

  /** Block b holds n bytes beside its header. */
  predicate RoomIn(p: Pool, b: nat, n: nat) {
    IsBlock(p.starts, b) && p.starts[b] + HEADER + n <= p.starts[b + 1]
  }

  /** Nothing free is large enough, and the heap has no room for another block. */
  ghost predicate Exhausted(p: Pool, n: nat) {
    |p.starts| > 0 && NoneFits(p, n) && p.Brk() + Footprint(n) > HEAP_SIZE
  }

  lemma SearchFinds(p: Pool, n: nat)
    requires p.Inv() && n < U32 && NoWrap(p.Brk(), n)
    ensures forall id :: id in p.free ==> IsBlock(p.starts, id)
    ensures var k := FirstFit(p.starts, p.free, Need(n), 0);
            if k < |p.free| then FirstToFit(p, n, k) else NoneFits(p, n)
    ensures RoomAbove(p.Brk(), Need(n)) <==> p.Brk() + Footprint(n) <= HEAP_SIZE
  {
    FreeAreBlocks(p);
    NeedIsFootprint(n);
  }

  /** Malloc takes the first free block that is large enough; if there is none it cuts one of exactly the
      size it needs at `brk`; and it fails, changing nothing, only when the heap has no room for that. */
  lemma MallocOutcome(p: Pool, n: nat, k: nat)
    requires p.Inv() && n < U32 && NoWrap(p.Brk(), n)
    ensures FirstToFit(p, n, k) ==>
              p.Malloc(n) == (Pool(p.starts, p.free[..k] + p.free[k + 1..], p.live[p.free[k] := n]), Some(p.free[k]))
    ensures NoneFits(p, n) && p.Brk() + Footprint(n) <= HEAP_SIZE ==>
              p.Malloc(n) == (Pool(p.starts + [p.Brk() + Footprint(n)], p.free, p.live[|p.starts| - 1 := n]),
                              Some(|p.starts| - 1))
    ensures Exhausted(p, n) ==> p.Malloc(n) == (p, None)
    ensures NoneFits(p, n) || exists j: nat :: FirstToFit(p, n, j)
  {
    SearchFinds(p, n);
    NeedIsFootprint(n);
    var j := FirstFit(p.starts, p.free, Need(n), 0);
    if FirstToFit(p, n, k) {
      assert j < |p.free| && !(j < k) && !(k < j);
    }
  }

  /** Realloc keeps a block in place exactly when it already holds n bytes, fails exactly when it does not
      and malloc would fail, and otherwise frees the old block for malloc's. */
  lemma ReallocOutcome(p: Pool, b: nat, n: nat)
    requires p.Inv() && 0 < n < U32 && NoWrap(p.Brk(), n) && b in p.live
    ensures var (q, r) := p.Realloc(Some(b), n);
            && (r == Some(b) <==> RoomIn(p, b, n))
            && (r == None <==> !RoomIn(p, b, n) && Exhausted(p, n))
            && (r == Some(b) ==> q == Pool(p.starts, p.free, p.live[b := n]))
            && (r == None ==> q == p)
            && (r != None && r != Some(b) ==>
                  var m := p.Malloc(n);
                  r == m.1 && q == Pool(m.0.starts, [b] + m.0.free, p.live[r.value := n] - {b}))
  {
    LiveIsBlock(p, b);
    if n + HEADER > Size(p.starts, b) {
      MallocInv(p, n);
      SearchFinds(p, n);
      MallocOutcome(p, n, FirstFit(p.starts, p.free, Need(n), 0));
    }
  }

  /** What realloc needs of malloc's answer: the old block is as it was and the new one is larger. */
  lemma GrownSizes(p: Pool, n: nat, id: nat)
    requires p.Inv() && n < U32 && NoWrap(p.Brk(), n) && id in p.live && IsBlock(p.starts, id)
    requires p.Malloc(n).1.Some? && n > Size(p.starts, id) - HEADER
    ensures var (q, r) := p.Malloc(n);
            && r.value != id && IsBlock(q.starts, id) && IsBlock(q.starts, r.value) && Tiled(q.starts)
            && q.starts[id] == p.starts[id] && Size(q.starts, id) == Size(p.starts, id) <= Size(q.starts, r.value)
  {
    MallocInv(p, n);
    LiveIsBlock(p.Malloc(n).0, p.Malloc(n).1.value);
  }

  lemma FreeInv(p: Pool, id: nat)
    requires p.Inv() && id in p.live
    ensures p.Free(id).Inv()
  {
    assert p.Accounted(id);
    var q := p.Free(id);
    forall i: nat
      ensures q.Accounted(i)
    {
      assert p.Accounted(i);
      assert i in q.free <==> i == id || i in p.free;
    }
  }

  lemma Unpushed(id: nat, s: seq<nat>)
    ensures ([id] + s)[..0] + ([id] + s)[1..] == s
  {
  }

  lemma Reassigned(m: map<nat, nat>, id: nat, n: nat)
    ensures (m - {id})[id := n] == m[id := n]
  {
  }

  /** The block freed last is the first one tried: asking for no more than it holds gives it back and
      leaves the rest of the free list as it was before. */
  lemma FreeThenMalloc(p: Pool, id: nat, n: nat)
    requires p.Inv() && id in p.live && n < U32 && NoWrap(p.Brk(), n)
    requires IsBlock(p.starts, id) && p.starts[id] + Footprint(n) <= p.starts[id + 1]
    ensures p.Free(id).Inv()
    ensures p.Free(id).Malloc(n) == (Pool(p.starts, p.free, p.live[id := n]), Some(id))
  {
    FreeInv(p, id);
    assert FirstToFit(p.Free(id), n, 0);
    MallocOutcome(p.Free(id), n, 0);
    Unpushed(id, p.free);
    Reassigned(p.live, id, n);
  }

  lemma ResizeInv(p: Pool, id: nat, n: nat)
    requires p.Inv() && id in p.live && IsBlock(p.starts, id) && n + HEADER <= Size(p.starts, id)
    ensures Pool(p.starts, p.free, p.live[id := n]).Inv()
  {
    var q := Pool(p.starts, p.free, p.live[id := n]);
    forall i: nat
      ensures q.Accounted(i)
    {
      assert p.Accounted(i);
    }
  }

  lemma ReallocInv(p: Pool, b: Option<nat>, n: nat)
    requires p.Inv() && n < U32 && NoWrap(p.Brk(), n)
    requires b.Some? ==> b.value in p.live
    ensures p.Realloc(b, n).0.Inv()
  {
    if b.None? {
      MallocInv(p, n);
    } else if n == 0 {
      FreeInv(p, b.value);
    } else {
      assert p.Accounted(b.value);
      if n <= Size(p.starts, b.value) - HEADER {
        ResizeInv(p, b.value, n);
      } else {
        MallocInv(p, n);
        var (grown, q) := p.Malloc(n);
        if q.Some? {
          FreeInv(grown, b.value);
        }
      }
    }
  }

  /** Two live payloads never share a byte, and each holds at least what was asked for. */
  lemma LivePayloadsDisjoint(p: Pool, a: nat, b: nat)
    requires p.Inv() && a in p.live && b in p.live && a < b
    ensures b + 1 < |p.starts|
    ensures p.starts[a] + HEADER + p.live[a] <= p.starts[b]
    ensures p.starts[b] + HEADER + p.live[b] <= p.Brk()
  {
    assert p.Accounted(a) && p.Accounted(b);
    assert Before(p.starts, a + 1, b) && Before(p.starts, b + 1, |p.starts| - 1);
  }

  /** Bytes in the first n blocks whose number is in ids. */
  ghost function ByteCount(starts: seq<nat>, ids: set<nat>, n: nat): (b: nat)
    requires Tiled(starts) && n < |starts|
  {
    if n == 0 then 0
    else ByteCount(starts, ids, n - 1) + if n - 1 in ids then Size(starts, n - 1) else 0
  }

  lemma {:induction false} Conservation(p: Pool, n: nat)
    requires p.Inv() && n < |p.starts|
    ensures ByteCount(p.starts, p.live.Keys, n) + ByteCount(p.starts, (set id | id in p.free), n) == p.starts[n]
  {
    if n > 0 {
      Conservation(p, n - 1);
      assert p.Accounted(n - 1);
    }
  }

  /** Calls on the allocator; a pointer argument is named by its block. */
  datatype Call = Malloc(n: nat) | Free(id: nat) | Realloc(block: Option<nat>, n: nat)

  ghost predicate Legal(p: Pool, c: Call) {
    && p.Inv()
    && match c
       case Malloc(n) => n < U32 && NoWrap(p.Brk(), n)
       case Free(id) => id in p.live
       case Realloc(id, n) => n < U32 && NoWrap(p.Brk(), n) && (id.Some? ==> id.value in p.live)
  }

  ghost function Step(p: Pool, c: Call): Pool
    requires Legal(p, c)
  {
    match c
    case Malloc(n) => p.Malloc(n).0
    case Free(id) => p.Free(id)
    case Realloc(id, n) => p.Realloc(id, n).0
  }

  /** `last` is reached from `p` by these calls, each legal where it is made. */
  ghost predicate Run(p: Pool, calls: seq<Call>, last: Pool)
    decreases |calls|
  {
    if calls == [] then p == last
    else Legal(p, calls[0]) && Run(Step(p, calls[0]), calls[1..], last)
  }

  lemma {:induction false} RunInv(p: Pool, calls: seq<Call>, last: Pool)
    requires p.Inv() && Run(p, calls, last)
    ensures last.Inv()
    decreases |calls|
  {
    if calls != [] {
      match calls[0] {
        case Malloc(n) => MallocInv(p, n);
        case Free(id) => FreeInv(p, id);
        case Realloc(id, n) => ReallocInv(p, id, n);
      }
      RunInv(Step(p, calls[0]), calls[1..], last);
    }
  }

  /** Some sequence of legal calls leads here from the empty heap. */
  ghost predicate Reachable(p: Pool) {
    exists calls: seq<Call> :: Run(EMPTY, calls, p)
  }

  /** After every run from the empty heap: the tiling invariant holds, live payloads are
      disjoint and large enough, and no byte below `brk` is lost. */
  lemma EveryRun(last: Pool)
    requires Reachable(last)
    ensures last.Inv()
    ensures forall a, b :: a in last.live && b in last.live && a < b ==>
              b < |last.starts| && last.starts[a] + HEADER + last.live[a] <= last.starts[b]
    ensures ByteCount(last.starts, last.live.Keys, |last.starts| - 1)
            + ByteCount(last.starts, (set id | id in last.free), |last.starts| - 1) == last.Brk() <= HEAP_SIZE
  {
    var calls: seq<Call> :| Run(EMPTY, calls, last);
    RunInv(EMPTY, calls, last);
    forall a, b | a in last.live && b in last.live && a < b
      ensures b < |last.starts| && last.starts[a] + HEADER + last.live[a] <= last.starts[b]
    {
      LivePayloadsDisjoint(last, a, b);
    }
    Conservation(last, |last.starts| - 1);
  }
}
