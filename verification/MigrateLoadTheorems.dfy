/** What the migrating load hands each region, and when it is all-or-nothing. */
module MigrateLoadTheorems {
  import opened Bytes
  import opened Describe
  import opened Migration
  import opened SaveStateSpec
  import opened SaveState
  import opened LoadMigrate

  ghost predicate AllConvertible(rs: seq<Region>, table: Table) {
    forall i :: 0 <= i < |rs| ==> Convertible(rs[i], DescriptorOf(rs[i], table))
  }

  /** Load callbacks that check the size and nothing else. */
  ghost predicate TakeAnyBytes(rs: seq<Region>) {
    forall i, s: seq<byte> :: 0 <= i < |rs| && |s| == rs[i].Size() ==> rs[i].accepts(s)
  }

  lemma GoodExactly(rs: seq<Region>, table: Table, buf: seq<byte>, scratch: seq<byte>, i: nat)
    requires Ready(rs, table, buf, scratch)
    requires TakeAnyBytes(rs) && i < |rs|
    ensures Good(rs, Conversions(rs, table, buf, scratch), i) <==> Convertible(rs[i], DescriptorOf(rs[i], table))
    ensures !Good(rs, Conversions(rs, table, buf, scratch), i) ==> Conversions(rs, table, buf, scratch)[i] == Stop
  {
    assert Conversions(rs, table, buf, scratch)[i] == Conversion(rs, table, buf, scratch, i);
  }

  // What a region is handed.

  /** The layouts are those of the sizes the descriptor goes between. */
  predicate Fitting(r: Region, d: Option<Descriptor>) {
    Converts(d) ==> d.value.newLayout.value.total == r.Size() && d.value.oldLayout.value.total <= d.value.oldSize
  }

  /** The region's new bytes: its own old bytes, migrated if it has layouts. */
  ghost predicate IsMigration(r: Region, d: Option<Descriptor>, slice: seq<byte>, now: seq<byte>) {
    if Converts(d) then
      var nl, ol, cb := d.value.newLayout.value, d.value.oldLayout.value, d.value.onRetype;
      ol.total <= |slice| && WellFormed(nl, ol) && CallbackFits(nl, ol, slice, cb) && now == Migrated(nl, ol, slice, cb)
    else now == slice
  }

  lemma WrittenInFront(f: Field, ol: Layout, bytes: seq<byte>, n: nat, cb: Callback)
    requires ol.total <= n <= |bytes| && (Match(f, ol).Some? ==> Fits(Match(f, ol).value, ol))
    ensures Written(f, ol, bytes[..n], cb) == Written(f, ol, bytes, cb)
  {
    if Match(f, ol).Some? {
      var o := Match(f, ol).value;
      assert bytes[..n][o.offset..o.End()] == bytes[o.offset..o.End()];
    }
  }

  lemma {:induction false} MigratedInFront(nl: Layout, ol: Layout, bytes: seq<byte>, n: nat, cb: Callback, k: nat)
    requires ol.total <= n <= |bytes| && WellFormed(nl, ol) && CallbackFits(nl, ol, bytes, cb) && k <= |nl.fields|
    ensures CallbackFits(nl, ol, bytes[..n], cb)
    ensures Walk(nl, ol, bytes[..n], cb, k) == Walk(nl, ol, bytes, cb, k)
  {
    forall i | 0 <= i < |nl.fields| && FieldOk(nl.fields[i], nl, ol)
      ensures Honest(nl.fields[i], ol, bytes[..n], cb)
    {
      WrittenInFront(nl.fields[i], ol, bytes, n, cb);
      assert Honest(nl.fields[i], ol, bytes, cb);
    }
    if k > 0 {
      MigratedInFront(nl, ol, bytes, n, cb, k - 1);
      assert FieldOk(nl.fields[k - 1], nl, ol);
      WrittenInFront(nl.fields[k - 1], ol, bytes, n, cb);
    }
  }

  /** With layouts of the right sizes a region gets the migration of its own old bytes, whatever follows
      them in the buffer and whatever is left in the scratch buffer. */
  lemma HandedItsOwn(r: Region, d: Option<Descriptor>, bytes: seq<byte>, scratch: seq<byte>)
    requires Safe(r, d, bytes) && |scratch| == SCRATCH_SIZE && Fitting(r, d) && Convertible(r, d)
    ensures Hand(r, d, bytes, scratch).Commit?
    ensures IsMigration(r, d, bytes[..SizeThen(r, d)], Hand(r, d, bytes, scratch).bytes)
  {
    if Converts(d) {
      var nl, ol, cb := d.value.newLayout.value, d.value.oldLayout.value, d.value.onRetype;
      MigratedInFront(nl, ol, bytes, d.value.oldSize, cb, |nl.fields|);
      assert Hand(r, d, bytes, scratch).bytes == Migrated(nl, ol, bytes, cb);
    }
  }

  /** What is left in the scratch buffer reaches a region exactly when its descriptor's new struct is
      smaller than the region. */
  lemma StaleExactly(r: Region, d: Option<Descriptor>, bytes: seq<byte>)
    requires Safe(r, d, bytes) && Convertible(r, d)
    ensures (forall s, t :: |s| == |t| == SCRATCH_SIZE ==> Hand(r, d, bytes, s) == Hand(r, d, bytes, t))
       <==> (Converts(d) ==> r.Size() <= d.value.newLayout.value.total)
  {
    if Converts(d) {
      var nl, ol, cb := d.value.newLayout.value, d.value.oldLayout.value, d.value.onRetype;
      var m := Migrated(nl, ol, bytes, cb);
      if r.Size() <= nl.total {
        forall s, t | |s| == |t| == SCRATCH_SIZE
          ensures Hand(r, d, bytes, s) == Hand(r, d, bytes, t)
        {
          assert (m + s[nl.total..])[..r.Size()] == m[..r.Size()] == (m + t[nl.total..])[..r.Size()];
        }
      } else {
        var s, t := Zeros(SCRATCH_SIZE), Flipped(Zeros(SCRATCH_SIZE));
        assert Hand(r, d, bytes, s).bytes[nl.total] == s[nl.total];
        assert Hand(r, d, bytes, t).bytes[nl.total] == t[nl.total];
      }
    }
  }

  /** Region i's bytes in the old buffer. */
  function OldSlice(rs: seq<Region>, table: Table, buf: seq<byte>, i: nat): (s: seq<byte>)
    requires i < |rs| && OldEnd(rs, table) <= |buf|
  {
    Rest(rs, table, buf, i)[..SizeThen(rs[i], DescriptorOf(rs[i], table))]
  }

  /** Where load callbacks check the size only, the load past its gates succeeds exactly when every
      region is convertible. */
  lemma SucceedsExactly(rs: seq<Region>, table: Table, buf: seq<byte>, scratch: seq<byte>)
    requires Ready(rs, table, buf, scratch) && TakeAnyBytes(rs)
    ensures Succeeds(rs, Conversions(rs, table, buf, scratch)) <==> AllConvertible(rs, table)
  {
    var acts := Conversions(rs, table, buf, scratch);
    SuccessIsGood(rs, acts);
    forall i | 0 <= i < |rs|
      ensures Good(rs, acts, i) <==> Convertible(rs[i], DescriptorOf(rs[i], table))
    {
      GoodExactly(rs, table, buf, scratch, i);
    }
  }

  /** And then, if the layouts have the right sizes, every region holds the migration of exactly its own
      old bytes. */
  lemma EveryRegionMigrated(rs: seq<Region>, table: Table, buf: seq<byte>, scratch: seq<byte>, c: Content, i: nat)
    requires Ready(rs, table, buf, scratch) && |c| == |rs|
    requires Succeeds(rs, Conversions(rs, table, buf, scratch))
    requires i < |rs| && Fitting(rs[i], DescriptorOf(rs[i], table))
    ensures IsMigration(rs[i], DescriptorOf(rs[i], table), OldSlice(rs, table, buf, i),
                        Walked(rs, Conversions(rs, table, buf, scratch), c)[i])
  {
    var acts := Conversions(rs, table, buf, scratch);
    SuccessCommitsAll(rs, acts, c);
    assert Good(rs, acts, i) && acts[i] == Conversion(rs, table, buf, scratch, i);
    HandedItsOwn(rs[i], DescriptorOf(rs[i], table), Rest(rs, table, buf, i), Scratch(rs, table, buf, scratch, i));
  }

  lemma {:induction false} LookupIsFirst(table: Table, name: seq<byte>, from: nat, j: nat)
    requires from <= j < |table| && Names(table[j], name) && forall i :: from <= i < j ==> !Names(table[i], name)
    ensures Lookup(table, name, from) == table[j]
    decreases j - from
  {
    if from < j {
      LookupIsFirst(table, name, from + 1, j);
    }
  }

  /** The registry a buffer was saved by has the sizes that the descriptors name, or else today's. */
  predicate SizedThen(was: seq<Region>, rs: seq<Region>, table: Table) {
    && |was| == |rs|
    && forall i :: 0 <= i < |rs| ==>
         match DescriptorOf(rs[i], table)
         case None => was[i].Size() == rs[i].Size()
         case Some(d) => was[i].Size() == d.oldSize
  }

  lemma {:induction false} SameSums(was: seq<Region>, rs: seq<Region>, table: Table, n: nat)
    requires SizedThen(was, rs, table) && n <= |rs|
    ensures OldSum(rs, table, n) == Sum(was, n)
  {
    if n > 0 {
      SameSums(was, rs, table, n - 1);
    }
  }

  /** Region i's old bytes are what the earlier registry saved for it. */
  lemma OldSliceOfSaved(was: seq<Region>, rs: seq<Region>, table: Table, hash: nat, frame: nat, saved: Content, i: nat)
    requires SizedThen(was, rs, table) && Shaped(was, saved) && i < |rs|
    ensures OldEnd(rs, table) == |Image(hash, frame, was, saved)|
    ensures OldSlice(rs, table, Image(hash, frame, was, saved), i) == saved[i]
  {
    var buf := Image(hash, frame, was, saved);
    SameSums(was, rs, table, |rs|);
    SameSums(was, rs, table, i);
    BodyLength(was, saved, |saved|);
    SliceOfImage(hash, frame, was, saved, [], i);
    assert buf + [] == buf;
    SumNext(was, i);
  }

  /** A buffer that an earlier version saved is loaded with every region migrated from what that version
      had in it. */
  lemma SavedThenMigrated(was: seq<Region>, saved: Content, hash: nat, frame: nat,
                          rs: seq<Region>, table: Table, scratch: seq<byte>, c: Content, i: nat)
    requires SizedThen(was, rs, table) && Shaped(was, saved) && |c| == |rs|
    requires Ready(rs, table, Image(hash, frame, was, saved), scratch)
    requires Succeeds(rs, Conversions(rs, table, Image(hash, frame, was, saved), scratch))
    requires i < |rs| && Fitting(rs[i], DescriptorOf(rs[i], table))
    ensures IsMigration(rs[i], DescriptorOf(rs[i], table), saved[i],
                        Walked(rs, Conversions(rs, table, Image(hash, frame, was, saved), scratch), c)[i])
  {
    OldSliceOfSaved(was, rs, table, hash, frame, saved, i);
    EveryRegionMigrated(rs, table, Image(hash, frame, was, saved), scratch, c, i);
  }

  // Atomicity.

  /** A region that cannot be converted, or whose load callback refuses what it is handed. */
  predicate Fails(rs: seq<Region>, table: Table, buf: seq<byte>, scratch: seq<byte>, i: nat)
    requires Ready(rs, table, buf, scratch) && i < |rs|
  {
    || !Convertible(rs[i], DescriptorOf(rs[i], table))
    || !rs[i].accepts(Conversion(rs, table, buf, scratch, i).bytes)
  }

  lemma BadIsFailure(rs: seq<Region>, table: Table, buf: seq<byte>, scratch: seq<byte>, i: nat)
    requires Ready(rs, table, buf, scratch) && i < |rs|
    ensures Good(rs, Conversions(rs, table, buf, scratch), i) <==> !Fails(rs, table, buf, scratch, i)
  {
    assert Conversions(rs, table, buf, scratch)[i] == Conversion(rs, table, buf, scratch, i);
  }

  lemma ConversionsSized(rs: seq<Region>, table: Table, buf: seq<byte>, scratch: seq<byte>)
    requires Ready(rs, table, buf, scratch)
    ensures RightSized(rs, Conversions(rs, table, buf, scratch))
  {
    var acts := Conversions(rs, table, buf, scratch);
    forall i | 0 <= i < |rs| && acts[i].Commit?
      ensures |acts[i].bytes| == rs[i].Size()
    {
      assert acts[i] == Conversion(rs, table, buf, scratch, i);
    }
  }

  /** How many regions have been handed anything when region b fails. */
  function Touched(rs: seq<Region>, table: Table, b: nat): (n: nat)
    requires b < |rs|
    ensures n <= |rs|
  {
    if Convertible(rs[b], DescriptorOf(rs[b], table)) then b + 1 else b
  }

  lemma TouchedIsCommitted(rs: seq<Region>, table: Table, buf: seq<byte>, scratch: seq<byte>, b: nat)
    requires Ready(rs, table, buf, scratch) && b < |rs|
    ensures Touched(rs, table, b) == if Conversions(rs, table, buf, scratch)[b].Commit? then b + 1 else b
  {
    assert Conversions(rs, table, buf, scratch)[b] == Conversion(rs, table, buf, scratch, b);
  }

  /** The promised atomicity, for every earlier state of the regions, holds exactly when no region fails or
      the regions handed anything up to the first that does, b, have no bytes. */
  lemma AllOrNothingExactly(rs: seq<Region>, table: Table, buf: seq<byte>, scratch: seq<byte>, b: nat)
    requires Ready(rs, table, buf, scratch) && b <= |rs|
    requires b < |rs| ==> Fails(rs, table, buf, scratch, b)
    requires forall i :: 0 <= i < b ==> !Fails(rs, table, buf, scratch, i)
    ensures AllOrNothing(rs, Conversions(rs, table, buf, scratch)) <==> b == |rs| || Sum(rs, Touched(rs, table, b)) == 0
  {
    var acts := Conversions(rs, table, buf, scratch);
    assert forall i :: 0 <= i < b ==> Good(rs, acts, i) by {
      forall i | 0 <= i < b
        ensures Good(rs, acts, i)
      {
        BadIsFailure(rs, table, buf, scratch, i);
      }
    }
    if b < |rs| {
      BadIsFailure(rs, table, buf, scratch, b);
      TouchedIsCommitted(rs, table, buf, scratch, b);
    }
    FirstBadIs(rs, acts, b);
    ConversionsSized(rs, table, buf, scratch);
    AtomicAt(rs, acts, b);
  }

  const FIRST := Region(Entry([97], 1, []), (s: seq<byte>) => s, (s: seq<byte>) => true)
  const SECOND := Region(Entry([98], 1, []), (s: seq<byte>) => s, (s: seq<byte>) => true)
  const GREW: Table := [Some(Descriptor(Some([98]), 2, None, None, NoCallback))]

  /** A well-formed buffer of a layout in which the second region was two bytes long. */
  function Grown(hash: nat): (buf: seq<byte>)
    ensures |buf| == 27
  {
    Header(hash, 0, 27) + [1, 2, 3]
  }

  lemma GrownPasses(hash: nat, own: nat)
    requires hash < U64 && hash != own
    ensures Migrates([FIRST, SECOND], own, GREW, Grown(hash))
    ensures TableSafe([FIRST, SECOND], GREW, Grown(hash))
  {
    HeaderBack(hash, 0, 27, [1, 2, 3]);
    GrownTable();
  }

  lemma GrownTable()
    ensures DescriptorOf(FIRST, GREW) == None && DescriptorOf(SECOND, GREW) == GREW[0]
    ensures OldSum([FIRST, SECOND], GREW, 1) == 1 && OldSum([FIRST, SECOND], GREW, 2) == 3
  {
    assert [97] != [98] by {
      assert [97][0] != [98][0];
    }
  }

  lemma GrownFails(hash: nat, scratch: seq<byte>, c: Content)
    requires |scratch| == SCRATCH_SIZE && |c| == 2
    requires OldEnd([FIRST, SECOND], GREW) <= 27 && TableSafe([FIRST, SECOND], GREW, Grown(hash))
    ensures var acts := Conversions([FIRST, SECOND], GREW, Grown(hash), scratch);
            !Succeeds([FIRST, SECOND], acts) && Walked([FIRST, SECOND], acts, c) == [[1], c[1]]
  {
    GrownTable();
    var rs, buf := [FIRST, SECOND], Grown(hash);
    var acts := Conversions(rs, GREW, buf, scratch);
    assert acts[0] == Conversion(rs, GREW, buf, scratch, 0) && acts[1] == Conversion(rs, GREW, buf, scratch, 1);
    assert Rest(rs, GREW, buf, 0)[..1] == [1];
    assert acts[0] == Commit([1]) && acts[1] == Stop;
    assert Good(rs, acts, 0) && !Good(rs, acts, 1);
    assert FirstBad(rs, acts, 0) == FirstBad(rs, acts, 1) == 1;
    assert Walked(rs, acts, c)[0] == AfterWalk(acts, c, 1, 0) && Walked(rs, acts, c)[1] == AfterWalk(acts, c, 1, 1);
  }

  /** Two one-byte regions, the second of which was two bytes long and has no layouts: whatever they held,
      the load fails at it after the first has been overwritten. */
  method NotAtomic(rt: Runtime, scratch: array<byte>) returns (ok: bool)
    requires rt.Valid() && rt.initialized && rt.regions == [FIRST, SECOND] && scratch.Length == SCRATCH_SIZE
    modifies rt, scratch
    ensures !ok && rt.content == [[1], old(rt.content)[1]]
  {
    var hash := if rt.layoutHash == 0 then 1 else 0;
    ghost var c := rt.content;
    GrownPasses(hash, rt.layoutHash);
    GrownFails(hash, scratch[..], c);
    ok := Load(rt, GREW, Grown(hash), scratch);
  }
}
