/** Loading a buffer that was saved under another layout. */
module LoadMigrate {
  import opened Bytes
  import opened Migration
  import opened SaveStateSpec
  import opened SaveState

  const SCRATCH_SIZE: nat := 4096

  /** `migrate_region_t`; `None` is NULL. */
  datatype Descriptor = Descriptor(name: Option<seq<byte>>, oldSize: nat, oldLayout: Option<Layout>,
                                   newLayout: Option<Layout>, onRetype: Callback) {
    predicate HasLayouts() { oldLayout.Some? && newLayout.Some? }
  }

  type Table = seq<Option<Descriptor>>

  predicate Names(d: Option<Descriptor>, name: seq<byte>) {
    d.Some? && d.value.name == Some(name)
  }

  /** The first descriptor of that name. */
  function Lookup(table: Table, name: seq<byte>, from: nat): (d: Option<Descriptor>)
    requires from <= |table|
    ensures d.Some? ==> d in table && d.value.name == Some(name)
    ensures d.None? ==> forall i :: from <= i < |table| ==> !Names(table[i], name)
    decreases |table| - from
  {
    if from == |table| then None
    else if Names(table[from], name) then table[from]
    else Lookup(table, name, from + 1)
  }

  function DescriptorOf(r: Region, table: Table): Option<Descriptor> {
    Lookup(table, r.entry.name, 0)
  }

  /** The region's size in the old buffer. */
  function OldSize(r: Region, table: Table): nat {
    var d := DescriptorOf(r, table);
    if d.Some? then d.value.oldSize else r.Size()
  }

  function OldSum(rs: seq<Region>, table: Table, n: nat): nat
    requires n <= |rs|
  {
    if n == 0 then 0 else OldSum(rs, table, n - 1) + OldSize(rs[n - 1], table)
  }

  lemma {:induction false} OldSumGrows(rs: seq<Region>, table: Table, m: nat, n: nat)
    requires m <= n <= |rs|
    ensures OldSum(rs, table, m) <= OldSum(rs, table, n)
  {
    if m < n {
      OldSumGrows(rs, table, m, n - 1);
    }
  }

  function OldEnd(rs: seq<Region>, table: Table): nat {
    HEADER_SIZE + OldSum(rs, table, |rs|)
  }

  /** The old buffer from region i's bytes on. */
  function Rest(rs: seq<Region>, table: Table, buf: seq<byte>, i: nat): (s: seq<byte>)
    requires i < |rs| && OldEnd(rs, table) <= |buf|
    ensures |s| >= OldSize(rs[i], table)
  {
    OldSumGrows(rs, table, i + 1, |rs|);
    buf[HEADER_SIZE + OldSum(rs, table, i)..]
  }

  function SizeThen(r: Region, d: Option<Descriptor>): nat {
    if d.Some? then d.value.oldSize else r.Size()
  }

  predicate Converts(d: Option<Descriptor>) {
    d.Some? && d.value.HasLayouts()
  }

  /** What keeps one region's turn inside the two buffers: the layouts' sizes, field ends that do not
      wrap, and a callback that fills the field it is given. */
  predicate Safe(r: Region, d: Option<Descriptor>, bytes: seq<byte>) {
    && SizeThen(r, d) <= |bytes|
    && (Converts(d) && r.Size() <= SCRATCH_SIZE ==>
          var nl, ol := d.value.newLayout.value, d.value.oldLayout.value;
          && nl.total <= SCRATCH_SIZE && ol.total <= |bytes| && ChecksSound(nl) && ChecksSound(ol)
          && CallbackFits(nl, ol, bytes, d.value.onRetype))
  }

  predicate TableSafe(rs: seq<Region>, table: Table, buf: seq<byte>)
    requires OldEnd(rs, table) <= |buf|
  {
    forall i :: 0 <= i < |rs| ==> Safe(rs[i], DescriptorOf(rs[i], table), Rest(rs, table, buf, i))
  }

  predicate Ready(rs: seq<Region>, table: Table, buf: seq<byte>, scratch: seq<byte>) {
    OldEnd(rs, table) <= |buf| && TableSafe(rs, table, buf) && |scratch| == SCRATCH_SIZE
  }

  /** A region whose conversion cannot fail: sound layouts within the scratch buffer, or no layouts and
      the old size. */
  predicate Convertible(r: Region, d: Option<Descriptor>) {
    if Converts(d) then r.Size() <= SCRATCH_SIZE && WellFormed(d.value.newLayout.value, d.value.oldLayout.value)
    else SizeThen(r, d) == r.Size()
  }

  /** The scratch buffer when one region has had its turn. It is never cleared past the new struct. */
  function Filled(r: Region, d: Option<Descriptor>, bytes: seq<byte>, scratch: seq<byte>): (s: seq<byte>)
    requires Safe(r, d, bytes) && |scratch| == SCRATCH_SIZE
    ensures |s| == SCRATCH_SIZE
  {
    if Converts(d) && Convertible(r, d) then
      var nl, ol := d.value.newLayout.value, d.value.oldLayout.value;
      Migrated(nl, ol, bytes, d.value.onRetype) + scratch[nl.total..]
    else scratch
  }

  /** What the load does with one region, given the old buffer from its bytes on and the scratch. */
  function Hand(r: Region, d: Option<Descriptor>, bytes: seq<byte>, scratch: seq<byte>): (a: Action)
    requires Safe(r, d, bytes) && |scratch| == SCRATCH_SIZE
    ensures a.Commit? ==> |a.bytes| == r.Size()
  {
    if !Convertible(r, d) then Stop
    else Commit((if Converts(d) then Filled(r, d, bytes, scratch) else bytes)[..r.Size()])
  }

  /** The scratch buffer after n regions. */
  function Scratch(rs: seq<Region>, table: Table, buf: seq<byte>, scratch: seq<byte>, n: nat): (s: seq<byte>)
    requires Ready(rs, table, buf, scratch) && n <= |rs|
    ensures |s| == SCRATCH_SIZE
  {
    if n == 0 then scratch
    else
      Filled(rs[n - 1], DescriptorOf(rs[n - 1], table), Rest(rs, table, buf, n - 1),
             Scratch(rs, table, buf, scratch, n - 1))
  }

  function Conversion(rs: seq<Region>, table: Table, buf: seq<byte>, scratch: seq<byte>, i: nat): Action
    requires Ready(rs, table, buf, scratch) && i < |rs|
  {
    Hand(rs[i], DescriptorOf(rs[i], table), Rest(rs, table, buf, i), Scratch(rs, table, buf, scratch, i))
  }

  function Conversions(rs: seq<Region>, table: Table, buf: seq<byte>, scratch: seq<byte>): (acts: seq<Action>)
    requires Ready(rs, table, buf, scratch)
    ensures |acts| == |rs| && forall i :: 0 <= i < |rs| ==> acts[i] == Conversion(rs, table, buf, scratch, i)
  {
    seq(|rs|, i requires 0 <= i < |rs| => Conversion(rs, table, buf, scratch, i))
  }

  /** The scratch before each region's turn and after the last. */
  function Scratches(rs: seq<Region>, table: Table, buf: seq<byte>, scratch: seq<byte>): (sc: seq<seq<byte>>)
    requires Ready(rs, table, buf, scratch)
    ensures |sc| == |rs| + 1 && forall i :: 0 <= i <= |rs| ==> sc[i] == Scratch(rs, table, buf, scratch, i)
  {
    seq(|rs| + 1, i requires 0 <= i <= |rs| => Scratch(rs, table, buf, scratch, i))
  }

  predicate HeaderOk(buf: seq<byte>) {
    |buf| >= HEADER_SIZE && MagicOf(buf) == MAGIC && VersionOf(buf) == VERSION && TotalOf(buf) <= |buf|
  }

  /** What passes is a header of this magic and version, with any layout, whose size is that of the buffer
      or less. */
  lemma HeaderOkExactly(buf: seq<byte>)
    ensures HeaderOk(buf) <==> exists hash: nat, frame: nat, total: nat ::
                                 total <= |buf| && HeaderAt(buf, hash, frame, total)
  {
    if |buf| >= 24 {
      MagicBytes(buf);
      if HeaderOk(buf) {
        assert HeaderAt(buf, HashOf(buf), FrameOf(buf), TotalOf(buf));
      }
    }
  }

  /** Phase 2: the old buffer covers every region. */
  predicate Covers(rs: seq<Region>, table: Table, total: nat) {
    rs == [] || OldEnd(rs, table) <= total
  }

  method FindDescriptor(table: Table, name: seq<byte>) returns (d: Option<Descriptor>)
    ensures d == Lookup(table, name, 0)
  {
    for i := 0 to |table|
      invariant Lookup(table, name, 0) == Lookup(table, name, i)
    {
      if table[i].None? || table[i].value.name.None? {
        continue;
      }
      if table[i].value.name.value == name {
        return table[i];
      }
    }
    d := None;
  }

  /** The first loop: sizes only. */
  method CheckSizes(rt: Runtime, table: Table, total: nat) returns (ok: bool)
    ensures ok == Covers(rt.regions, table, total)
  {
    var p := HEADER_SIZE;
    for i := 0 to |rt.regions|
      invariant p == HEADER_SIZE + OldSum(rt.regions, table, i)
      invariant i > 0 ==> p <= total
    {
      var d := FindDescriptor(table, rt.regions[i].entry.name);
      var oldSize := if d.Some? then d.value.oldSize else rt.regions[i].Size();
      if p + oldSize > total {
        OldSumGrows(rt.regions, table, i + 1, |rt.regions|);
        return false;
      }
      p := p + oldSize;
    }
    ok := true;
  }

  ghost predicate Does(r: Region, d: Option<Descriptor>, bytes: seq<byte>, act: Action,
                       was: seq<byte>, now: seq<byte>) {
    |was| == SCRATCH_SIZE && Safe(r, d, bytes) && act == Hand(r, d, bytes, was) && now == Filled(r, d, bytes, was)
  }

  /** Region i's turn, its old bytes, and the scratch before and after it. */
  ghost predicate At(rs: seq<Region>, table: Table, buf: seq<byte>, acts: seq<Action>, sc: seq<seq<byte>>, i: nat)
    requires i < |rs| == |acts| && |sc| == |rs| + 1
  {
    var d, p := DescriptorOf(rs[i], table), HEADER_SIZE + OldSum(rs, table, i);
    && p + SizeThen(rs[i], d) == HEADER_SIZE + OldSum(rs, table, i + 1) && p <= |buf|
    && Does(rs[i], d, buf[p..], acts[i], sc[i], sc[i + 1])
  }

  ghost predicate AllAt(rs: seq<Region>, table: Table, buf: seq<byte>, acts: seq<Action>, sc: seq<seq<byte>>) {
    |acts| == |rs| && |sc| == |rs| + 1 && forall i :: 0 <= i < |rs| ==> At(rs, table, buf, acts, sc, i)
  }

  /** The load callback has been reached exactly when the region is convertible: then the region's bytes
      are replaced and its own check decides; otherwise the turn has failed and changed nothing. */
  ghost predicate Handed(r: Region, d: Option<Descriptor>, i: nat, act: Action, was: Content, now: Content, ok: bool)
    requires i < |was|
  {
    if Convertible(r, d) then act.Commit? && now == was[i := act.bytes] && ok == r.accepts(act.bytes)
    else now == was && !ok
  }

  /** The migrating half of a turn: the new struct is made in the scratch buffer and handed over. */
  method ConvertNext(rt: Runtime, i: nat, d: Option<Descriptor>, bytes: seq<byte>, scratch: array<byte>,
                     ghost acts: seq<Action>)
      returns (ok: bool)
    requires i < |rt.regions| == |acts| && Shaped(rt.regions, rt.content) && scratch.Length == SCRATCH_SIZE
    requires Converts(d) && Safe(rt.regions[i], d, bytes) && acts[i] == Hand(rt.regions[i], d, bytes, scratch[..])
    modifies rt`content, scratch
    ensures Shaped(rt.regions, rt.content)
    ensures Run(rt.regions, acts, old(rt.content), i)
         == if ok then Run(rt.regions, acts, rt.content, i + 1) else Outcome(rt.content, false)
    ensures Handed(rt.regions[i], d, i, acts[i], old(rt.content), rt.content, ok)
    ensures ok ==> scratch[..] == Filled(rt.regions[i], d, bytes, old(scratch[..]))
  {
    var r := rt.regions[i];
    if r.Size() > SCRATCH_SIZE {
      return false;
    }
    var nl, ol := d.value.newLayout.value, d.value.oldLayout.value;
    ok := MigrateRegionBytes(scratch, nl, bytes, ol, d.value.onRetype);
    if !ok {
      return;
    }
    assert scratch[..] == scratch[..nl.total] + scratch[nl.total..];
    ok := rt.LoadNext(i, scratch[..][..r.Size()], acts);
  }

  /** The loop body: find the descriptor, take the old bytes, convert them, move on. */
  method Turn(rt: Runtime, table: Table, buf: seq<byte>, i: nat, p: nat, scratch: array<byte>,
              ghost acts: seq<Action>, ghost sc: seq<seq<byte>>)
      returns (ok: bool, next: nat)
    requires i < |rt.regions| && Shaped(rt.regions, rt.content) && scratch.Length == SCRATCH_SIZE
    requires AllAt(rt.regions, table, buf, acts, sc) && p == HEADER_SIZE + OldSum(rt.regions, table, i)
    requires scratch[..] == sc[i]
    modifies rt`content, scratch
    ensures Shaped(rt.regions, rt.content) && next == HEADER_SIZE + OldSum(rt.regions, table, i + 1)
    ensures Run(rt.regions, acts, old(rt.content), i)
         == if ok then Run(rt.regions, acts, rt.content, i + 1) else Outcome(rt.content, false)
    ensures Handed(rt.regions[i], DescriptorOf(rt.regions[i], table), i, acts[i], old(rt.content), rt.content, ok)
    ensures ok ==> scratch[..] == sc[i + 1]
  {
    assert At(rt.regions, table, buf, acts, sc, i);
    var r := rt.regions[i];
    var d := FindDescriptor(table, r.entry.name);
    var oldSize := if d.Some? then d.value.oldSize else r.Size();
    next := p + oldSize;
    if d.Some? && d.value.oldLayout.Some? && d.value.newLayout.Some? {
      ok := ConvertNext(rt, i, d, buf[p..], scratch, acts);
    } else {
      if oldSize != r.Size() {
        return false, next;
      }
      ok := rt.LoadNext(i, buf[p..][..r.Size()], acts);
    }
  }

  method ConvertRegions(rt: Runtime, table: Table, buf: seq<byte>, scratch: array<byte>,
                        ghost acts: seq<Action>, ghost sc: seq<seq<byte>>) returns (ok: bool)
    requires AllAt(rt.regions, table, buf, acts, sc) && Shaped(rt.regions, rt.content)
    requires scratch.Length == SCRATCH_SIZE && scratch[..] == sc[0]
    modifies rt`content, scratch
    ensures Shaped(rt.regions, rt.content)
    ensures Run(rt.regions, acts, old(rt.content), 0) == Outcome(rt.content, ok)
  {
    var p := HEADER_SIZE;
    ghost var was := rt.content;
    for i := 0 to |rt.regions|
      invariant Shaped(rt.regions, rt.content) && p == HEADER_SIZE + OldSum(rt.regions, table, i)
      invariant scratch[..] == sc[i]
      invariant Run(rt.regions, acts, was, 0) == Run(rt.regions, acts, rt.content, i)
    {
      ok, p := Turn(rt, table, buf, i, p, scratch, acts, sc);
      if !ok {
        return;
      }
    }
    ok := true;
  }

  lemma ConversionsAt(rs: seq<Region>, table: Table, buf: seq<byte>, scratch: seq<byte>)
    requires Ready(rs, table, buf, scratch)
    ensures AllAt(rs, table, buf, Conversions(rs, table, buf, scratch), Scratches(rs, table, buf, scratch))
  {
    var acts, sc := Conversions(rs, table, buf, scratch), Scratches(rs, table, buf, scratch);
    forall i | 0 <= i < |rs|
      ensures At(rs, table, buf, acts, sc, i)
    {
      ConversionAt(rs, table, buf, scratch, acts, sc, i);
    }
  }

  lemma ConversionAt(rs: seq<Region>, table: Table, buf: seq<byte>, scratch: seq<byte>,
                     acts: seq<Action>, sc: seq<seq<byte>>, i: nat)
    requires Ready(rs, table, buf, scratch)
    requires i < |rs| == |acts| && |sc| == |rs| + 1 && acts[i] == Conversion(rs, table, buf, scratch, i)
    requires sc[i] == Scratch(rs, table, buf, scratch, i) && sc[i + 1] == Scratch(rs, table, buf, scratch, i + 1)
    ensures At(rs, table, buf, acts, sc, i)
  {
    var d, bytes := DescriptorOf(rs[i], table), Rest(rs, table, buf, i);
    assert Does(rs[i], d, bytes, acts[i], sc[i], sc[i + 1]) by {
      assert Safe(rs[i], d, bytes);
    }
    AtPointer(rs, table, buf, acts, sc, i, bytes);
  }

  lemma AtPointer(rs: seq<Region>, table: Table, buf: seq<byte>, acts: seq<Action>, sc: seq<seq<byte>>, i: nat,
                  bytes: seq<byte>)
    requires OldEnd(rs, table) <= |buf| && i < |rs| == |acts| && |sc| == |rs| + 1
    requires bytes == Rest(rs, table, buf, i)
    requires Does(rs[i], DescriptorOf(rs[i], table), bytes, acts[i], sc[i], sc[i + 1])
    ensures At(rs, table, buf, acts, sc, i)
  {
    OldSumGrows(rs, table, i + 1, |rs|);
  }

  /** The header passes, the layouts differ, and the old buffer covers every region. */
  predicate Migrates(rs: seq<Region>, hash: nat, table: Table, buf: seq<byte>) {
    HeaderOk(buf) && HashOf(buf) != hash && Covers(rs, table, TotalOf(buf))
  }

  /** `save_state_load_migrate`. The scratch buffer is static: it holds what earlier loads left in it. */
  method Load(rt: Runtime, table: Table, buf: seq<byte>, scratch: array<byte>) returns (ok: bool)
    requires rt.Valid() && scratch.Length == SCRATCH_SIZE
    requires Migrates(rt.regions, rt.layoutHash, table, buf) ==> TableSafe(rt.regions, table, buf)
    modifies rt, scratch
    ensures rt.Valid()
    ensures !HeaderOk(buf) ==> !ok && rt.content == old(rt.content)
    ensures HeaderOk(buf) && HashOf(buf) == old(rt.layoutHash) ==>
              LoadedAsIs(rt.regions, buf, old(rt.content), rt.content, ok)
    ensures HeaderOk(buf) && HashOf(buf) != old(rt.layoutHash) && !Covers(rt.regions, table, TotalOf(buf)) ==>
              !ok && rt.content == old(rt.content)
    ensures Migrates(rt.regions, old(rt.layoutHash), table, buf) ==>
              LoadedConverted(rt.regions, table, buf, old(scratch[..]), old(rt.content), rt.content, ok)
  {
    if |buf| < HEADER_SIZE || MagicOf(buf) != MAGIC || VersionOf(buf) != VERSION || TotalOf(buf) > |buf| {
      return false;
    }
    if HashOf(buf) == rt.layoutHash {
      ok := rt.Load(buf);
      return;
    }
    var covered := CheckSizes(rt, table, TotalOf(buf));
    if !covered {
      return false;
    }
    ghost var acts := Conversions(rt.regions, table, buf, scratch[..]);
    ConversionsAt(rt.regions, table, buf, scratch[..]);
    RunResult(rt.regions, acts, rt.content);
    ok := ConvertRegions(rt, table, buf, scratch, acts, Scratches(rt.regions, table, buf, scratch[..]));
  }

  ghost predicate LoadedAsIs(rs: seq<Region>, buf: seq<byte>, was: Content, now: Content, ok: bool)
    requires |was| == |rs|
  {
    if Gates(rs, LayoutHash(rs), buf) then
      ok == Succeeds(rs, Slices(rs, buf)) && now == Walked(rs, Slices(rs, buf), was)
    else !ok && now == was
  }

  ghost predicate LoadedConverted(rs: seq<Region>, table: Table, buf: seq<byte>, scratch: seq<byte>,
                                  was: Content, now: Content, ok: bool)
    requires |was| == |rs| && Ready(rs, table, buf, scratch)
  {
    && ok == Succeeds(rs, Conversions(rs, table, buf, scratch))
    && now == Walked(rs, Conversions(rs, table, buf, scratch), was)
  }
}
