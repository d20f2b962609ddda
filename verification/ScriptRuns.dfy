/** Whole runs of the script table, and how a resumed cart meets its slots again. */
module ScriptRuns {
  import opened Arithmetic
  import opened Bytes
  import opened ScriptTable

  datatype Call = Alloc | Free(slot: int) | Write(slot: int, src: seq<byte>) | Read(slot: int)

  function Step(s: State, c: Call): State
    requires |s.blobs| == MAX_SCRIPTS
  {
    match c
    case Alloc => Allocated(s)
    case Free(slot) => Freed(s, slot)
    case Write(slot, src) => Written(s, slot, src)
    case Read(_) => s
  }

  function After(s: State, calls: seq<Call>): (r: State)
    requires |s.blobs| == MAX_SCRIPTS
    ensures |r.blobs| == MAX_SCRIPTS
  {
    if calls == [] then s else Step(After(s, calls[..|calls| - 1]), calls[|calls| - 1])
  }

  method RunCalls(t: SlotTable, calls: seq<Call>)
    requires t.Valid()
    modifies t, t.lens, t.slots
    ensures t.Valid() && t.state == After(old(t.state), calls)
  {
    for i := 0 to |calls|
      invariant t.Valid() && t.state == After(old(t.state), calls[..i])
    {
      assert calls[..i + 1][..i] == calls[..i];
      match calls[i] {
        case Alloc =>
          var _ := t.Alloc();
        case Free(slot) =>
          t.Free(slot);
        case Write(slot, src) =>
          var _ := t.Write(slot, src);
        case Read(slot) =>
          var _, _ := t.Read(slot, SLOT_BYTES);
      }
    }
    assert calls[..|calls|] == calls;
  }

  /** A slot that is not taken is empty. */
  ghost predicate Tidy(s: State) {
    Proper(s) && forall i: nat :: i < MAX_SCRIPTS && i !in s.active ==> s.blobs[i] == []
  }

  /** From a reset table, a slot holds bytes only while it is taken, so what is saved depends on the
      taken slots and their blobs alone. */
  lemma {:induction false} RunsStayTidy(s: State, calls: seq<Call>)
    requires Tidy(s)
    ensures Tidy(After(s, calls))
  {
    if calls != [] {
      RunsStayTidy(s, calls[..|calls| - 1]);
    }
  }

  lemma TidyDetermined(s: State, t: State)
    requires Tidy(s) && Tidy(t) && s.active == t.active
    requires forall i :: i in s.active ==> s.blobs[i] == t.blobs[i]
    ensures s == t
  {
    forall i: nat | i < MAX_SCRIPTS
      ensures s.blobs[i] == t.blobs[i]
    {
      if i !in s.active {
        assert s.blobs[i] == [] && t.blobs[i] == [];
      }
    }
    assert s.blobs == t.blobs;
  }

  predicate NoFrees(calls: seq<Call>) {
    forall i :: 0 <= i < |calls| ==> !calls[i].Free?
  }

  function Allocs(calls: seq<Call>): nat {
    if calls == [] then 0 else Allocs(calls[..|calls| - 1]) + if calls[|calls| - 1].Alloc? then 1 else 0
  }

  /** The first k slots are taken. */
  ghost predicate Dense(active: set<nat>, k: nat) {
    forall i: nat :: i in active <==> i < k
  }

  lemma DenseFirstFree(active: set<nat>, k: nat)
    requires Dense(active, k) && k <= MAX_SCRIPTS
    ensures FirstFree(active, 0) == k
  {
    var f := FirstFree(active, 0);
    assert f in active <==> f < k;
    assert k !in active;
  }

  /** Starting with no slot taken and never freeing, the slots taken are always the first ones, and a
      slot not taken yet holds what it held at the start. */
  lemma {:induction false} RunsAreDense(s: State, calls: seq<Call>)
    requires Proper(s) && s.active == {} && NoFrees(calls)
    ensures Dense(After(s, calls).active, Min(Allocs(calls), MAX_SCRIPTS))
    ensures forall i :: Min(Allocs(calls), MAX_SCRIPTS) <= i < MAX_SCRIPTS ==> After(s, calls).blobs[i] == s.blobs[i]
  {
    if calls != [] {
      var front := calls[..|calls| - 1];
      RunsAreDense(s, front);
      DenseFirstFree(After(s, front).active, Min(Allocs(front), MAX_SCRIPTS));
    }
  }

  /** What the load driver does: the saved table with every slot unmarked. */
  function Resumed(saved: State): State {
    State({}, saved.blobs)
  }

  /** Whatever ran before the save, and however the resumed run writes and reads: as long as it frees
      nothing, its i-th allocation returns slot i, holding the blob that slot i was saved with. */
  lemma ResumeMeetsItsSlots(before: seq<Call>, calls: seq<Call>)
    requires NoFrees(calls) && Allocs(calls) < MAX_SCRIPTS
    ensures var saved := After(Empty(), before);
            var now, i := After(Resumed(saved), calls), Allocs(calls);
            && FirstFree(now.active, 0) == i
            && now.blobs[i] == saved.blobs[i]
            && Allocated(now).active == now.active + {i}
  {
    var saved := After(Empty(), before);
    RunsStayTidy(Empty(), before);
    RunsAreDense(Resumed(saved), calls);
    DenseFirstFree(After(Resumed(saved), calls).active, Allocs(calls));
  }

  /** And in the run before the save: its i-th allocation returned slot i. */
  lemma FreshSlotsInOrder(calls: seq<Call>)
    requires NoFrees(calls) && Allocs(calls) < MAX_SCRIPTS
    ensures FirstFree(After(Empty(), calls).active, 0) == Allocs(calls)
    ensures After(Empty(), calls).blobs[Allocs(calls)] == []
  {
    RunsAreDense(Empty(), calls);
    DenseFirstFree(After(Empty(), calls).active, Allocs(calls));
  }

  /** Save, load into another table, unmark, and carry on. */
  method Resume(from: SlotTable, to: SlotTable, ghost before: seq<Call>, calls: seq<Call>) returns (slot: int)
    requires from.Valid() && to.Valid() && {from, from.lens, from.slots} !! {to, to.lens, to.slots}
    requires from.state == After(Empty(), before) && NoFrees(calls) && Allocs(calls) < MAX_SCRIPTS
    modifies to, to.lens, to.slots
    ensures to.Valid() && slot == Allocs(calls) && slot in to.state.active
    ensures to.state.blobs[slot] == from.state.blobs[slot]
  {
    var image := from.Save();
    to.Load(image, from.state);
    to.UnmarkAll();
    RunCalls(to, calls);
    ResumeMeetsItsSlots(before, calls);
    slot := to.Alloc();
  }
}
