/** The persistent-script table: a two-word bitmap and 64 slots of 256 bytes, refined to the set of taken
    slots and what each slot holds. */
module ScriptTable {
  import opened Bytes

  const MAX_SCRIPTS: nat := 64
  const SLOT_BYTES: nat := 256

  type blob = b: seq<byte> | |b| <= SLOT_BYTES

  /** Which slots are taken, and what each holds whether it is taken or not. */
  datatype State = State(active: set<nat>, blobs: seq<blob>)

  ghost predicate Proper(s: State) {
    |s.blobs| == MAX_SCRIPTS && forall i :: i in s.active ==> i < MAX_SCRIPTS
  }

  /** The struct as memcpy sees it. */
  datatype Image = Image(bits: seq<nat>, lens: seq<nat>, slots: seq<seq<byte>>)

  function Padded(b: blob): (row: seq<byte>)
    ensures |row| == SLOT_BYTES
  {
    seq(SLOT_BYTES, j requires 0 <= j < SLOT_BYTES => if j < |b| then b[j] else 0)
  }

  function Slot(bits: seq<nat>, s: nat): bool
    requires |bits| == 2 && s < MAX_SCRIPTS
  {
    Bit(bits[s / 32], s % 32)
  }

  ghost predicate ShowsSlot(bits: seq<nat>, active: set<nat>, s: nat)
    requires |bits| == 2 && s < MAX_SCRIPTS
  {
    Slot(bits, s) <==> s in active
  }

  /** The two words are the set of taken slots. */
  ghost predicate Shows(bits: seq<nat>, active: set<nat>) {
    && |bits| == 2 && bits[0] < Pow2(32) && bits[1] < Pow2(32)
    && (forall s: nat :: s < MAX_SCRIPTS ==> ShowsSlot(bits, active, s))
    && (forall s :: s in active ==> s < MAX_SCRIPTS)
  }

  ghost predicate Holds(lens: seq<nat>, slots: seq<seq<byte>>, blobs: seq<blob>, i: nat)
    requires |lens| == |slots| == |blobs| && i < |lens|
  {
    lens[i] == |blobs[i]| && slots[i] == Padded(blobs[i])
  }

  ghost predicate Stores(m: Image, s: State) {
    && Proper(s) && Shows(m.bits, s.active) && |m.lens| == |m.slots| == MAX_SCRIPTS
    && forall i: nat :: i < MAX_SCRIPTS ==> Holds(m.lens, m.slots, s.blobs, i)
  }

  /** The saved bytes are a function of the taken slots and the blobs, and determine them. */
  lemma StoresBothWays(m: Image, s: State, n: Image, t: State)
    requires Stores(m, s) && Stores(n, t)
    ensures m == n <==> s == t
  {
    if s == t {
      WordsAgree(m.bits, n.bits, s.active);
      forall i | 0 <= i < MAX_SCRIPTS
        ensures m.lens[i] == n.lens[i] && m.slots[i] == n.slots[i]
      {
        assert Holds(m.lens, m.slots, s.blobs, i) && Holds(n.lens, n.slots, s.blobs, i);
      }
      assert m.lens == n.lens && m.slots == n.slots && m.bits == n.bits;
    }
    if m == n {
      forall i: nat | i < MAX_SCRIPTS
        ensures s.blobs[i] == t.blobs[i] && (i in s.active <==> i in t.active)
      {
        assert Holds(m.lens, m.slots, s.blobs, i) && Holds(n.lens, n.slots, t.blobs, i);
        PaddedDetermines(s.blobs[i], t.blobs[i]);
        assert ShowsSlot(m.bits, s.active, i) && ShowsSlot(n.bits, t.active, i);
      }
      assert s.blobs == t.blobs && s.active == t.active;
    }
  }

  lemma PaddedDetermines(a: blob, b: blob)
    requires |a| == |b| && Padded(a) == Padded(b)
    ensures a == b
  {
    forall j | 0 <= j < |a|
      ensures a[j] == b[j]
    {
      assert Padded(a)[j] == a[j] && Padded(b)[j] == b[j];
    }
  }

  lemma WordsAgree(a: seq<nat>, b: seq<nat>, active: set<nat>)
    requires Shows(a, active) && Shows(b, active)
    ensures a[0] == b[0] && a[1] == b[1]
  {
    forall i: nat | i < 32
      ensures (Bit(a[0], i) <==> Bit(b[0], i)) && (Bit(a[1], i) <==> Bit(b[1], i))
    {
      assert ShowsSlot(a, active, i) && ShowsSlot(b, active, i);
      assert ShowsSlot(a, active, 32 + i) && ShowsSlot(b, active, 32 + i);
      assert i / 32 == 0 && i % 32 == i && (32 + i) / 32 == 1 && (32 + i) % 32 == i;
    }
    SameBits(a[0], b[0], 32);
    SameBits(a[1], b[1], 32);
  }

  /** Word w with the bit of slot s set or cleared. */
  function Marked(bits: seq<nat>, s: nat): (r: seq<nat>)
    requires |bits| == 2 && s < MAX_SCRIPTS
  {
    bits[s / 32 := SetBit(bits[s / 32], s % 32)]
  }

  function Unmarked(bits: seq<nat>, s: nat): (r: seq<nat>)
    requires |bits| == 2 && s < MAX_SCRIPTS
  {
    bits[s / 32 := ClearBit(bits[s / 32], s % 32)]
  }

  lemma SameSlot(s: nat, t: nat)
    requires s / 32 == t / 32 && s % 32 == t % 32
    ensures s == t
  {
  }

  lemma MarkedShows(bits: seq<nat>, active: set<nat>, s: nat)
    requires Shows(bits, active) && s < MAX_SCRIPTS
    ensures Shows(Marked(bits, s), active + {s})
  {
    BitsFit(bits[s / 32], s % 32, 32);
    forall t: nat | t < MAX_SCRIPTS
      ensures ShowsSlot(Marked(bits, s), active + {s}, t)
    {
      assert ShowsSlot(bits, active, t);
      BitSet(bits[s / 32], s % 32, t % 32);
      if s / 32 == t / 32 && s % 32 == t % 32 {
        SameSlot(s, t);
      }
    }
  }

  lemma UnmarkedShows(bits: seq<nat>, active: set<nat>, s: nat)
    requires Shows(bits, active) && s < MAX_SCRIPTS
    ensures Shows(Unmarked(bits, s), active - {s})
  {
    BitsFit(bits[s / 32], s % 32, 32);
    forall t: nat | t < MAX_SCRIPTS
      ensures ShowsSlot(Unmarked(bits, s), active - {s}, t)
    {
      assert ShowsSlot(bits, active, t);
      BitCleared(bits[s / 32], s % 32, t % 32);
      if s / 32 == t / 32 && s % 32 == t % 32 {
        SameSlot(s, t);
      }
    }
  }

  lemma NoneShows()
    ensures Shows([0, 0], {})
  {
    forall s: nat | s < MAX_SCRIPTS
      ensures ShowsSlot([0, 0], {}, s)
    {
      NoBits(s % 32);
    }
  }

  /** Slots taken among the first n. */
  function TakenBelow(active: set<nat>, n: nat): nat {
    if n == 0 then 0 else TakenBelow(active, n - 1) + if n - 1 in active then 1 else 0
  }

  lemma {:induction false} TakenIsCount(active: set<nat>, n: nat)
    requires forall s :: s in active ==> s < n
    ensures TakenBelow(active, n) == |active|
  {
    if n == 0 {
      assert active == {};
    } else {
      var rest := active - {n - 1};
      TakenIsCount(rest, n - 1);
      TakenLocal(active, rest, n - 1);
    }
  }

  lemma {:induction false} TakenLocal(a: set<nat>, b: set<nat>, n: nat)
    requires forall s: nat :: s < n ==> (s in a <==> s in b)
    ensures TakenBelow(a, n) == TakenBelow(b, n)
  {
    if n > 0 {
      TakenLocal(a, b, n - 1);
    }
  }

  /** The first free slot at or after s, or 64. */
  function FirstFree(active: set<nat>, s: nat): (r: nat)
    requires s <= MAX_SCRIPTS
    ensures s <= r <= MAX_SCRIPTS && (r < MAX_SCRIPTS ==> r !in active)
    ensures forall t :: s <= t < r ==> t in active
    decreases MAX_SCRIPTS - s
  {
    if s == MAX_SCRIPTS || s !in active then s else FirstFree(active, s + 1)
  }

  class SlotTable {
    var bits: seq<nat>
    const lens: array<nat>
    const slots: array<seq<byte>>
    ghost var state: State

    ghost predicate Valid()
      reads this, lens, slots
    {
      && lens.Length == slots.Length == MAX_SCRIPTS && lens as object != slots as object
      && Stores(Image(bits, lens[..], slots[..]), state)
    }

    constructor ()
      ensures Valid() && state == Empty() && fresh(lens) && fresh(slots)
    {
      bits := [0, 0];
      lens := new nat[MAX_SCRIPTS](_ => 0);
      slots := new seq<byte>[MAX_SCRIPTS](_ => Padded([]));
      state := Empty();
      new;
      EmptyStored(Image(bits, lens[..], slots[..]));
    }

    method Reset()
      requires Valid()
      modifies this, lens, slots
      ensures Valid() && state == Empty()
    {
      bits := [0, 0];
      for i := 0 to MAX_SCRIPTS
        modifies lens, slots
        invariant forall j :: 0 <= j < i ==> lens[j] == 0 && slots[j] == Padded([])
      {
        lens[i], slots[i] := 0, Padded([]);
      }
      state := Empty();
      EmptyStored(Image(bits, lens[..], slots[..]));
    }

    method UnmarkAll()
      requires Valid()
      modifies this
      ensures Valid() && state == State({}, old(state).blobs)
    {
      NoneShows();
      bits, state := [0, 0], State({}, state.blobs);
    }

    /** The first free slot, which keeps the bytes it has; -1 when all are taken. */
    method Alloc() returns (slot: int)
      requires Valid()
      modifies this
      ensures Valid()
      ensures var s := FirstFree(old(state).active, 0);
              && slot == (if s < MAX_SCRIPTS then s else -1)
              && state == Allocated(old(state))
    {
      for s := 0 to MAX_SCRIPTS
        invariant Valid() && state == old(state)
        invariant FirstFree(state.active, 0) == FirstFree(state.active, s)
      {
        assert ShowsSlot(bits, state.active, s);
        if !Slot(bits, s) {
          MarkedShows(bits, state.active, s);
          bits, state := Marked(bits, s), State(state.active + {s}, state.blobs);
          return s;
        }
      }
      slot := -1;
    }

    method Free(slot: int)
      requires Valid()
      modifies this, lens, slots
      ensures Valid() && state == Freed(old(state), slot)
    {
      if slot < 0 || slot >= MAX_SCRIPTS {
        return;
      }
      assert ShowsSlot(bits, state.active, slot);
      if !Slot(bits, slot) {
        return;
      }
      UnmarkedShows(bits, state.active, slot);
      ghost var was := Image(bits, lens[..], slots[..]);
      bits := Unmarked(bits, slot);
      lens[slot] := 0;
      slots[slot] := Padded([]);
      Replaced(was, state, slot, [], bits, state.active - {slot});
      state := State(state.active - {slot}, state.blobs[slot := []]);
      assert lens[..] == was.lens[slot := 0] && slots[..] == was.slots[slot := Padded([])];
    }

    /** Too long a blob is refused, not cut. */
    method Write(slot: int, src: seq<byte>) returns (ok: bool)
      requires Valid()
      modifies this, lens, slots
      ensures Valid() && state == Written(old(state), slot, src)
      ensures ok == CanWrite(old(state), slot, src)
    {
      if slot < 0 || slot >= MAX_SCRIPTS {
        return false;
      }
      assert ShowsSlot(bits, state.active, slot);
      if !Slot(bits, slot) {
        return false;
      }
      if |src| > SLOT_BYTES {
        return false;
      }
      ghost var was := Image(bits, lens[..], slots[..]);
      assert Holds(lens[..], slots[..], state.blobs, slot);
      var row := FillRow(slots[slot], src);
      slots[slot] := row;
      lens[slot] := |src|;
      Replaced(was, state, slot, src, bits, state.active);
      state := State(state.active, state.blobs[slot := src]);
      assert lens[..] == was.lens[slot := |src|] && slots[..] == was.slots[slot := Padded(src)];
      ok := true;
    }

    /** The two loops of a write: the bytes, then zeros over whatever a longer blob left behind. */
    static method FillRow(stale: seq<byte>, src: seq<byte>) returns (row: seq<byte>)
      requires |stale| == SLOT_BYTES && |src| <= SLOT_BYTES
      ensures row == Padded(src)
    {
      row := stale;
      for i := 0 to |src|
        invariant |row| == SLOT_BYTES && row[..i] == src[..i]
      {
        row := row[i := src[i]];
      }
      for i := |src| to SLOT_BYTES
        invariant |row| == SLOT_BYTES && row[..|src|] == src
        invariant forall j :: |src| <= j < i ==> row[j] == 0
      {
        row := row[i := 0];
      }
      assert forall j :: 0 <= j < |src| ==> row[j] == row[..|src|][j];
    }

    /** The blob of a taken slot, or -1 when the slot is not taken or the blob does not fit. */
    method Read(slot: int, cap: nat) returns (n: int, dst: seq<byte>)
      requires Valid()
      ensures n == (if slot in state.active && |state.blobs[slot]| <= cap then |state.blobs[slot]| else -1)
      ensures n >= 0 ==> dst == state.blobs[slot]
    {
      n, dst := -1, [];
      if slot < 0 || slot >= MAX_SCRIPTS {
        return;
      }
      assert ShowsSlot(bits, state.active, slot) && Holds(lens[..], slots[..], state.blobs, slot);
      if !Slot(bits, slot) || lens[slot] > cap {
        return;
      }
      n, dst := lens[slot], slots[slot][..lens[slot]];
      assert dst == state.blobs[slot];
    }

    method ActiveCount() returns (c: nat)
      requires Valid()
      ensures c == |state.active|
    {
      c := 0;
      for s := 0 to MAX_SCRIPTS
        invariant c == TakenBelow(state.active, s)
      {
        assert ShowsSlot(bits, state.active, s);
        c := c + if Slot(bits, s) then 1 else 0;
      }
      TakenIsCount(state.active, MAX_SCRIPTS);
    }

    method Save() returns (m: Image)
      requires Valid()
      ensures Stores(m, state)
    {
      m := Image(bits, lens[..], slots[..]);
    }

    /** A straight copy of an image that some table saved. */
    method Load(m: Image, ghost saved: State)
      requires Stores(m, saved) && lens.Length == slots.Length == MAX_SCRIPTS && lens as object != slots as object
      modifies this, lens, slots
      ensures Valid() && state == saved
    {
      for i := 0 to MAX_SCRIPTS
        modifies lens, slots
        invariant lens[..i] == m.lens[..i] && slots[..i] == m.slots[..i]
      {
        lens[i], slots[i] := m.lens[i], m.slots[i];
      }
      assert lens[..] == lens[..MAX_SCRIPTS] == m.lens && slots[..] == slots[..MAX_SCRIPTS] == m.slots;
      bits, state := m.bits, saved;
    }
  }

  function Empty(): State {
    State({}, seq(MAX_SCRIPTS, _ => []))
  }

  function Allocated(s: State): State {
    var f := FirstFree(s.active, 0);
    if f < MAX_SCRIPTS then State(s.active + {f}, s.blobs) else s
  }

  function Freed(s: State, slot: int): State
    requires |s.blobs| == MAX_SCRIPTS
  {
    if 0 <= slot < MAX_SCRIPTS && slot in s.active then State(s.active - {slot}, s.blobs[slot := []]) else s
  }

  predicate CanWrite(s: State, slot: int, src: seq<byte>) {
    0 <= slot < MAX_SCRIPTS && slot in s.active && |src| <= SLOT_BYTES
  }

  function Written(s: State, slot: int, src: seq<byte>): State
    requires |s.blobs| == MAX_SCRIPTS
  {
    if CanWrite(s, slot, src) then State(s.active, s.blobs[slot := src]) else s
  }

  lemma EmptyStored(m: Image)
    requires m.bits == [0, 0] && |m.lens| == |m.slots| == MAX_SCRIPTS
    requires forall i :: 0 <= i < MAX_SCRIPTS ==> m.lens[i] == 0 && m.slots[i] == Padded([])
    ensures Stores(m, Empty())
  {
    NoneShows();
  }

  /** One slot replaced in the image and in the state. */
  lemma Replaced(m: Image, s: State, slot: nat, b: blob, bits: seq<nat>, active: set<nat>)
    requires Stores(m, s) && slot < MAX_SCRIPTS && Shows(bits, active)
    ensures Stores(Image(bits, m.lens[slot := |b|], m.slots[slot := Padded(b)]), State(active, s.blobs[slot := b]))
  {
    var lens, slots, blobs := m.lens[slot := |b|], m.slots[slot := Padded(b)], s.blobs[slot := b];
    forall i: nat | i < MAX_SCRIPTS
      ensures Holds(lens, slots, blobs, i)
    {
      assert Holds(m.lens, m.slots, s.blobs, i);
    }
  }
}
