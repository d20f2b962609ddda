/** The audio branch end to end: what travels through a save buffer. */
module AudioBranch {
  import opened Bytes
  import opened VoiceQueue
  import opened VoiceRuns
  import opened SaveStateSpec
  import opened SaveState
  import opened SaveTheorems
  import FrameState

  // The packed queue: the bitmap, the count, eight entries of six bytes.

  function EventBytes(e: Event): (s: seq<byte>)
    ensures |s| == 6
  {
    Le32(e.frame) + [e.h as int, e.kind % 256]
  }

  /** Handles past the bitmap are not modelled. */
  function HandleOf(b: byte): handle {
    if b < 64 then b as bv8 else 0
  }

  function EventOf(s: seq<byte>): Event
    requires |s| == 6
  {
    Event(WordAt(s, 0), HandleOf(s[4]), s[5])
  }

  function EventsBytes(es: seq<Event>): (s: seq<byte>)
    ensures |s| == 6 * |es|
  {
    if es == [] then [] else EventBytes(es[0]) + EventsBytes(es[1..])
  }

  function EventsOf(s: seq<byte>, n: nat): (es: seq<Event>)
    requires |s| == 6 * n
    ensures |es| == n
  {
    if n == 0 then [] else [EventOf(s[..6])] + EventsOf(s[6..], n - 1)
  }

  /** The struct as the region's save callback copies it. */
  function QueueBytes(q: VoiceQueue.Image): (s: seq<byte>)
    requires |q.pending| == PENDING_MAX
    ensures |s| == QUEUE_SIZE && s[8] == q.count % 256
  {
    Le64(Bits(q.bits)) + [q.count % 256] + EventsBytes(q.pending)
  }

  function QueueOf(s: seq<byte>): (q: VoiceQueue.Image)
    requires |s| == QUEUE_SIZE
    ensures |q.pending| == PENDING_MAX
  {
    VoiceQueue.Image(BitsOf(LongAt(s)), s[8], EventsOf(s[9..], PENDING_MAX))
  }

  lemma {:induction false} EventAt(s: seq<byte>, n: nat, i: nat)
    requires |s| == 6 * n && i < n
    ensures EventsOf(s, n)[i] == EventOf(s[6 * i..6 * i + 6])
  {
    if i > 0 {
      EventAt(s[6..], n - 1, i - 1);
      assert s[6..][6 * (i - 1)..6 * (i - 1) + 6] == s[6 * i..6 * i + 6];
    }
  }

  /** Where the packed struct has its fields. */
  lemma QueueOffsets(s: seq<byte>, i: nat)
    requires |s| == QUEUE_SIZE && i < PENDING_MAX
    ensures QueueOf(s).count == s[8]
    ensures var e, at := QueueOf(s).pending[i], 9 + 6 * i;
            e.frame == WordAt(s, at) && e.h == HandleOf(s[at + 4]) && e.kind == s[at + 5] as int
  {
    EventAt(s[9..], PENDING_MAX, i);
    assert s[9..][6 * i..6 * i + 6] == s[9 + 6 * i..9 + 6 * i + 6];
  }

  function Bits(b: bv64): (n: nat)
    ensures n < U64
  {
    b as nat
  }

  function BitsOf(n: nat): bv64
    requires n < U64
  {
    n as bv64
  }

  function LongAt(s: seq<byte>): (n: nat)
    requires |s| >= 8
    ensures n < U64
  {
    WordAt(s, 0) + U32 * WordAt(s, 4)
  }

  /** The fields are as wide as the struct's. */
  predicate Narrow(e: Event) {
    e.frame < U32 && e.kind < 256
  }

  lemma HandleBack(h: handle)
    ensures 0 <= h as int < 64 && HandleOf(h as int) == h
  {
  }

  lemma EventBack(e: Event)
    requires Narrow(e)
    ensures EventOf(EventBytes(e)) == e
  {
    HandleBack(e.h);
    WordBack(EventBytes(e), 0, e.frame);
  }

  /** Entries that are narrow come back, whatever the others hold. */
  lemma {:induction false} EventsBack(es: seq<Event>, i: nat)
    requires i < |es| && Narrow(es[i])
    ensures EventsOf(EventsBytes(es), |es|)[i] == es[i]
  {
    var s := EventsBytes(es);
    assert s[..6] == EventBytes(es[0]) && s[6..] == EventsBytes(es[1..]);
    if i == 0 {
      EventBack(es[0]);
    } else {
      EventsBack(es[1..], i - 1);
    }
  }

  lemma BitsBack(b: bv64)
    ensures BitsOf(Bits(b)) == b
  {
  }

  lemma LongBack(v: nat, rest: seq<byte>)
    requires v < U64
    ensures LongAt(Le64(v) + rest) == v
  {
    var s := Le64(v) + rest;
    assert s[0..4] == Le32(v % U32) && s[4..8] == Le32(v / U32);
    WordBack(s, 0, v % U32);
    WordBack(s, 4, v / U32);
  }

  lemma QueueParts(q: VoiceQueue.Image)
    requires |q.pending| == PENDING_MAX && q.count < 256
    ensures var r := QueueOf(QueueBytes(q));
            r.bits == q.bits && r.count == q.count && r.pending == EventsOf(EventsBytes(q.pending), PENDING_MAX)
  {
    var s, n := QueueBytes(q), Bits(q.bits);
    Assoc(Le64(n), [q.count % 256], EventsBytes(q.pending));
    LongBack(n, [q.count % 256] + EventsBytes(q.pending));
    BitsBack(q.bits);
    assert s[9..] == EventsBytes(q.pending);
  }

  /** A saved struct and its byte image hold the same state. */
  lemma StoresBack(q: VoiceQueue.Image, at: State)
    requires Stores(q, at) && forall e :: e in at.pending ==> Narrow(e)
    ensures Stores(QueueOf(QueueBytes(q)), at)
  {
    QueueParts(q);
    var es := EventsOf(EventsBytes(q.pending), PENDING_MAX);
    forall i | 0 <= i < q.count
      ensures es[i] == q.pending[i]
    {
      assert q.pending[..q.count][i] in at.pending;
      EventsBack(q.pending, i);
    }
    assert es[..q.count] == q.pending[..q.count];
  }

  lemma {:induction false} DueNarrow(schedule: seq<Ending>, frame: nat)
    requires frame < U32
    ensures forall e :: e in Due(schedule, frame) ==> Narrow(e)
  {
    if schedule != [] {
      DueNarrow(schedule[..|schedule| - 1], frame);
    }
  }

  /** What waits after a frame was queued in that frame. */
  lemma AfterNarrow(q: State, schedule: seq<Ending>, n: nat)
    requires n > 0 && n - 1 < U32
    ensures forall e :: e in After(q, schedule, 0, n).pending ==> Narrow(e)
  {
    DueNarrow(schedule, n - 1);
  }

  lemma FrameTravels(f: FrameState.Frame)
    requires |f.mobs| == FrameState.MAX_MOBS
    ensures |FrameState.Image(f)| == FrameState.FRAME_SIZE
    ensures FrameState.FrameOf(FrameCanon(FrameState.Image(f))).head.frame == f.head.frame
  {
    FrameState.FrameOfImage(f);
    FrameState.FrameOfImage(FrameState.CanonFrame(f));
  }

  lemma AudioParts(rs: seq<Region>, c: Content)
    requires AudioRegistry(rs) && |c| == 2 && |c[0]| == FrameState.FRAME_SIZE && |c[1]| == QUEUE_SIZE
    ensures Shaped(rs, c) && (TakesBack(rs, c) <==> c[1][8] <= 8)
    ensures Canonical(rs, c)[0] == FrameCanon(c[0]) && Canonical(rs, c)[1] == c[1]
  {
    AudioTakesBack(rs, c);
  }

  /** Save both regions, print the buffer, parse it and load it into another runtime. */
  method Carry(from: Runtime, to: Runtime, fs: FrameState.Frame, saved: VoiceQueue.Image)
      returns (ok: bool, last: nat, back: VoiceQueue.Image)
    requires from != to && from.regions == to.regions && AudioRegistry(from.regions) && from.Valid() && to.Valid()
    requires |fs.mobs| == FrameState.MAX_MOBS && |saved.pending| == PENDING_MAX
    modifies from, to
    ensures ok <==> saved.count % 256 <= PENDING_MAX
    ensures ok ==> last == fs.head.frame && back == QueueOf(QueueBytes(saved))
    ensures |back.pending| == PENDING_MAX
  {
    FrameTravels(fs);
    from.content := [FrameState.Image(fs), QueueBytes(saved)];
    ghost var c := from.content;
    AudioParts(from.regions, c);
    ok := Transport(from, to, fs.head.frame);
    last := FrameState.FrameOf(to.content[0]).head.frame;
    back := QueueOf(to.content[1]);
  }

  /** The branch that saves, up to the process that has loaded the buffer. */
  method StopAndCarry(from: Runtime, to: Runtime, starts: seq<handle>, schedule: seq<Ending>, fs: FrameState.Frame)
      returns (last: nat, back: VoiceQueue.Image)
    requires from != to && from.regions == to.regions && AudioRegistry(from.regions) && from.Valid() && to.Valid()
    requires |fs.mobs| == FrameState.MAX_MOBS
    modifies from, to
    ensures last == fs.head.frame && Stores(back, After(Initial(starts), schedule, 0, last + 1))
  {
    var front, saved := Interrupted(starts, schedule, fs.head.frame);
    AfterNarrow(Initial(starts), schedule, fs.head.frame + 1);
    StoresBack(saved, After(Initial(starts), schedule, 0, fs.head.frame + 1));
    var ok;
    ok, last, back := Carry(from, to, fs, saved);
  }

  /** The branches of the audio test. One process runs straight through; another stops after frame
      `fs.head.frame` and saves both regions; a third loads the buffer, as text, into a runtime and a queue
      in any condition, takes the frame number from it and goes on. Its voices are those of the straight
      run from there on. */
  method SaveTransportResume(from: Runtime, to: Runtime, q: Queue, starts: seq<handle>, schedule: seq<Ending>,
                             fs: FrameState.Frame, frames: nat) returns (full: seq<bv64>, rest: seq<bv64>)
    requires from != to && from.regions == to.regions && AudioRegistry(from.regions) && from.Valid() && to.Valid()
    requires q.pending.Length == PENDING_MAX && |fs.mobs| == FrameState.MAX_MOBS && fs.head.frame < frames
    modifies from, to, q, q.pending
    ensures AllShow(full, Trace(Initial(starts), schedule, 0, frames))
    ensures AllShow(rest, Trace(Initial(starts), schedule, 0, frames)[fs.head.frame + 1..])
    ensures q.Valid() && Abstract(q) == After(Initial(starts), schedule, 0, frames)
  {
    full := Straight(starts, schedule, frames);
    var last, back := StopAndCarry(from, to, starts, schedule, fs);
    ResumeGivesSuffix(Initial(starts), schedule, 0, last + 1, frames - (last + 1));
    rest := Resumed(q, back, schedule, last, frames, After(Initial(starts), schedule, 0, last + 1));
  }
}
