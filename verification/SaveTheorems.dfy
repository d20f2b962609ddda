/** What saving and loading promise, over all registries, contents and buffers. */
module SaveTheorems {
  import opened Bytes
  import opened Describe
  import opened SaveStateSpec
  import opened SaveState
  import opened HexTransport
  import FrameState
  import Fnv

  /** Every region takes back what it saves. */
  predicate TakesBack(rs: seq<Region>, c: Content)
    requires |c| == |rs|
  {
    forall i :: 0 <= i < |rs| ==> rs[i].accepts(CanonAt(rs, c, i))
  }

  lemma CanonicalShaped(rs: seq<Region>, c: Content)
    requires Shaped(rs, c) && AllSound(rs)
    ensures Shaped(rs, Canonical(rs, c))
  {
    forall i | 0 <= i < |rs|
      ensures |Canonical(rs, c)[i]| == rs[i].Size()
    {
      assert rs[i].Sound();
    }
  }

  lemma HashFits(s: seq<byte>)
    ensures Fnv.Hash(s, Fnv.OFFSET) < U64
  {
    Fnv.HashRange(s, Fnv.OFFSET);
  }

  /** A buffer saved by this registry passes every gate of this registry. */
  lemma SavedPassesGates(rs: seq<Region>, c: Content, frame: nat)
    requires Shaped(rs, c) && FitsWord(rs) && frame < U32
    ensures Gates(rs, LayoutHash(rs), Image(LayoutHash(rs), frame, rs, c))
    ensures FrameOf(Image(LayoutHash(rs), frame, rs, c)) == frame && |Image(LayoutHash(rs), frame, rs, c)| == Need(rs)
  {
    HashFits(Description(Entries(rs)));
    BodyLength(rs, c, |c|);
    HeaderBack(LayoutHash(rs), frame, Need(rs), Body(c, |c|));
  }

  /** Loading what was saved, into any other state: every region is as it was saved, exactly when
      every region takes back its own bytes. */
  lemma LoadOfSaved(rs: seq<Region>, c: Content, frame: nat, other: Content)
    requires Shaped(rs, c) && Shaped(rs, other) && AllSound(rs) && FitsWord(rs)
    ensures Shaped(rs, Canonical(rs, c))
    ensures var buf := Image(LayoutHash(rs), frame, rs, Canonical(rs, c));
            && Need(rs) <= |buf|
            && (Succeeds(rs, Slices(rs, buf)) <==> TakesBack(rs, c))
            && (Succeeds(rs, Slices(rs, buf)) ==> Walked(rs, Slices(rs, buf), other) == Canonical(rs, c))
  {
    CanonicalShaped(rs, c);
    var d := Canonical(rs, c);
    var buf := Image(LayoutHash(rs), frame, rs, d);
    BodyLength(rs, d, |d|);
    var acts := Slices(rs, buf);
    forall i | 0 <= i < |rs|
      ensures acts[i] == Commit(d[i]) && (Good(rs, acts, i) <==> rs[i].accepts(CanonAt(rs, c, i)))
    {
      SliceOfImage(LayoutHash(rs), frame, rs, d, [], i);
      assert buf + [] == buf;
    }
    SuccessIsGood(rs, acts);
    if Succeeds(rs, acts) {
      SuccessCommitsAll(rs, acts, other);
      assert Walked(rs, acts, other) == d;
    }
  }

  /** Save and print as hex. */
  method SaveAsText(rt: Runtime, frame: nat) returns (text: seq<byte>)
    requires rt.Valid() && frame < U32
    modifies rt
    ensures rt.Valid() && rt.content == Canonical(rt.regions, old(rt.content))
    ensures text == Line(frame, Image(LayoutHash(rt.regions), frame, rt.regions, rt.content))
  {
    var buf := new byte[Need(rt.regions)](_ => 0);
    var n := rt.Save(buf, frame);
    SavedPassesGates(rt.regions, rt.content, frame);
    text := EmitHex(buf[..n]);
  }

  /** Parse such a text and load it. */
  method LoadFromText(rt: Runtime, text: seq<byte>, cap: nat, ghost frame: nat, ghost buf: seq<byte>)
      returns (ok: bool)
    requires rt.Valid() && Gates(rt.regions, LayoutHash(rt.regions), buf)
    requires text == Line(frame, buf) && 0 < |buf| <= cap
    modifies rt
    ensures rt.Valid() && ok == Succeeds(rt.regions, Slices(rt.regions, buf))
    ensures rt.content == Walked(rt.regions, Slices(rt.regions, buf), old(rt.content))
  {
    var bin := new byte[cap](_ => 0);
    LineDecodes(frame, buf, cap);
    var m := ParseHex(text, bin);
    ok := rt.Load(bin[..m]);
  }

  /** Save, print as hex, parse, load into another runtime with the same registry. */
  method Transport(from: Runtime, to: Runtime, frame: nat) returns (ok: bool)
    requires from != to && from.regions == to.regions && from.Valid() && to.Valid() && frame < U32
    modifies from, to
    ensures from.Valid() && to.Valid() && from.content == Canonical(from.regions, old(from.content))
    ensures ok == TakesBack(from.regions, old(from.content))
    ensures ok ==> to.content == Canonical(from.regions, old(from.content))
  {
    LoadOfSaved(from.regions, from.content, frame, to.content);
    SavedPassesGates(from.regions, Canonical(from.regions, from.content), frame);
    var text := SaveAsText(from, frame);
    ghost var buf := Image(LayoutHash(from.regions), frame, from.regions, from.content);
    ok := LoadFromText(to, text, Need(to.regions), frame, buf);
  }

  /** One changed character in a description of the same length is always noticed. */
  lemma LayoutEditRejected(rs: seq<Region>, qs: seq<Region>, c: Content, frame: nat, i: nat)
    requires Shaped(rs, c) && FitsWord(rs) && frame < U32
    requires i < |Description(Entries(rs))| == |Description(Entries(qs))|
    requires Description(Entries(qs))[i] != Description(Entries(rs))[i]
    requires Description(Entries(qs)) == Description(Entries(rs))[i := Description(Entries(qs))[i]]
    ensures !Gates(qs, LayoutHash(qs), Image(LayoutHash(rs), frame, rs, c))
  {
    HashFits(Description(Entries(rs)));
    HeaderBack(LayoutHash(rs), frame, Need(rs), Body(c, |c|));
    Fnv.OneByteDetected(Description(Entries(rs)), i, Description(Entries(qs))[i]);
  }

  // The two regions of the audio branch.

  function FrameCanon(s: seq<byte>): seq<byte> {
    if |s| == FrameState.FRAME_SIZE then FrameState.CanonBytes(s) else s
  }

  function FrameRegion(e: Entry): Region {
    Region(e, FrameCanon, s => true)
  }

  const QUEUE_SIZE: nat := 57

  /** Byte 8 of the packed queue is its count; more than eight events are refused, after the copy. */
  predicate QueueAccepts(s: seq<byte>) {
    |s| == QUEUE_SIZE && s[8] <= 8
  }

  function QueueRegion(e: Entry): Region {
    Region(e, (s: seq<byte>) => s, QueueAccepts)
  }

  ghost predicate AudioRegistry(rs: seq<Region>) {
    && |rs| == 2 && rs[0] == FrameRegion(rs[0].entry) && rs[1] == QueueRegion(rs[1].entry)
    && rs[0].Size() == FrameState.FRAME_SIZE && rs[1].Size() == QUEUE_SIZE
  }

  /** Every state of the audio branch takes back what it saves, except a queue counting nine or more. */
  lemma AudioTakesBack(rs: seq<Region>, c: Content)
    requires AudioRegistry(rs) && Shaped(rs, c)
    ensures TakesBack(rs, c) <==> c[1][8] <= 8
  {
    assert |c[1]| == QUEUE_SIZE;
    if c[1][8] <= 8 {
      forall i | 0 <= i < |rs|
        ensures rs[i].accepts(CanonAt(rs, c, i))
      {
        assert i == 0 || i == 1;
      }
    } else {
      assert !rs[1].accepts(CanonAt(rs, c, 1));
    }
  }

  /** What a save makes of the audio branch: every float word of the frame state is itself or, if it was a
      NaN, 0x7fc0_0000; every other word and the queue are as they were. */
  ghost predicate AudioSaved(now: Content, was: Content) {
    && |now| == |was| == 2 && |now[0]| == |was[0]| == FrameState.FRAME_SIZE && now[1] == was[1]
    && forall at: nat :: at + 4 <= FrameState.FRAME_SIZE && at % 4 == 0 ==> FrameState.WordSaved(now[0], was[0], at)
  }

  lemma AudioCanonical(rs: seq<Region>, c: Content)
    requires AudioRegistry(rs) && Shaped(rs, c)
    ensures AudioSaved(Canonical(rs, c), c)
    ensures FrameState.NanFree(c[0]) ==> Canonical(rs, c) == c
  {
    var d := Canonical(rs, c);
    assert d[0] == FrameState.CanonBytes(c[0]) && d[1] == c[1];
    forall at: nat | at + 4 <= FrameState.FRAME_SIZE && at % 4 == 0
      ensures FrameState.WordSaved(d[0], c[0], at)
    {
      FrameState.SavedWord(c[0], at);
    }
    if FrameState.NanFree(c[0]) {
      FrameState.NanFreeStays(c[0]);
      assert d == c;
    }
  }

  /** The audio branch arrives as it was sent, but for NaN patterns, exactly when its queue counts at most
      eight events. */
  method TransportAudio(from: Runtime, to: Runtime, frame: nat) returns (ok: bool)
    requires from != to && from.regions == to.regions && from.Valid() && to.Valid() && frame < U32
    requires AudioRegistry(from.regions)
    modifies from, to
    ensures from.Valid() && to.Valid() && |old(from.content)| == 2 && AudioSaved(from.content, old(from.content))
    ensures ok == (old(from.content)[1][8] <= 8)
    ensures ok ==> to.content == from.content
    ensures FrameState.NanFree(old(from.content)[0]) ==> from.content == old(from.content)
  {
    AudioCanonical(from.regions, from.content);
    AudioTakesBack(from.regions, from.content);
    ok := Transport(from, to, frame);
  }

  lemma FrameCanonTwice(s: seq<byte>)
    ensures FrameCanon(FrameCanon(s)) == FrameCanon(s)
  {
    if |s| == FrameState.FRAME_SIZE {
      FrameState.CanonBytesTwice(s);
    }
  }

  lemma AudioStable(rs: seq<Region>, c: Content)
    requires AudioRegistry(rs) && |c| == 2
    ensures Canonical(rs, Canonical(rs, c)) == Canonical(rs, c)
  {
    FrameCanonTwice(c[0]);
    var d := Canonical(rs, c);
    assert d[0] == FrameCanon(c[0]) && Canonical(rs, d)[0] == FrameCanon(d[0]);
    assert Canonical(rs, d)[1] == d[1];
  }

  /** Equal outside the header's frame word. */
  predicate SameButFrame(a: seq<byte>, b: seq<byte>) {
    |a| == |b| >= HEADER_SIZE && a[..16] == b[..16] && a[20..] == b[20..]
  }

  lemma OnlyTheFrame(rs: seq<Region>, c: Content, frame: nat, later: nat)
    requires |c| == |rs|
    ensures SameButFrame(Image(LayoutHash(rs), frame, rs, c), Image(LayoutHash(rs), later, rs, c))
  {
  }

  /** Two saves of a state that is canonical once saved. */
  method SaveBoth(rt: Runtime, first: array<byte>, second: array<byte>, frame: nat, later: nat) returns (n: nat)
    requires rt.Valid() && first != second
    requires Canonical(rt.regions, Canonical(rt.regions, rt.content)) == Canonical(rt.regions, rt.content)
    requires Need(rt.regions) <= first.Length && Need(rt.regions) <= second.Length
    modifies rt, first, second
    ensures rt.Valid() && n == Need(rt.regions) <= first.Length && n <= second.Length
    ensures rt.content == Canonical(rt.regions, old(rt.content))
    ensures first[..n] == Image(LayoutHash(rt.regions), frame, rt.regions, rt.content)
    ensures SameButFrame(first[..n], second[..n])
  {
    n := rt.Save(first, frame);
    n := rt.Save(second, later);
    OnlyTheFrame(rt.regions, rt.content, frame, later);
  }

  /** Saving the audio branch twice: the second save finds nothing left to canonicalise, and its buffer
      differs from the first at most in the frame number. */
  method SaveTwice(rt: Runtime, first: array<byte>, second: array<byte>, frame: nat, later: nat) returns (n: nat)
    requires rt.Valid() && AudioRegistry(rt.regions) && first != second
    requires Need(rt.regions) <= first.Length && Need(rt.regions) <= second.Length
    modifies rt, first, second
    ensures rt.Valid() && n == Need(rt.regions) <= first.Length && n <= second.Length
    ensures rt.content == Canonical(rt.regions, old(rt.content))
    ensures first[..n] == Image(LayoutHash(rt.regions), frame, rt.regions, rt.content)
    ensures SameButFrame(first[..n], second[..n])
  {
    AudioStable(rt.regions, rt.content);
    n := SaveBoth(rt, first, second, frame, later);
  }

  /** A load that fails past the gates is not free of effects: a well-formed buffer whose queue counts
      nine events is refused only after both regions have been overwritten with what it holds. */
  method LoadNotAtomic(rt: Runtime, d: Content) returns (ok: bool)
    requires rt.Valid() && AudioRegistry(rt.regions) && Shaped(rt.regions, d) && d[1][8] == 9
    modifies rt
    ensures !ok && rt.content == d
  {
    ghost var c := rt.content;
    var buf := Image(LayoutHash(rt.regions), 0, rt.regions, d);
    SavedPassesGates(rt.regions, d, 0);
    NineEvents(rt.regions, buf, c, d);
    ok := rt.Load(buf);
  }

  lemma NineEvents(rs: seq<Region>, buf: seq<byte>, c: Content, d: Content)
    requires AudioRegistry(rs) && Shaped(rs, c) && Shaped(rs, d) && d[1][8] == 9
    requires buf == Image(LayoutHash(rs), 0, rs, d)
    ensures Need(rs) <= |buf|
    ensures !Succeeds(rs, Slices(rs, buf)) && Walked(rs, Slices(rs, buf), c) == d
  {
    assert buf + [] == buf;
    SliceOfImage(LayoutHash(rs), 0, rs, d, [], 0);
    SliceOfImage(LayoutHash(rs), 0, rs, d, [], 1);
    var acts := Slices(rs, buf);
    assert Good(rs, acts, 0) && !Good(rs, acts, 1);
    assert FirstBad(rs, acts, 0) == FirstBad(rs, acts, 1) == 1;
    assert Walked(rs, acts, c)[0] == AfterWalk(acts, c, 1, 0) == d[0];
    assert Walked(rs, acts, c)[1] == AfterWalk(acts, c, 1, 1) == d[1];
  }
}
