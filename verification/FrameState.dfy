/** The tracked frame state, saved with one NaN pattern. */
module FrameState {
  import opened Arithmetic
  import opened Bytes
  import opened NanBits

  const MAX_MOBS: nat := 64
  const FRAME_SIZE: nat := 1316

  /** An f32 as its bit pattern, like any other 32-bit word. */
  type word = x: nat | x < U32

  datatype Mob = Mob(x: word, y: word, vx: word, vy: word, state: word)

  /** The scalar fields; each 64-bit one is its low and its high word. */
  datatype Head = Head(frame: word, rngLow: word, rngHigh: word, incLow: word, incHigh: word,
                       sin: word, cos: word, sqrt: word, misc: word)

  datatype Frame = Frame(head: Head, mobs: seq<Mob>)

  const QNAN: word := 0x7fc0_0000

  predicate IsNan(u: word) {
    u / 0x80_0000 % 0x100 == 0xff && u % 0x80_0000 != 0
  }

  /** `canonicalize_nanf`. */
  function Canon(u: word): (r: word)
    ensures IsNan(r) <==> IsNan(u)
    ensures r == u || r == QNAN
  {
    if IsNan(u) then QNAN else u
  }

  lemma CanonExactly(u: word)
    ensures Saved(Canon(u), u)
  {
    NanFields(u, 23, 31);
    Powers();
  }

  // What a save leaves of each field.

  /** A float is itself, unless its exponent bits are all set and some fraction bit is. */
  ghost predicate Saved(now: word, was: word) {
    now == if Nan(was, 23, 31) then 0x7fc0_0000 else was
  }

  ghost predicate SavedMob(now: Mob, was: Mob) {
    && Saved(now.x, was.x) && Saved(now.y, was.y) && Saved(now.vx, was.vx) && Saved(now.vy, was.vy)
    && now.state == was.state
  }

  ghost predicate SavedHead(now: Head, was: Head) {
    && now.frame == was.frame && now.rngLow == was.rngLow && now.rngHigh == was.rngHigh
    && now.incLow == was.incLow && now.incHigh == was.incHigh
    && Saved(now.sin, was.sin) && Saved(now.cos, was.cos) && Saved(now.sqrt, was.sqrt) && Saved(now.misc, was.misc)
  }

  ghost predicate SavedFrame(now: Frame, was: Frame) {
    && SavedHead(now.head, was.head) && |now.mobs| == |was.mobs|
    && forall i :: 0 <= i < |now.mobs| ==> SavedMob(now.mobs[i], was.mobs[i])
  }

  lemma CanonFields(f: Frame)
    ensures SavedFrame(CanonFrame(f), f)
  {
    CanonExactly(f.head.sin);
    CanonExactly(f.head.cos);
    CanonExactly(f.head.sqrt);
    CanonExactly(f.head.misc);
    forall i | 0 <= i < |f.mobs|
      ensures SavedMob(CanonFrame(f).mobs[i], f.mobs[i])
    {
      CanonExactly(f.mobs[i].x);
      CanonExactly(f.mobs[i].y);
      CanonExactly(f.mobs[i].vx);
      CanonExactly(f.mobs[i].vy);
    }
  }

  function CanonMob(m: Mob): Mob {
    Mob(Canon(m.x), Canon(m.y), Canon(m.vx), Canon(m.vy), m.state)
  }

  function CanonMobs(ms: seq<Mob>): (r: seq<Mob>)
    ensures |r| == |ms| && forall i :: 0 <= i < |ms| ==> r[i] == CanonMob(ms[i])
  {
    seq(|ms|, i requires 0 <= i < |ms| => CanonMob(ms[i]))
  }

  function CanonHead(h: Head): Head {
    h.(sin := Canon(h.sin), cos := Canon(h.cos), sqrt := Canon(h.sqrt), misc := Canon(h.misc))
  }

  function CanonFrame(f: Frame): Frame {
    Frame(CanonHead(f.head), CanonMobs(f.mobs))
  }

  // The byte image: packed and little-endian.

  function MobImage(m: Mob): (s: seq<byte>)
    ensures |s| == 20
  {
    Le32(m.x) + Le32(m.y) + Le32(m.vx) + Le32(m.vy) + Le32(m.state)
  }

  function MobsImage(ms: seq<Mob>): (s: seq<byte>)
    ensures |s| == 20 * |ms|
  {
    if ms == [] then [] else MobImage(ms[0]) + MobsImage(ms[1..])
  }

  function HeadImage(h: Head): (s: seq<byte>)
    ensures |s| == 36
  {
    Le32(h.frame) + Le32(h.rngLow) + Le32(h.rngHigh) + Le32(h.incLow) + Le32(h.incHigh)
    + Le32(h.sin) + Le32(h.cos) + Le32(h.sqrt) + Le32(h.misc)
  }

  function Image(f: Frame): (s: seq<byte>)
    ensures |s| == 36 + 20 * |f.mobs|
  {
    HeadImage(f.head) + MobsImage(f.mobs)
  }

  function MobOf(s: seq<byte>): Mob
    requires |s| >= 20
  {
    Mob(WordAt(s, 0), WordAt(s, 4), WordAt(s, 8), WordAt(s, 12), WordAt(s, 16))
  }

  function MobsOf(s: seq<byte>, n: nat): (ms: seq<Mob>)
    requires |s| == 20 * n
    ensures |ms| == n
  {
    if n == 0 then [] else [MobOf(s[..20])] + MobsOf(s[20..], n - 1)
  }

  function FrameOf(s: seq<byte>): (f: Frame)
    requires |s| == FRAME_SIZE
    ensures |f.mobs| == MAX_MOBS
  {
    Frame(HeadOf(s), MobsOf(s[36..], MAX_MOBS))
  }

  function HeadOf(s: seq<byte>): Head
    requires |s| >= 36
  {
    Head(WordAt(s, 0), WordAt(s, 4), WordAt(s, 8), WordAt(s, 12), WordAt(s, 16),
         WordAt(s, 20), WordAt(s, 24), WordAt(s, 28), WordAt(s, 32))
  }

  lemma MobOfImage(m: Mob)
    ensures MobOf(MobImage(m)) == m
  {
    var s := MobImage(m);
    assert s[0..4] == Le32(m.x) && s[4..8] == Le32(m.y) && s[8..12] == Le32(m.vx);
    assert s[12..16] == Le32(m.vy) && s[16..20] == Le32(m.state);
    WordBack(s, 0, m.x);
    WordBack(s, 4, m.y);
    WordBack(s, 8, m.vx);
    WordBack(s, 12, m.vy);
    WordBack(s, 16, m.state);
  }

  lemma ImageOfMob(s: seq<byte>)
    requires |s| == 20
    ensures MobImage(MobOf(s)) == s
  {
    BytesBack(s, 0);
    BytesBack(s, 4);
    BytesBack(s, 8);
    BytesBack(s, 12);
    BytesBack(s, 16);
    assert s == s[0..4] + s[4..8] + s[8..12] + s[12..16] + s[16..20];
  }

  lemma {:induction false} MobsOfImage(ms: seq<Mob>)
    ensures MobsOf(MobsImage(ms), |ms|) == ms
  {
    if ms != [] {
      MobsOfImage(ms[1..]);
      MobOfImage(ms[0]);
      assert MobsImage(ms)[..20] == MobImage(ms[0]) && MobsImage(ms)[20..] == MobsImage(ms[1..]);
    }
  }

  lemma {:induction false} ImageOfMobs(s: seq<byte>, n: nat)
    requires |s| == 20 * n
    ensures MobsImage(MobsOf(s, n)) == s
  {
    if n > 0 {
      ImageOfMobs(s[20..], n - 1);
      ImageOfMob(s[..20]);
      assert MobsOf(s, n)[1..] == MobsOf(s[20..], n - 1);
      assert s == s[..20] + s[20..];
    }
  }

  lemma HeadBack(f: Head, s: seq<byte>)
    requires |s| == 36 && s == HeadImage(f)
    ensures HeadOf(s) == f
  {
    assert s[0..4] == Le32(f.frame) && s[4..8] == Le32(f.rngLow) && s[8..12] == Le32(f.rngHigh);
    assert s[12..16] == Le32(f.incLow) && s[16..20] == Le32(f.incHigh) && s[20..24] == Le32(f.sin);
    assert s[24..28] == Le32(f.cos) && s[28..32] == Le32(f.sqrt) && s[32..36] == Le32(f.misc);
    WordBack(s, 0, f.frame);
    WordBack(s, 4, f.rngLow);
    WordBack(s, 8, f.rngHigh);
    WordBack(s, 12, f.incLow);
    WordBack(s, 16, f.incHigh);
    WordBack(s, 20, f.sin);
    WordBack(s, 24, f.cos);
    WordBack(s, 28, f.sqrt);
    WordBack(s, 32, f.misc);
  }

  lemma ImageOfHead(s: seq<byte>)
    requires |s| == 36
    ensures HeadImage(HeadOf(s)) == s
  {
    BytesBack(s, 0);
    BytesBack(s, 4);
    BytesBack(s, 8);
    BytesBack(s, 12);
    BytesBack(s, 16);
    BytesBack(s, 20);
    BytesBack(s, 24);
    BytesBack(s, 28);
    BytesBack(s, 32);
    assert s == s[0..4] + s[4..8] + s[8..12] + s[12..16] + s[16..20] + s[20..24] + s[24..28] + s[28..32] + s[32..36];
  }

  lemma HeadPrefix(a: seq<byte>, b: seq<byte>)
    requires |a| == 36
    ensures HeadOf(a + b) == HeadOf(a)
  {
  }

  /** Every frame state is recovered from its image. */
  lemma FrameOfImage(f: Frame)
    requires |f.mobs| == MAX_MOBS
    ensures FrameOf(Image(f)) == f
  {
    var h, m := HeadImage(f.head), MobsImage(f.mobs);
    HeadBack(f.head, h);
    HeadPrefix(h, m);
    assert Image(f)[36..] == m;
    MobsOfImage(f.mobs);
  }

  /** Every byte string of the struct's size is the image of exactly one frame state. */
  lemma ImageOfFrame(s: seq<byte>)
    requires |s| == FRAME_SIZE
    ensures Image(FrameOf(s)) == s
  {
    assert s == s[..36] + s[36..];
    ImageOfHead(s[..36]);
    HeadPrefix(s[..36], s[36..]);
    ImageOfMobs(s[36..], MAX_MOBS);
  }

  class FrameStateRegion {
    var head: Head
    const mobs: array<Mob>

    ghost function Value(): Frame
      reads this, mobs
    {
      Frame(head, mobs[..])
    }

    constructor ()
      ensures fresh(mobs) && mobs.Length == MAX_MOBS
    {
      head := Head(0, 0, 0, 0, 0, 0, 0, 0, 0);
      mobs := new Mob[MAX_MOBS](_ => Mob(0, 0, 0, 0, 0));
    }

    /** The canonicalising half of `save`, which is also `frame_state_canonicalize`. */
    method Canonicalize()
      requires mobs.Length == MAX_MOBS
      modifies this, mobs
      ensures Value() == CanonFrame(old(Value()))
    {
      head := head.(sin := Canon(head.sin), cos := Canon(head.cos), sqrt := Canon(head.sqrt), misc := Canon(head.misc));
      for i := 0 to MAX_MOBS
        modifies mobs
        invariant forall j :: 0 <= j < i ==> mobs[j] == CanonMob(old(mobs[j]))
        invariant forall j :: i <= j < MAX_MOBS ==> mobs[j] == old(mobs[j])
      {
        var m := mobs[i];
        m := m.(x := Canon(m.x));
        m := m.(y := Canon(m.y));
        m := m.(vx := Canon(m.vx));
        m := m.(vy := Canon(m.vy));
        mobs[i] := m;
      }
      assert mobs[..] == CanonMobs(old(mobs[..]));
    }

    /** `save`: the struct is canonicalised in place, then copied out. */
    method Save() returns (image: seq<byte>)
      requires mobs.Length == MAX_MOBS
      modifies this, mobs
      ensures Value() == CanonFrame(old(Value())) && image == Image(Value())
      ensures SavedFrame(Value(), old(Value()))
    {
      CanonFields(Value());
      Canonicalize();
      image := Image(Frame(head, mobs[..]));
    }

    /** `load`: only a buffer of the struct's size is taken, and then as it is. */
    method Load(src: seq<byte>) returns (ok: bool)
      requires mobs.Length == MAX_MOBS
      modifies this, mobs
      ensures ok == (|src| == FRAME_SIZE)
      ensures if ok then Image(Value()) == src else Value() == old(Value())
    {
      if |src| != FRAME_SIZE {
        return false;
      }
      var f := FrameOf(src);
      head := f.head;
      for i := 0 to MAX_MOBS
        modifies mobs
        invariant mobs[..i] == f.mobs[..i]
      {
        mobs[i] := f.mobs[i];
      }
      assert mobs[..] == mobs[..MAX_MOBS] == f.mobs;
      ImageOfFrame(src);
      ok := true;
    }
  }

  /** The region's bytes after a save, as a function of the bytes before it. */
  function CanonBytes(s: seq<byte>): (t: seq<byte>)
    requires |s| == FRAME_SIZE
    ensures |t| == FRAME_SIZE
  {
    Image(CanonFrame(FrameOf(s)))
  }

  lemma CanonFrameTwice(f: Frame)
    ensures CanonFrame(CanonFrame(f)) == CanonFrame(f)
  {
    assert CanonMobs(CanonMobs(f.mobs)) == CanonMobs(f.mobs);
  }

  lemma {:induction false} MobAt(s: seq<byte>, n: nat, i: nat)
    requires |s| == 20 * n && i < n
    ensures MobsOf(s, n)[i] == MobOf(s[20 * i..])
  {
    if i > 0 {
      MobAt(s[20..], n - 1, i - 1);
      assert s[20..][20 * (i - 1)..] == s[20 * i..];
    }
  }

  /** Where the struct has its fields. */
  lemma FieldOffsets(s: seq<byte>, i: nat)
    requires |s| == FRAME_SIZE && i < MAX_MOBS
    ensures var h := FrameOf(s).head;
            && h.frame == WordAt(s, 0) && h.rngLow == WordAt(s, 4) && h.rngHigh == WordAt(s, 8)
            && h.incLow == WordAt(s, 12) && h.incHigh == WordAt(s, 16) && h.sin == WordAt(s, 20)
            && h.cos == WordAt(s, 24) && h.sqrt == WordAt(s, 28) && h.misc == WordAt(s, 32)
    ensures var m, at := FrameOf(s).mobs[i], 36 + 20 * i;
            && m.x == WordAt(s, at) && m.y == WordAt(s, at + 4) && m.vx == WordAt(s, at + 8)
            && m.vy == WordAt(s, at + 12) && m.state == WordAt(s, at + 16)
  {
    MobAt(s[36..], MAX_MOBS, i);
    assert s[36..][20 * i..] == s[36 + 20 * i..];
  }

  /** The words of the struct that are floats. */
  predicate FloatAt(at: nat) {
    20 <= at < 36 || (at >= 36 && (at - 36) % 20 != 16)
  }

  lemma CanonBytesFields(s: seq<byte>)
    requires |s| == FRAME_SIZE
    ensures SavedFrame(FrameOf(CanonBytes(s)), FrameOf(s))
  {
    FrameOfImage(CanonFrame(FrameOf(s)));
    CanonFields(FrameOf(s));
  }

  ghost predicate WordSaved(now: seq<byte>, was: seq<byte>, at: nat)
    requires |now| == |was| && at + 4 <= |now|
  {
    if FloatAt(at) then Saved(WordAt(now, at), WordAt(was, at)) else WordAt(now, at) == WordAt(was, at)
  }

  lemma HeadSaved(now: seq<byte>, was: seq<byte>, at: nat)
    requires |now| == |was| == FRAME_SIZE && SavedHead(FrameOf(now).head, FrameOf(was).head)
    requires at < 36 && at % 4 == 0
    ensures WordSaved(now, was, at)
  {
    FieldOffsets(now, 0);
    FieldOffsets(was, 0);
  }

  /** The k-th word of the i-th mob. */
  lemma MobFloats(i: nat, k: nat)
    requires k < 5
    ensures FloatAt(36 + 20 * i + 4 * k) <==> k != 4
  {
    DivideUp(20, 20 * i + 4 * k, i, 4 * k);
  }

  lemma MobSlot(at: nat)
    requires 36 <= at && at + 4 <= FRAME_SIZE && at % 4 == 0
    ensures var i, k := (at - 36) / 20, (at - 36) % 20 / 4; at == 36 + 20 * i + 4 * k && i < MAX_MOBS && k < 5
  {
  }

  lemma MobSaved(now: seq<byte>, was: seq<byte>, i: nat, k: nat)
    requires |now| == |was| == FRAME_SIZE && i < MAX_MOBS && k < 5
    requires SavedMob(FrameOf(now).mobs[i], FrameOf(was).mobs[i])
    ensures WordSaved(now, was, 36 + 20 * i + 4 * k)
  {
    FieldOffsets(now, i);
    FieldOffsets(was, i);
    MobFloats(i, k);
    assert k == 0 || k == 1 || k == 2 || k == 3 || k == 4;
  }

  /** A save of the region's bytes, word by word. */
  lemma SavedWord(s: seq<byte>, at: nat)
    requires |s| == FRAME_SIZE && at + 4 <= FRAME_SIZE && at % 4 == 0
    ensures WordSaved(CanonBytes(s), s, at)
  {
    CanonBytesFields(s);
    if at < 36 {
      HeadSaved(CanonBytes(s), s, at);
    } else {
      MobSlot(at);
      MobSaved(CanonBytes(s), s, (at - 36) / 20, (at - 36) % 20 / 4);
    }
  }

  ghost predicate NanFree(s: seq<byte>)
    requires |s| == FRAME_SIZE
  {
    forall at: nat :: at + 4 <= FRAME_SIZE && at % 4 == 0 && FloatAt(at) ==> !Nan(WordAt(s, at), 23, 31)
  }

  lemma SameWords(s: seq<byte>, t: seq<byte>)
    requires |s| == |t| == FRAME_SIZE
    requires forall at: nat :: at + 4 <= FRAME_SIZE && at % 4 == 0 ==> WordAt(s, at) == WordAt(t, at)
    ensures s == t
  {
    forall k | 0 <= k < FRAME_SIZE
      ensures s[k] == t[k]
    {
      var at := k - k % 4;
      BytesBack(s, at);
      BytesBack(t, at);
      assert s[k] == s[at..at + 4][k - at] && t[k] == t[at..at + 4][k - at];
    }
  }

  /** A save changes nothing where there are no NaNs. */
  lemma NanFreeStays(s: seq<byte>)
    requires |s| == FRAME_SIZE && NanFree(s)
    ensures CanonBytes(s) == s
  {
    forall at: nat | at + 4 <= FRAME_SIZE && at % 4 == 0
      ensures WordAt(CanonBytes(s), at) == WordAt(s, at)
    {
      SavedWord(s, at);
    }
    SameWords(CanonBytes(s), s);
  }

  /** A saved frame state holds no NaN but the canonical one, so saving it again changes nothing. */
  lemma CanonBytesTwice(s: seq<byte>)
    requires |s| == FRAME_SIZE
    ensures CanonBytes(CanonBytes(s)) == CanonBytes(s)
  {
    FrameOfImage(CanonFrame(FrameOf(s)));
    CanonFrameTwice(FrameOf(s));
  }
}
