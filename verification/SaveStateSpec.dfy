/** The save buffer: a header and the regions' bytes in registry order. */
module SaveStateSpec {
  import opened Bytes
  import opened Describe
  import Fnv

  const MAGIC: nat := 0x4643_3253
  const VERSION: nat := 1
  const HEADER_SIZE: nat := 24
  const DESCRIPTION_MAX: nat := 4096

  /** A tracked region: what its save callback makes of its bytes, and which bytes its load callback
      keeps. Every load callback copies before it decides. */
  datatype Region = Region(entry: Entry, canon: seq<byte> -> seq<byte>, accepts: seq<byte> -> bool) {
    function Size(): nat { entry.size }

    ghost predicate Sound() {
      forall s: seq<byte> :: |s| == Size() ==> |canon(s)| == Size()
    }
  }

  function Entries(rs: seq<Region>): (es: seq<Entry>)
    ensures |es| == |rs| && forall i :: 0 <= i < |rs| ==> es[i] == rs[i].entry
  {
    seq(|rs|, i requires 0 <= i < |rs| => rs[i].entry)
  }

  function LayoutHash(rs: seq<Region>): nat {
    Fnv.Hash(Description(Entries(rs)), Fnv.OFFSET)
  }

  type Content = seq<seq<byte>>

  predicate Shaped(rs: seq<Region>, c: Content) {
    |c| == |rs| && forall i :: 0 <= i < |rs| ==> |c[i]| == rs[i].Size()
  }

  ghost predicate AllSound(rs: seq<Region>) {
    forall i :: 0 <= i < |rs| ==> rs[i].Sound()
  }

  /** Bytes of the first n regions. */
  function Sum(rs: seq<Region>, n: nat): nat
    requires n <= |rs|
  {
    if n == 0 then 0 else Sum(rs, n - 1) + rs[n - 1].Size()
  }

  function Need(rs: seq<Region>): nat {
    HEADER_SIZE + Sum(rs, |rs|)
  }

  /** The registry's sizes fit the 32-bit size field. */
  predicate FitsWord(rs: seq<Region>) {
    Need(rs) < U32
  }

  lemma {:induction false} SumGrows(rs: seq<Region>, m: nat, n: nat)
    requires m <= n <= |rs|
    ensures Sum(rs, m) <= Sum(rs, n)
  {
    if m < n {
      SumGrows(rs, m, n - 1);
    }
  }

  lemma SumNext(rs: seq<Region>, i: nat)
    requires i < |rs|
    ensures Sum(rs, i + 1) == Sum(rs, i) + rs[i].Size()
    ensures HEADER_SIZE + Sum(rs, i + 1) <= Need(rs)
  {
    SumGrows(rs, i + 1, |rs|);
  }

  function Header(hash: nat, frame: nat, total: nat): (s: seq<byte>)
    ensures |s| == HEADER_SIZE
  {
    Le32(MAGIC) + Le32(VERSION) + Le64(hash) + Le32(frame) + Le32(total)
  }

  function CanonAt(rs: seq<Region>, c: Content, i: nat): seq<byte>
    requires |c| == |rs| && i < |rs|
  {
    rs[i].canon(c[i])
  }

  /** The regions' bytes after every save callback has run. */
  function Canonical(rs: seq<Region>, c: Content): (r: Content)
    requires |c| == |rs|
    ensures |r| == |rs| && forall i :: 0 <= i < |rs| ==> r[i] == CanonAt(rs, c, i)
  {
    seq(|rs|, i requires 0 <= i < |rs| => CanonAt(rs, c, i))
  }

  /** The first n regions, one after the other. */
  function Body(c: Content, n: nat): seq<byte>
    requires n <= |c|
  {
    if n == 0 then [] else Body(c, n - 1) + c[n - 1]
  }

  lemma {:induction false} BodyLength(rs: seq<Region>, c: Content, n: nat)
    requires Shaped(rs, c) && n <= |rs|
    ensures |Body(c, n)| == Sum(rs, n)
  {
    if n > 0 {
      BodyLength(rs, c, n - 1);
    }
  }

  function Image(hash: nat, frame: nat, rs: seq<Region>, c: Content): seq<byte>
    requires |c| == |rs|
  {
    Header(hash, frame, Need(rs)) + Body(c, |c|)
  }

  // Reading.

  function MagicOf(s: seq<byte>): nat requires |s| >= HEADER_SIZE { WordAt(s, 0) }
  function VersionOf(s: seq<byte>): nat requires |s| >= HEADER_SIZE { WordAt(s, 4) }
  function HashOf(s: seq<byte>): nat requires |s| >= HEADER_SIZE { WordAt(s, 8) + U32 * WordAt(s, 12) }
  function FrameOf(s: seq<byte>): nat requires |s| >= HEADER_SIZE { WordAt(s, 16) }
  function TotalOf(s: seq<byte>): nat requires |s| >= HEADER_SIZE { WordAt(s, 20) }

  /** The words of the header: "S2CF" in memory, the version, the hash, the frame number, the size. */
  predicate HeaderAt(s: seq<byte>, hash: nat, frame: nat, total: nat) {
    && |s| >= 24 && s[..4] == [0x53, 0x32, 0x43, 0x46] && WordAt(s, 4) == 1
    && WordAt(s, 8) + 0x1_0000_0000 * WordAt(s, 12) == hash && WordAt(s, 16) == frame && WordAt(s, 20) == total
  }

  lemma HeaderBack(hash: nat, frame: nat, total: nat, rest: seq<byte>)
    requires hash < U64 && frame < U32 && total < U32
    ensures var s := Header(hash, frame, total) + rest;
            && MagicOf(s) == MAGIC && VersionOf(s) == VERSION && HashOf(s) == hash
            && FrameOf(s) == frame && TotalOf(s) == total
    ensures HeaderAt(Header(hash, frame, total) + rest, hash, frame, total)
  {
    var s := Header(hash, frame, total) + rest;
    WordBack(s, 0, MAGIC);
    WordBack(s, 4, VERSION);
    WordBack(s, 8, hash % U32);
    WordBack(s, 12, hash / U32);
    WordBack(s, 16, frame);
    WordBack(s, 20, total);
  }

  /** The checks `save_state_load` makes before it touches a region. */
  predicate Gates(rs: seq<Region>, hash: nat, buf: seq<byte>) {
    && |buf| >= HEADER_SIZE && MagicOf(buf) == MAGIC && VersionOf(buf) == VERSION
    && HashOf(buf) == hash && TotalOf(buf) <= |buf| && TotalOf(buf) == Need(rs)
  }

  lemma MagicBytes(s: seq<byte>)
    requires |s| >= 4
    ensures WordAt(s, 0) == MAGIC <==> s[..4] == [0x53, 0x32, 0x43, 0x46]
  {
    BytesBack(s, 0);
    assert Le32(MAGIC) == [0x53, 0x32, 0x43, 0x46];
    assert s[0..4] == s[..4];
  }

  /** A buffer passes the gates exactly when it begins with the header of this layout, version and size,
      whatever the frame number, and is long enough for it. */
  lemma GatesExactly(rs: seq<Region>, hash: nat, buf: seq<byte>)
    requires hash < U64
    ensures Gates(rs, hash, buf) <==> Need(rs) <= |buf| && exists frame: nat :: HeaderAt(buf, hash, frame, Need(rs))
  {
    if |buf| >= 24 {
      MagicBytes(buf);
      if Gates(rs, hash, buf) {
        assert HeaderAt(buf, hash, FrameOf(buf), Need(rs));
      }
    }
  }

  /** Region i's bytes in a buffer that passed the gates. */
  function Slice(rs: seq<Region>, buf: seq<byte>, i: nat): (s: seq<byte>)
    requires i < |rs| && Need(rs) <= |buf|
    ensures |s| == rs[i].Size()
  {
    SumGrows(rs, i + 1, |rs|);
    buf[HEADER_SIZE + Sum(rs, i)..HEADER_SIZE + Sum(rs, i + 1)]
  }

  // Walking the registry.

  /** What a load does at one region: give up before touching it, or hand its load callback these bytes. */
  datatype Action = Stop | Commit(bytes: seq<byte>)

  predicate Good(rs: seq<Region>, acts: seq<Action>, i: nat)
    requires i < |rs| == |acts|
  {
    acts[i].Commit? && rs[i].accepts(acts[i].bytes)
  }

  /** The first region at which the walk fails, or the number of regions. */
  function FirstBad(rs: seq<Region>, acts: seq<Action>, from: nat): (b: nat)
    requires from <= |rs| == |acts|
    ensures from <= b <= |rs| && (b < |rs| ==> !Good(rs, acts, b))
    ensures forall i :: from <= i < b ==> Good(rs, acts, i)
    decreases |rs| - from
  {
    if from == |rs| || !Good(rs, acts, from) then from else FirstBad(rs, acts, from + 1)
  }

  /** Region i's bytes when the walk has failed at region b or, if b is |rs|, finished. */
  function AfterWalk(acts: seq<Action>, c: Content, b: nat, i: nat): seq<byte>
    requires i < |c| == |acts|
  {
    if acts[i].Commit? && i <= b then acts[i].bytes else c[i]
  }

  function Walked(rs: seq<Region>, acts: seq<Action>, c: Content): (r: Content)
    requires |rs| == |acts| == |c|
    ensures |r| == |c| && forall i :: 0 <= i < |c| ==> r[i] == AfterWalk(acts, c, FirstBad(rs, acts, 0), i)
  {
    seq(|c|, i requires 0 <= i < |c| => AfterWalk(acts, c, FirstBad(rs, acts, 0), i))
  }

  datatype Outcome = Outcome(content: Content, ok: bool)

  /** The walk as the code makes it, from region i on. */
  function Run(rs: seq<Region>, acts: seq<Action>, c: Content, i: nat): Outcome
    requires i <= |rs| == |acts| == |c|
    decreases |rs| - i
  {
    if i == |rs| then Outcome(c, true)
    else if acts[i].Stop? then Outcome(c, false)
    else
      var d := c[i := acts[i].bytes];
      if rs[i].accepts(acts[i].bytes) then Run(rs, acts, d, i + 1) else Outcome(d, false)
  }

  /** Every region before the first bad one is committed, that one too if it was handed anything,
      and the rest keep their bytes. */
  lemma {:induction false} RunIsWalked(rs: seq<Region>, acts: seq<Action>, c: Content, i: nat)
    requires i <= |rs| == |acts| == |c|
    ensures |Run(rs, acts, c, i).content| == |c|
    ensures Run(rs, acts, c, i).ok <==> FirstBad(rs, acts, i) == |rs|
    ensures forall j :: 0 <= j < |c| ==>
              Run(rs, acts, c, i).content[j] == (if i <= j then AfterWalk(acts, c, FirstBad(rs, acts, i), j) else c[j])
    decreases |rs| - i
  {
    if i < |rs| && acts[i].Commit? && rs[i].accepts(acts[i].bytes) {
      RunIsWalked(rs, acts, c[i := acts[i].bytes], i + 1);
    }
  }

  predicate Succeeds(rs: seq<Region>, acts: seq<Action>)
    requires |rs| == |acts|
  {
    FirstBad(rs, acts, 0) == |rs|
  }

  lemma RunResult(rs: seq<Region>, acts: seq<Action>, c: Content)
    requires |rs| == |acts| == |c|
    ensures Run(rs, acts, c, 0) == Outcome(Walked(rs, acts, c), Succeeds(rs, acts))
  {
    RunIsWalked(rs, acts, c, 0);
    assert Run(rs, acts, c, 0).content == Walked(rs, acts, c);
  }

  /** What a walk hands over has the region's size. */
  predicate RightSized(rs: seq<Region>, acts: seq<Action>)
    requires |rs| == |acts|
  {
    forall i :: 0 <= i < |rs| && acts[i].Commit? ==> |acts[i].bytes| == rs[i].Size()
  }

  /** The regions handed anything up to and including the failing one have no bytes. */
  predicate HandsOverNothing(rs: seq<Region>, acts: seq<Action>)
    requires |rs| == |acts|
  {
    forall i :: 0 <= i <= FirstBad(rs, acts, 0) && i < |rs| && acts[i].Commit? ==> rs[i].Size() == 0
  }

  /** Whatever the regions held: they are all replaced, or none of them is changed. */
  ghost predicate AllOrNothing(rs: seq<Region>, acts: seq<Action>)
    requires |rs| == |acts|
  {
    forall c :: Shaped(rs, c) ==> Succeeds(rs, acts) || Walked(rs, acts, c) == c
  }

  /** Exactly when the walk succeeds or the regions it gets to before it fails have no bytes. */
  lemma AtomicExactly(rs: seq<Region>, acts: seq<Action>)
    requires |rs| == |acts| && RightSized(rs, acts)
    ensures AllOrNothing(rs, acts) <==> Succeeds(rs, acts) || HandsOverNothing(rs, acts)
  {
    var b := FirstBad(rs, acts, 0);
    if HandsOverNothing(rs, acts) {
      forall c | Shaped(rs, c)
        ensures Walked(rs, acts, c) == c
      {
        forall i | 0 <= i < |rs|
          ensures Walked(rs, acts, c)[i] == c[i]
        {
          assert Walked(rs, acts, c)[i] == AfterWalk(acts, c, b, i);
        }
      }
    } else if !Succeeds(rs, acts) {
      var i :| 0 <= i <= b && i < |rs| && acts[i].Commit? && rs[i].Size() > 0;
      var c := Unlike(rs, acts);
      assert Walked(rs, acts, c)[i] == AfterWalk(acts, c, b, i);
      assert Walked(rs, acts, c)[i][0] != c[i][0];
    }
  }

  /** A content that differs in every byte from what the walk hands over. */
  function Unlike(rs: seq<Region>, acts: seq<Action>): (c: Content)
    requires |rs| == |acts| && RightSized(rs, acts)
    ensures Shaped(rs, c)
    ensures forall i :: 0 <= i < |rs| && acts[i].Commit? ==>
              forall k :: 0 <= k < rs[i].Size() ==> c[i][k] != acts[i].bytes[k]
  {
    seq(|rs|, i requires 0 <= i < |rs| =>
      if acts[i].Commit? then Flipped(acts[i].bytes) else Zeros(rs[i].Size()))
  }

  function Flipped(s: seq<byte>): (t: seq<byte>)
    ensures |t| == |s| && forall k :: 0 <= k < |s| ==> t[k] != s[k]
  {
    seq(|s|, k requires 0 <= k < |s| => 255 - s[k])
  }

  lemma {:induction false} NoBytes(rs: seq<Region>, n: nat)
    requires n <= |rs|
    ensures Sum(rs, n) == 0 <==> forall i :: 0 <= i < n ==> rs[i].Size() == 0
  {
    if n > 0 {
      NoBytes(rs, n - 1);
    }
  }

  lemma FirstBadIs(rs: seq<Region>, acts: seq<Action>, b: nat)
    requires b <= |rs| == |acts| && (b < |rs| ==> !Good(rs, acts, b)) && forall i :: 0 <= i < b ==> Good(rs, acts, i)
    ensures FirstBad(rs, acts, 0) == b
  {
    var c := FirstBad(rs, acts, 0);
    assert !(c < b) && !(b < c);
  }

  /** The same by the first bad region: everything before it, and itself if it was handed anything, has
      no bytes. */
  lemma AtomicAt(rs: seq<Region>, acts: seq<Action>, b: nat)
    requires |rs| == |acts| && RightSized(rs, acts) && b == FirstBad(rs, acts, 0)
    ensures AllOrNothing(rs, acts) <==> b == |rs| || Sum(rs, if acts[b].Commit? then b + 1 else b) == 0
  {
    AtomicExactly(rs, acts);
    if b < |rs| {
      NoBytes(rs, if acts[b].Commit? then b + 1 else b);
      assert forall i :: 0 <= i < b ==> Good(rs, acts, i);
    }
  }

  lemma SuccessIsGood(rs: seq<Region>, acts: seq<Action>)
    requires |rs| == |acts|
    ensures Succeeds(rs, acts) <==> forall i :: 0 <= i < |rs| ==> Good(rs, acts, i)
  {
  }

  /** A walk that succeeds has handed over every region. */
  lemma SuccessCommitsAll(rs: seq<Region>, acts: seq<Action>, c: Content)
    requires |rs| == |acts| == |c| && Succeeds(rs, acts)
    ensures forall i :: 0 <= i < |rs| ==> Good(rs, acts, i) && Walked(rs, acts, c)[i] == acts[i].bytes
  {
    forall i | 0 <= i < |rs|
      ensures Good(rs, acts, i) && Walked(rs, acts, c)[i] == acts[i].bytes
    {
      assert Walked(rs, acts, c)[i] == AfterWalk(acts, c, |rs|, i);
    }
  }

  /** `save_state_load` past the gates: every region is handed its slice. */
  function Slices(rs: seq<Region>, buf: seq<byte>): (acts: seq<Action>)
    requires Need(rs) <= |buf|
    ensures |acts| == |rs| && forall i :: 0 <= i < |rs| ==> acts[i] == Commit(Slice(rs, buf, i))
  {
    seq(|rs|, i requires 0 <= i < |rs| => Commit(Slice(rs, buf, i)))
  }

  /** The first region whose load callback refuses its slice, or the number of regions. */
  function FirstRefusal(rs: seq<Region>, buf: seq<byte>, from: nat): (b: nat)
    requires from <= |rs| && Need(rs) <= |buf|
    ensures from <= b <= |rs|
    ensures b < |rs| ==> !rs[b].accepts(Slice(rs, buf, b))
    ensures forall i :: from <= i < b ==> rs[i].accepts(Slice(rs, buf, i))
    decreases |rs| - from
  {
    if from == |rs| || !rs[from].accepts(Slice(rs, buf, from)) then from else FirstRefusal(rs, buf, from + 1)
  }

  lemma {:induction false} FirstBadSlice(rs: seq<Region>, buf: seq<byte>, from: nat)
    requires from <= |rs| && Need(rs) <= |buf|
    ensures FirstBad(rs, Slices(rs, buf), from) == FirstRefusal(rs, buf, from)
    decreases |rs| - from
  {
    if from < |rs| {
      assert Slices(rs, buf)[from] == Commit(Slice(rs, buf, from));
      FirstBadSlice(rs, buf, from + 1);
    }
  }

  /** `save_state_load` past its gates: no partial mutation, whatever the regions held, exactly when
      every load callback takes its slice or the regions up to the first that does not have no bytes. */
  lemma LoadAtomicExactly(rs: seq<Region>, buf: seq<byte>)
    requires Need(rs) <= |buf|
    ensures var b := FirstRefusal(rs, buf, 0);
            AllOrNothing(rs, Slices(rs, buf)) <==> b == |rs| || Sum(rs, b + 1) == 0
  {
    var acts, b := Slices(rs, buf), FirstRefusal(rs, buf, 0);
    FirstBadSlice(rs, buf, 0);
    AtomicAt(rs, acts, b);
  }

  /** The slices of a saved buffer are the saved regions. */
  lemma SliceOfImage(hash: nat, frame: nat, rs: seq<Region>, c: Content, rest: seq<byte>, i: nat)
    requires Shaped(rs, c) && i < |rs|
    ensures Need(rs) <= |Image(hash, frame, rs, c) + rest|
    ensures Slice(rs, Image(hash, frame, rs, c) + rest, i) == c[i]
  {
    BodyLength(rs, c, |c|);
    BodyLength(rs, c, i);
    SumGrows(rs, i + 1, |rs|);
    BodySlice(rs, c, |c|, i);
    var h, b := Header(hash, frame, Need(rs)), Body(c, |c|);
    assert ((h + b) + rest)[|h| + Sum(rs, i)..|h| + Sum(rs, i + 1)] == b[Sum(rs, i)..Sum(rs, i + 1)];
  }

  lemma {:induction false} BodySlice(rs: seq<Region>, c: Content, n: nat, i: nat)
    requires Shaped(rs, c) && i < n <= |c|
    ensures Sum(rs, i) <= Sum(rs, i + 1) <= |Body(c, n)|
    ensures Body(c, n)[Sum(rs, i)..Sum(rs, i + 1)] == c[i]
  {
    BodyLength(rs, c, n);
    BodyLength(rs, c, n - 1);
    if i < n - 1 {
      SumGrows(rs, i + 1, n - 1);
      BodySlice(rs, c, n - 1, i);
    }
  }
}
