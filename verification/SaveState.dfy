/** Saving the tracked regions into a buffer and loading them back. */
module SaveState {
  import opened Bytes
  import opened Describe
  import opened SaveStateSpec
  import Fnv

  class Runtime {
    const regions: seq<Region>
    var content: Content
    var layoutHash: nat
    var initialized: bool

    ghost predicate Valid()
      reads this
    {
      && Shaped(regions, content) && AllSound(regions) && FitsWord(regions)
      && Describable(regions) && (initialized ==> layoutHash == LayoutHash(regions))
    }

    constructor (regions: seq<Region>, content: Content)
      requires Shaped(regions, content) && AllSound(regions) && FitsWord(regions) && Describable(regions)
      ensures Valid() && !initialized && this.regions == regions && this.content == content
    {
      this.regions, this.content := regions, content;
      layoutHash, initialized := 0, false;
    }

    /** `save_state_init`. */
    method Init()
      requires Valid()
      modifies this`layoutHash, this`initialized
      ensures Valid() && initialized
    {
      var sink := new StringSink(DESCRIPTION_MAX);
      sink.DescribeAll(Entries(regions));
      assert sink.text == Description(Entries(regions));
      layoutHash := Fnv.Fnv1a64(sink.buf, sink.pos);
      assert sink.buf[..sink.pos] == sink.text;
      initialized := true;
    }

    /** Region i's save callback: canonicalise the live bytes, then copy them out. */
    method SaveRegion(i: nat) returns (bytes: seq<byte>)
      requires i < |regions| && Shaped(regions, content) && regions[i].Sound()
      modifies this`content
      ensures Shaped(regions, content) && |bytes| == regions[i].Size()
      ensures bytes == regions[i].canon(old(content)[i]) && content == old(content)[i := bytes]
    {
      bytes := regions[i].canon(content[i]);
      content := content[i := bytes];
    }

    /** One turn of the loop of `save_state_save`. */
    method SaveNext(buf: array<byte>, i: nat, p: nat, ghost head: seq<byte>, ghost orig: seq<byte>)
      requires i < |regions| && Shaped(regions, content) && regions[i].Sound()
      requires |head| == HEADER_SIZE && p == HEADER_SIZE + Sum(regions, i) <= |orig| && Need(regions) <= |orig|
      requires buf[..] == head + Body(content, i) + orig[p..]
      modifies this`content, buf
      ensures Shaped(regions, content) && content == old(content)[i := regions[i].canon(old(content)[i])]
      ensures p + regions[i].Size() <= |orig|
      ensures buf[..] == head + Body(content, i + 1) + orig[p + regions[i].Size()..]
    {
      ghost var before := content;
      SumNext(regions, i);
      BodyLength(regions, before, i);
      var bytes := SaveRegion(i);
      BodyPrefix(before, bytes, i);
      PutBytes(buf, p, bytes);
      assert (head + Body(before, i)) + bytes == head + (Body(before, i) + bytes);
    }

    method SaveRegions(buf: array<byte>, ghost head: seq<byte>)
      requires Shaped(regions, content) && AllSound(regions)
      requires Need(regions) <= buf.Length && |head| == HEADER_SIZE && buf[..HEADER_SIZE] == head
      modifies this`content, buf
      ensures Shaped(regions, content) && content == Canonical(regions, old(content))
      ensures buf[..] == head + Body(content, |content|) + old(buf[Need(regions)..])
    {
      var p := HEADER_SIZE;
      ghost var was, orig := content, buf[..];
      assert buf[..] == head + [] + orig[p..];
      for i := 0 to |regions|
        invariant Shaped(regions, content) && p == HEADER_SIZE + Sum(regions, i) <= |orig|
        invariant SavedUpTo(regions, content, was, i)
        invariant buf[..] == head + Body(content, i) + orig[p..]
      {
        assert regions[i].Sound() && content[i] == was[i];
        SaveNext(buf, i, p, head, orig);
        p := p + regions[i].Size();
      }
      assert content == Canonical(regions, was);
    }

    /** `save_state_save`: 0 when the buffer is too small. Saving canonicalises the live regions too. */
    method Save(buf: array<byte>, frame: nat) returns (n: nat)
      requires Valid()
      modifies this, buf
      ensures Valid() && initialized
      ensures n == (if buf.Length < Need(regions) then 0 else Need(regions))
      ensures n == 0 ==> content == old(content) && buf[..] == old(buf[..])
      ensures n > 0 ==>
                && content == Canonical(regions, old(content)) && buf[n..] == old(buf[n..])
                && buf[..n] == Image(LayoutHash(regions), frame, regions, content)
    {
      if !initialized {
        Init();
      }
      n := Need(regions);
      if buf.Length < n {
        return 0;
      }
      ghost var orig, head := buf[..], Header(layoutHash, frame, n);
      PutBytes(buf, 0, Header(layoutHash, frame, n));
      SaveRegions(buf, head);
      BodyLength(regions, content, |content|);
    }

    /** A region's load callback: the size check, the copy, and then the region's own check. */
    method LoadRegion(i: nat, src: seq<byte>) returns (ok: bool)
      requires i < |regions| && Shaped(regions, content)
      modifies this`content
      ensures Shaped(regions, content)
      ensures |src| != regions[i].Size() ==> !ok && content == old(content)
      ensures |src| == regions[i].Size() ==> ok == regions[i].accepts(src) && content == old(content)[i := src]
    {
      if |src| != regions[i].Size() {
        return false;
      }
      content := content[i := src];
      ok := regions[i].accepts(src);
    }

    /** One turn of a loading loop. */
    method LoadNext(i: nat, src: seq<byte>, ghost acts: seq<Action>) returns (ok: bool)
      requires i < |regions| == |acts| && Shaped(regions, content)
      requires |src| == regions[i].Size() && acts[i] == Commit(src)
      modifies this`content
      ensures Shaped(regions, content) && content == old(content)[i := src] && ok == regions[i].accepts(src)
      ensures Run(regions, acts, old(content), i)
           == if ok then Run(regions, acts, content, i + 1) else Outcome(content, false)
    {
      ok := LoadRegion(i, src);
    }

    /** `save_state_load`. */
    method Load(buf: seq<byte>) returns (ok: bool)
      requires Valid()
      modifies this
      ensures Valid()
      ensures !Gates(regions, LayoutHash(regions), buf) ==> !ok && content == old(content)
      ensures Gates(regions, LayoutHash(regions), buf) ==>
                && ok == Succeeds(regions, Slices(regions, buf))
                && content == Walked(regions, Slices(regions, buf), old(content))
    {
      if |buf| < HEADER_SIZE || MagicOf(buf) != MAGIC || VersionOf(buf) != VERSION {
        return false;
      }
      if !initialized {
        Init();
      }
      if HashOf(buf) != layoutHash || TotalOf(buf) > |buf| || TotalOf(buf) != Need(regions) {
        return false;
      }
      ghost var acts := Slices(regions, buf);
      RunResult(regions, acts, content);
      SlicesAt(regions, buf);
      ok := LoadRegions(buf, acts);
    }

    /** The loop of `save_state_load`: its pointer stays in the buffer and ends exactly at the total. */
    method LoadRegions(buf: seq<byte>, ghost acts: seq<Action>) returns (ok: bool)
      requires Shaped(regions, content) && |acts| == |regions| && Need(regions) <= |buf|
      requires forall i :: 0 <= i < |regions| ==> SliceAt(regions, buf, acts, i)
      modifies this`content
      ensures Shaped(regions, content)
      ensures Run(regions, acts, old(content), 0) == Outcome(content, ok)
    {
      var p, end := HEADER_SIZE, Need(regions);
      ghost var was := content;
      for i := 0 to |regions|
        invariant Shaped(regions, content) && p == HEADER_SIZE + Sum(regions, i)
        invariant Run(regions, acts, was, 0) == Run(regions, acts, content, i)
      {
        assert SliceAt(regions, buf, acts, i);
        var next := p + regions[i].Size();
        assert next <= end;
        ok := LoadNext(i, buf[p..next], acts);
        if !ok {
          return;
        }
        p := next;
      }
      assert p == end;
      ok := true;
    }
  }

  /** The description can be written and fits its buffer. */
  predicate Describable(rs: seq<Region>) {
    && (forall i :: 0 <= i < |rs| ==> PlainEntry(rs[i].entry))
    && |Description(Entries(rs))| <= DESCRIPTION_MAX
  }

  ghost predicate SavedUpTo(rs: seq<Region>, c: Content, was: Content, n: nat)
    requires |c| == |was| == |rs|
  {
    && (forall j :: 0 <= j < n && j < |c| ==> c[j] == CanonAt(rs, was, j))
    && (forall j :: n <= j < |c| ==> c[j] == was[j])
  }

  /** The walk's pointer at region i marks the slice it is handed. */
  ghost predicate SliceAt(rs: seq<Region>, buf: seq<byte>, acts: seq<Action>, i: nat)
    requires i < |rs| == |acts| && Need(rs) <= |buf|
  {
    var p := HEADER_SIZE + Sum(rs, i);
    && p + rs[i].Size() <= Need(rs) && Sum(rs, i + 1) == Sum(rs, i) + rs[i].Size()
    && acts[i] == Commit(buf[p..p + rs[i].Size()])
  }

  lemma SlicesAt(rs: seq<Region>, buf: seq<byte>)
    requires Need(rs) <= |buf|
    ensures forall i :: 0 <= i < |rs| ==> SliceAt(rs, buf, Slices(rs, buf), i)
  {
    forall i | 0 <= i < |rs|
      ensures SliceAt(rs, buf, Slices(rs, buf), i)
    {
      SumNext(rs, i);
    }
  }

  lemma BodyPrefix(c: Content, bytes: seq<byte>, n: nat)
    requires n < |c|
    ensures Body(c[n := bytes], n + 1) == Body(c, n) + bytes
  {
    BodyLocal(c, c[n := bytes], n);
  }

  lemma {:induction false} BodyLocal(c: Content, d: Content, n: nat)
    requires n <= |c| == |d| && forall i :: 0 <= i < n ==> c[i] == d[i]
    ensures Body(c, n) == Body(d, n)
  {
    if n > 0 {
      BodyLocal(c, d, n - 1);
    }
  }
}
