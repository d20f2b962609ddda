/** What migration does to a struct, field by field, and how migrations compose. */
module MigrationTheorems {
  import opened Bytes
  import opened Migration

  predicate Apart(f: Field, g: Field) {
    f.End() <= g.offset || g.End() <= f.offset
  }

  predicate DisjointFields(l: Layout) {
    forall i, j :: 0 <= i < j < |l.fields| ==> Apart(l.fields[i], l.fields[j])
  }

  predicate UniqueNames(l: Layout) {
    forall i, j :: 0 <= i < j < |l.fields| ==> l.fields[i].name != l.fields[j].name
  }

  predicate AllFit(l: Layout) {
    forall i :: 0 <= i < |l.fields| ==> Fits(l.fields[i], l)
  }

  /** A struct as a compiler lays one out. */
  predicate Proper(l: Layout) {
    DisjointFields(l) && UniqueNames(l) && AllFit(l)
  }

  predicate Covered(l: Layout, k: int) {
    exists i :: 0 <= i < |l.fields| && l.fields[i].Holds(k)
  }

  /** What new field f holds afterwards: its bytes in the old struct, the callback's output, or zero. */
  function Expected(f: Field, ol: Layout, old_: seq<byte>, cb: Callback): (v: seq<byte>)
    requires ol.total <= |old_|
    requires Match(f, ol).Some? ==> Fits(Match(f, ol).value, ol)
  {
    var w := Written(f, ol, old_, cb);
    if w.Some? then w.value else Zeros(f.size)
  }

  lemma MatchUnique(f: Field, l: Layout, i: nat)
    requires UniqueNames(l) && i < |l.fields| && l.fields[i].name == f.name
    ensures Match(f, l) == Some(l.fields[i])
  {
    var j := IndexOf(f.name, l.fields, 0);
    assert l.fields[j].name == l.fields[i].name;
  }

  lemma FitsWellFormed(nl: Layout, ol: Layout)
    requires AllFit(nl) && AllFit(ol)
    ensures WellFormed(nl, ol)
  {
    forall i | 0 <= i < |nl.fields|
      ensures FieldOk(nl.fields[i], nl, ol)
    {
      var f := nl.fields[i];
      assert Fits(f, nl);
      if Match(f, ol).Some? {
        var j := IndexOf(f.name, ol.fields, 0);
        assert Fits(ol.fields[j], ol);
      }
    }
  }

  lemma PutApart(s: seq<byte>, f: Field, v: Option<seq<byte>>, g: Field)
    requires f.End() <= |s| && g.End() <= |s| && (v.Some? ==> |v.value| == f.size) && Apart(f, g)
    ensures Cut(g, Put(s, f, v)) == Cut(g, s)
  {
    var t := Put(s, f, v);
    forall k | g.offset <= k < g.End()
      ensures t[k] == s[k]
    {
      assert k < f.offset || f.End() <= k;
    }
  }

  lemma PutHere(s: seq<byte>, f: Field, v: seq<byte>)
    requires f.End() <= |s| && |v| == f.size
    ensures Cut(f, Put(s, f, Some(v))) == v
  {
  }

  /** A field not reached yet is still zero. */
  lemma {:induction false} NotYet(nl: Layout, ol: Layout, old_: seq<byte>, cb: Callback, n: nat, g: nat)
    requires n <= g < |nl.fields| && ol.total <= |old_| && DisjointFields(nl)
    requires WellFormed(nl, ol) && CallbackFits(nl, ol, old_, cb)
    ensures FieldOk(nl.fields[g], nl, ol)
    ensures Cut(nl.fields[g], Walk(nl, ol, old_, cb, n)) == Zeros(nl.fields[g].size)
  {
    assert FieldOk(nl.fields[g], nl, ol);
    if n > 0 {
      NotYet(nl, ol, old_, cb, n - 1, g);
      var f := nl.fields[n - 1];
      assert FieldOk(f, nl, ol) && Honest(f, ol, old_, cb) && Apart(f, nl.fields[g]);
      PutApart(Walk(nl, ol, old_, cb, n - 1), f, Written(f, ol, old_, cb), nl.fields[g]);
    }
  }

  lemma {:induction false} Reached(nl: Layout, ol: Layout, old_: seq<byte>, cb: Callback, n: nat, g: nat)
    requires g < n <= |nl.fields| && ol.total <= |old_| && DisjointFields(nl)
    requires WellFormed(nl, ol) && CallbackFits(nl, ol, old_, cb)
    ensures FieldOk(nl.fields[g], nl, ol)
    ensures Cut(nl.fields[g], Walk(nl, ol, old_, cb, n)) == Expected(nl.fields[g], ol, old_, cb)
  {
    var f := nl.fields[n - 1];
    assert FieldOk(f, nl, ol) && Honest(f, ol, old_, cb) && FieldOk(nl.fields[g], nl, ol);
    var w := Written(f, ol, old_, cb);
    if g < n - 1 {
      Reached(nl, ol, old_, cb, n - 1, g);
      assert Apart(nl.fields[g], f);
      PutApart(Walk(nl, ol, old_, cb, n - 1), f, w, nl.fields[g]);
    } else {
      NotYet(nl, ol, old_, cb, n - 1, g);
      if w.Some? {
        PutHere(Walk(nl, ol, old_, cb, n - 1), f, w.value);
      }
    }
  }

  lemma {:induction false} PaddingZero(nl: Layout, ol: Layout, old_: seq<byte>, cb: Callback, n: nat, k: nat)
    requires n <= |nl.fields| && ol.total <= |old_| && k < nl.total && !Covered(nl, k)
    requires WellFormed(nl, ol) && CallbackFits(nl, ol, old_, cb)
    ensures Walk(nl, ol, old_, cb, n)[k] == 0
  {
    if n > 0 {
      PaddingZero(nl, ol, old_, cb, n - 1, k);
      var f := nl.fields[n - 1];
      assert FieldOk(f, nl, ol) && Honest(f, ol, old_, cb) && !f.Holds(k);
    }
  }

  /** Every byte of the new struct is accounted for. */
  lemma EveryFieldMigrated(nl: Layout, ol: Layout, old_: seq<byte>, cb: Callback)
    requires ol.total <= |old_| && DisjointFields(nl)
    requires WellFormed(nl, ol) && CallbackFits(nl, ol, old_, cb)
    ensures forall i :: 0 <= i < |nl.fields| ==>
              && FieldOk(nl.fields[i], nl, ol)
              && Cut(nl.fields[i], Migrated(nl, ol, old_, cb)) == Expected(nl.fields[i], ol, old_, cb)
    ensures forall k :: 0 <= k < nl.total && !Covered(nl, k) ==> Migrated(nl, ol, old_, cb)[k] == 0
  {
    forall i | 0 <= i < |nl.fields|
      ensures FieldOk(nl.fields[i], nl, ol)
      ensures Cut(nl.fields[i], Migrated(nl, ol, old_, cb)) == Expected(nl.fields[i], ol, old_, cb)
    {
      Reached(nl, ol, old_, cb, |nl.fields|, i);
    }
    forall k | 0 <= k < nl.total && !Covered(nl, k)
      ensures Migrated(nl, ol, old_, cb)[k] == 0
    {
      PaddingZero(nl, ol, old_, cb, |nl.fields|, k);
    }
  }

  lemma FirstMatch(f: Field, l: Layout, j: nat)
    requires j < |l.fields| && l.fields[j].name == f.name && forall m :: 0 <= m < j ==> l.fields[m].name != f.name
    ensures Match(f, l) == Some(l.fields[j])
  {
    var i := IndexOf(f.name, l.fields, 0);
    assert i <= j;
  }

  /** New field i, where old field j is the first of its name: the old bytes when type and size are the
      same, else the callback's; without a callback, or one that declines, zeros. */
  lemma MatchedField(nl: Layout, ol: Layout, old_: seq<byte>, cb: Callback, i: nat, j: nat)
    requires ol.total <= |old_| && DisjointFields(nl) && WellFormed(nl, ol) && CallbackFits(nl, ol, old_, cb)
    requires i < |nl.fields| && j < |ol.fields| && ol.fields[j].name == nl.fields[i].name
    requires forall m :: 0 <= m < j ==> ol.fields[m].name != nl.fields[i].name
    ensures nl.fields[i].offset + nl.fields[i].size <= nl.total
    ensures ol.fields[j].offset + ol.fields[j].size <= |old_|
    ensures var f, o := nl.fields[i], ol.fields[j];
            var was := old_[o.offset..o.offset + o.size];
            Migrated(nl, ol, old_, cb)[f.offset..f.offset + f.size]
              == if f.typ == o.typ && f.size == o.size then was
                 else if cb.OnRetype? && cb.convert(was, o.typ, f.typ).Some? then cb.convert(was, o.typ, f.typ).value
                 else Zeros(f.size)
  {
    EveryFieldMigrated(nl, ol, old_, cb);
    FirstMatch(nl.fields[i], ol, j);
    assert FieldOk(nl.fields[i], nl, ol);
  }

  /** A field that the old struct does not have is zero. */
  lemma UnmatchedField(nl: Layout, ol: Layout, old_: seq<byte>, cb: Callback, i: nat)
    requires ol.total <= |old_| && DisjointFields(nl) && WellFormed(nl, ol) && CallbackFits(nl, ol, old_, cb)
    requires i < |nl.fields| && forall j :: 0 <= j < |ol.fields| ==> ol.fields[j].name != nl.fields[i].name
    ensures nl.fields[i].offset + nl.fields[i].size <= nl.total
    ensures var f := nl.fields[i];
            Migrated(nl, ol, old_, cb)[f.offset..f.offset + f.size] == Zeros(f.size)
  {
    EveryFieldMigrated(nl, ol, old_, cb);
    assert FieldOk(nl.fields[i], nl, ol) && Match(nl.fields[i], ol).None?;
  }

  predicate SameAt(x: seq<byte>, y: seq<byte>, f: Field)
    requires f.End() <= |x| && f.End() <= |y|
  {
    Cut(f, x) == Cut(f, y)
  }

  /** Two structs that agree on every field and on the padding are equal. */
  lemma Extensional(l: Layout, x: seq<byte>, y: seq<byte>)
    requires |x| == |y| == l.total && AllFit(l)
    requires forall i :: 0 <= i < |l.fields| ==> Fits(l.fields[i], l) && SameAt(x, y, l.fields[i])
    requires forall k :: 0 <= k < l.total && !Covered(l, k) ==> x[k] == y[k]
    ensures x == y
  {
    forall k | 0 <= k < l.total
      ensures x[k] == y[k]
    {
      if Covered(l, k) {
        var i :| 0 <= i < |l.fields| && l.fields[i].Holds(k);
        var f := l.fields[i];
        assert Fits(f, l) && SameAt(x, y, f);
        assert Cut(f, x)[k - f.offset] == Cut(f, y)[k - f.offset];
      }
    }
  }

  /** Every field of a is in b, at any offset. */
  predicate Carries(a: Layout, b: Layout) {
    forall i :: 0 <= i < |a.fields| ==> HasTwin(a.fields[i], b)
  }

  predicate HasTwin(f: Field, l: Layout) {
    exists j :: 0 <= j < |l.fields| && Twin(f, l.fields[j])
  }

  predicate Twin(f: Field, g: Field) {
    f.name == g.name && Same(f, g)
  }

  lemma TwinMatch(a: Layout, b: Layout, i: nat) returns (j: nat)
    requires Carries(a, b) && UniqueNames(b) && i < |a.fields|
    ensures j < |b.fields| && Twin(a.fields[i], b.fields[j]) && Match(a.fields[i], b) == Some(b.fields[j])
  {
    assert HasTwin(a.fields[i], b);
    j :| 0 <= j < |b.fields| && Twin(a.fields[i], b.fields[j]);
    MatchUnique(a.fields[i], b, j);
  }

  /** There is nothing for a callback to do between layouts whose common fields have one type. */
  predicate TypesAgree(nl: Layout, ol: Layout) {
    forall i :: 0 <= i < |nl.fields| && Match(nl.fields[i], ol).Some? ==>
      Same(nl.fields[i], Match(nl.fields[i], ol).value)
  }

  lemma AgreeFits(nl: Layout, ol: Layout, old_: seq<byte>, cb: Callback)
    requires ol.total <= |old_| && TypesAgree(nl, ol)
    ensures CallbackFits(nl, ol, old_, cb)
  {
    forall i | 0 <= i < |nl.fields| && FieldOk(nl.fields[i], nl, ol)
      ensures Honest(nl.fields[i], ol, old_, cb)
    {
      assert Match(nl.fields[i], ol).Some? ==> Same(nl.fields[i], Match(nl.fields[i], ol).value);
    }
  }

  lemma TwinsAgree(a: Layout, b: Layout)
    requires Carries(a, b) && UniqueNames(b)
    ensures TypesAgree(a, b)
  {
    forall i | 0 <= i < |a.fields| && Match(a.fields[i], b).Some?
      ensures Same(a.fields[i], Match(a.fields[i], b).value)
    {
      var j := TwinMatch(a, b, i);
    }
  }

  /** The two hops of a round trip, when both layouts hold the same fields. */
  function ThereAndBack(a: Layout, b: Layout, x: seq<byte>, cb: Callback): (y: seq<byte>)
    requires |x| == a.total && WellFormed(a, b) && WellFormed(b, a) && TypesAgree(a, b) && TypesAgree(b, a)
    ensures |y| == a.total
  {
    AgreeFits(b, a, x, cb);
    var mid := Migrated(b, a, x, cb);
    AgreeFits(a, b, mid, cb);
    Migrated(a, b, mid, cb)
  }

  lemma BackAgain(a: Layout, b: Layout, x: seq<byte>, cb: Callback, i: nat)
    requires Proper(a) && Proper(b) && Carries(a, b) && |x| == a.total && i < |a.fields|
    requires WellFormed(a, b) && WellFormed(b, a) && TypesAgree(a, b) && TypesAgree(b, a)
    ensures Fits(a.fields[i], a) && SameAt(ThereAndBack(a, b, x, cb), x, a.fields[i])
  {
    AgreeFits(b, a, x, cb);
    var mid := Migrated(b, a, x, cb);
    AgreeFits(a, b, mid, cb);
    EveryFieldMigrated(b, a, x, cb);
    EveryFieldMigrated(a, b, mid, cb);
    var j := TwinMatch(a, b, i);
    MatchUnique(b.fields[j], a, i);
    assert FieldOk(a.fields[i], a, b) && FieldOk(b.fields[j], b, a);
  }

  predicate ZeroPadded(l: Layout, x: seq<byte>) {
    forall k :: 0 <= k < |x| && !Covered(l, k) ==> x[k] == 0
  }

  /** The same fields at different offsets. */
  predicate Reordered(a: Layout, b: Layout) {
    Proper(a) && Proper(b) && Carries(a, b) && Carries(b, a)
  }

  lemma ReorderedReady(a: Layout, b: Layout)
    requires Reordered(a, b)
    ensures WellFormed(a, b) && WellFormed(b, a) && TypesAgree(a, b) && TypesAgree(b, a)
  {
    FitsWellFormed(a, b);
    FitsWellFormed(b, a);
    TwinsAgree(a, b);
    TwinsAgree(b, a);
  }

  lemma RoundTrip(a: Layout, b: Layout, x: seq<byte>, cb: Callback)
    requires Reordered(a, b) && |x| == a.total && ZeroPadded(a, x)
    requires WellFormed(a, b) && WellFormed(b, a) && TypesAgree(a, b) && TypesAgree(b, a)
    ensures ThereAndBack(a, b, x, cb) == x
  {
    var y := ThereAndBack(a, b, x, cb);
    PaddingBack(a, b, x, cb);
    forall i | 0 <= i < |a.fields|
      ensures Fits(a.fields[i], a) && SameAt(y, x, a.fields[i])
    {
      BackAgain(a, b, x, cb, i);
    }
    Extensional(a, y, x);
  }

  /** There and back is the identity exactly when the padding of the original is zero. */
  lemma RoundTripExact(a: Layout, b: Layout, x: seq<byte>, cb: Callback)
    requires Reordered(a, b) && |x| == a.total
    ensures WellFormed(a, b) && WellFormed(b, a) && TypesAgree(a, b) && TypesAgree(b, a)
    ensures ThereAndBack(a, b, x, cb) == x <==> ZeroPadded(a, x)
  {
    ReorderedReady(a, b);
    PaddingBack(a, b, x, cb);
    if ZeroPadded(a, x) {
      RoundTrip(a, b, x, cb);
    }
  }

  lemma PaddingBack(a: Layout, b: Layout, x: seq<byte>, cb: Callback)
    requires Proper(a) && |x| == a.total
    requires WellFormed(a, b) && WellFormed(b, a) && TypesAgree(a, b) && TypesAgree(b, a)
    ensures ZeroPadded(a, ThereAndBack(a, b, x, cb))
  {
    AgreeFits(b, a, x, cb);
    AgreeFits(a, b, Migrated(b, a, x, cb), cb);
    EveryFieldMigrated(a, b, Migrated(b, a, x, cb), cb);
  }

  /** mid has every name that a and c share. */
  predicate Keeps(mid: Layout, a: Layout, c: Layout) {
    forall i :: 0 <= i < |c.fields| && Match(c.fields[i], a).Some? ==> Match(c.fields[i], mid).Some?
  }

  /** Two hops through such a layout are one hop. */
  lemma Composition(a: Layout, mid: Layout, c: Layout, x: seq<byte>, cb: Callback)
    requires Proper(a) && Proper(mid) && Proper(c) && |x| == a.total && Keeps(mid, a, c)
    requires TypesAgree(mid, a) && TypesAgree(c, mid) && TypesAgree(c, a)
    ensures WellFormed(mid, a) && WellFormed(c, mid) && WellFormed(c, a)
    ensures CallbackFits(mid, a, x, cb) && CallbackFits(c, a, x, cb)
    ensures CallbackFits(c, mid, Migrated(mid, a, x, cb), cb)
    ensures Migrated(c, mid, Migrated(mid, a, x, cb), cb) == Migrated(c, a, x, cb)
  {
    FitsWellFormed(mid, a);
    FitsWellFormed(c, mid);
    FitsWellFormed(c, a);
    AgreeFits(mid, a, x, cb);
    AgreeFits(c, a, x, cb);
    var m := Migrated(mid, a, x, cb);
    AgreeFits(c, mid, m, cb);
    var y, z := Migrated(c, mid, m, cb), Migrated(c, a, x, cb);
    EveryFieldMigrated(c, mid, m, cb);
    EveryFieldMigrated(c, a, x, cb);
    forall i | 0 <= i < |c.fields|
      ensures Fits(c.fields[i], c) && SameAt(y, z, c.fields[i])
    {
      ComposeField(a, mid, c, x, cb, i);
    }
    Extensional(c, y, z);
  }

  lemma ComposeField(a: Layout, mid: Layout, c: Layout, x: seq<byte>, cb: Callback, i: nat)
    requires Proper(a) && Proper(mid) && Proper(c) && |x| == a.total && Keeps(mid, a, c) && i < |c.fields|
    requires TypesAgree(mid, a) && TypesAgree(c, mid) && TypesAgree(c, a)
    requires WellFormed(mid, a) && WellFormed(c, mid) && WellFormed(c, a) && CallbackFits(mid, a, x, cb)
    ensures FieldOk(c.fields[i], c, mid) && FieldOk(c.fields[i], c, a)
    ensures Expected(c.fields[i], mid, Migrated(mid, a, x, cb), cb) == Expected(c.fields[i], a, x, cb)
  {
    var f := c.fields[i];
    assert FieldOk(f, c, mid) && FieldOk(f, c, a);
    EveryFieldMigrated(mid, a, x, cb);
    if Match(f, mid).Some? {
      var j := IndexOf(f.name, mid.fields, 0);
      assert FieldOk(mid.fields[j], mid, a);
      assert Match(mid.fields[j], a) == Match(f, a);
      assert Same(f, mid.fields[j]);
    }
  }
}
