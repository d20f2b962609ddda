/** The struct versions of the native cart. */
module NativeState {
  import opened Bytes
  import opened Migration
  import opened MigrationTheorems

  const FRAME_COUNT := "frame_count"
  const SOME_VALUE := "some_value"
  const UNUSED_COUNT := "unused_count"
  const LAST_SCORE := "last_score"

  const V0 := Layout([Field(FRAME_COUNT, TI32, 0, 4), Field(SOME_VALUE, TI32, 4, 4),
                      Field(UNUSED_COUNT, TI32, 8, 4)], 12)
  const V3 := Layout([Field(FRAME_COUNT, TI32, 0, 4), Field(SOME_VALUE, TI32, 4, 4),
                      Field(UNUSED_COUNT, TI32, 8, 4), Field(LAST_SCORE, TI32, 12, 4)], 16)
  const V4 := Layout([Field(FRAME_COUNT, TI32, 0, 4), Field(SOME_VALUE, TI32, 4, 4),
                      Field(LAST_SCORE, TI32, 8, 4)], 12)
  const V5 := Layout([Field(FRAME_COUNT, TI64, 0, 8), Field(SOME_VALUE, TI32, 8, 4),
                      Field(LAST_SCORE, TI32, 12, 4)], 16)
  const V6 := Layout([Field(SOME_VALUE, TI32, 0, 4), Field(LAST_SCORE, TI32, 4, 4),
                      Field(FRAME_COUNT, TI64, 8, 8)], 16)

  /** Two's complement. */
  function Signed(s: seq<byte>): int {
    var v := FromLe(s);
    if 2 * v < Pow256(|s|) then v else v - Pow256(|s|)
  }

  function Unsigned(v: int, n: nat): (u: nat)
    requires 0 <= 2 * v + Pow256(n) < 2 * Pow256(n)
    ensures u < Pow256(n)
  {
    if v >= 0 then v else v + Pow256(n)
  }

  /** `native_state_retype_i32_to_i64`. An i32 descriptor names four bytes. */
  function Widen(field: seq<byte>, from: FieldType, to: FieldType): Option<seq<byte>> {
    if from != TI32 || to != TI64 || |field| != 4 then None
    else
      Pow256Values();
      Some(Le(Unsigned(Signed(field), 8), 8))
  }

  const WIDEN := OnRetype(Widen)

  /** The wider field denotes the same signed number. */
  lemma WidenKeepsValue(field: seq<byte>)
    requires |field| == 4
    ensures Widen(field, TI32, TI64).Some? && |Widen(field, TI32, TI64).value| == 8
    ensures Signed(Widen(field, TI32, TI64).value) == Signed(field)
  {
    Pow256Values();
    FromLeOfLe(Unsigned(Signed(field), 8), 8);
  }

  /** After the i32 -> i64 edit the counter keeps its signed value and the rest its bytes. */
  lemma V4ToV5(x: seq<byte>)
    requires |x| == V4.total
    ensures WellFormed(V5, V4) && CallbackFits(V5, V4, x, WIDEN)
    ensures var y := Migrated(V5, V4, x, WIDEN);
            Signed(y[0..8]) == Signed(x[0..4]) && y[8..12] == x[4..8] && y[12..16] == x[8..12]
  {
    V4Proper();
    V5Proper();
    FitsWellFormed(V5, V4);
    MatchUnique(V5.fields[0], V4, 0);
    MatchUnique(V5.fields[1], V4, 1);
    MatchUnique(V5.fields[2], V4, 2);
    WidenKeepsValue(x[0..4]);
    forall i | 0 <= i < |V5.fields| && FieldOk(V5.fields[i], V5, V4)
      ensures Honest(V5.fields[i], V4, x, WIDEN)
    {
      assert i == 0 || i == 1 || i == 2;
    }
    EveryFieldMigrated(V5, V4, x, WIDEN);
    assert Cut(V5.fields[0], Migrated(V5, V4, x, WIDEN)) == Expected(V5.fields[0], V4, x, WIDEN);
    assert Cut(V5.fields[1], Migrated(V5, V4, x, WIDEN)) == Expected(V5.fields[1], V4, x, WIDEN);
    assert Cut(V5.fields[2], Migrated(V5, V4, x, WIDEN)) == Expected(V5.fields[2], V4, x, WIDEN);
  }

  lemma NamesDiffer()
    ensures FRAME_COUNT != SOME_VALUE && FRAME_COUNT != UNUSED_COUNT && FRAME_COUNT != LAST_SCORE
    ensures SOME_VALUE != UNUSED_COUNT && SOME_VALUE != LAST_SCORE && UNUSED_COUNT != LAST_SCORE
  {
    assert FRAME_COUNT[0] == 'f' && SOME_VALUE[0] == 's' && UNUSED_COUNT[0] == 'u' && LAST_SCORE[0] == 'l';
  }

  lemma V0Proper()
    ensures Proper(V0)
  {
    NamesDiffer();
  }

  lemma V3Proper()
    ensures Proper(V3)
  {
    NamesDiffer();
  }

  lemma V4Proper()
    ensures Proper(V4)
  {
    NamesDiffer();
  }

  lemma V5Proper()
    ensures Proper(V5)
  {
    NamesDiffer();
  }

  lemma V6Proper()
    ensures Proper(V6)
  {
    NamesDiffer();
  }

  lemma V5V6Reordered()
    ensures Reordered(V5, V6) && Reordered(V6, V5)
  {
    V5Proper();
    V6Proper();
    assert Twin(V5.fields[0], V6.fields[2]) && Twin(V5.fields[1], V6.fields[0]) && Twin(V5.fields[2], V6.fields[1]);
    assert Twin(V6.fields[2], V5.fields[0]) && Twin(V6.fields[0], V5.fields[1]) && Twin(V6.fields[1], V5.fields[2]);
  }

  lemma NoPadding(k: nat)
    requires k < 16
    ensures Covered(V5, k) && Covered(V6, k)
  {
    var i := if k < 8 then 0 else if k < 12 then 1 else 2;
    assert V5.fields[i].Holds(k);
    var j := if k < 4 then 0 else if k < 8 then 1 else 2;
    assert V6.fields[j].Holds(k);
  }

  /** Reordering the fields and reordering them back loses nothing, in either direction. */
  lemma ReorderRoundTrip(x: seq<byte>, cb: Callback)
    requires |x| == 16
    ensures WellFormed(V5, V6) && WellFormed(V6, V5) && TypesAgree(V5, V6) && TypesAgree(V6, V5)
    ensures ThereAndBack(V5, V6, x, cb) == x && ThereAndBack(V6, V5, x, cb) == x
  {
    V5V6Reordered();
    RoundTripExact(V5, V6, x, cb);
    RoundTripExact(V6, V5, x, cb);
    forall k: nat | k < 16
      ensures Covered(V5, k) && Covered(V6, k)
    {
      NoPadding(k);
    }
  }

  /** Every field of the versions before the retype is an i32 of four bytes. */
  predicate AllI32(l: Layout) {
    forall i :: 0 <= i < |l.fields| ==> l.fields[i].typ == TI32 && l.fields[i].size == 4
  }

  lemma I32Agree(a: Layout, b: Layout)
    requires AllI32(a) && AllI32(b)
    ensures TypesAgree(a, b)
  {
  }

  /** Adding `last_score` and then dropping `unused_count` is the one-step edit that does both. */
  lemma EditsCompose(x: seq<byte>, cb: Callback)
    requires |x| == V0.total
    ensures WellFormed(V3, V0) && WellFormed(V4, V3) && WellFormed(V4, V0)
    ensures CallbackFits(V3, V0, x, cb) && CallbackFits(V4, V0, x, cb)
    ensures CallbackFits(V4, V3, Migrated(V3, V0, x, cb), cb)
    ensures Migrated(V4, V3, Migrated(V3, V0, x, cb), cb) == Migrated(V4, V0, x, cb)
  {
    V0Proper();
    V3Proper();
    V4Proper();
    I32Agree(V3, V0);
    I32Agree(V4, V3);
    I32Agree(V4, V0);
    MatchUnique(V4.fields[0], V3, 0);
    MatchUnique(V4.fields[1], V3, 1);
    MatchUnique(V4.fields[2], V3, 3);
    Composition(V0, V3, V4, x, cb);
  }
}
