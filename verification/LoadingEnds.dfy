/** When loading ends, on any dependency graph. */
module LoadingEnds {
  import opened Bytes
  import opened LoaderSpec

  /** What is still to be loaded, first thing first, and what the registry holds. */
  datatype Walk = Walk(stack: seq<string>, seen: seq<string>)

  /** One step of the traversal as `fc32_load_lib` makes it: a registered library is passed over, a
      missing one gives up the whole walk, and any other is entered, though only the first LIB_MAX are
      registered. */
  function Visit(fs: map<string, Image>, w: Walk): Walk {
    if w.stack == [] then w
    else if w.stack[0] in w.seen then Walk(w.stack[1..], w.seen)
    else if w.stack[0] !in fs then Walk([], w.seen)
    else Walk(fs[w.stack[0]].needed + w.stack[1..], if |w.seen| < LIB_MAX then w.seen + [w.stack[0]] else w.seen)
  }

  function Visits(fs: map<string, Image>, w: Walk, n: nat): Walk
    decreases n
  {
    if n == 0 then w else Visits(fs, Visit(fs, w), n - 1)
  }

  ghost predicate Ends(fs: map<string, Image>, w: Walk) {
    exists n: nat :: Visits(fs, w, n).stack == []
  }

  /** Until the registry is full, and as long as nothing is missing, these are the steps of the preorder. */
  lemma VisitIsPreorder(fs: map<string, Image>, w: Walk)
    requires |w.seen| < LIB_MAX
    requires w.stack != [] ==> w.stack[0] in w.seen || w.stack[0] in fs
    ensures Preorder(fs, Visit(fs, w).stack, Visit(fs, w).seen) == Preorder(fs, w.stack, w.seen)
  {
  }

  lemma {:induction false} VisitsAdd(fs: map<string, Image>, w: Walk, m: nat, n: nat)
    ensures Visits(fs, w, m + n) == Visits(fs, Visits(fs, w, m), n)
    decreases m
  {
    if m > 0 {
      VisitsAdd(fs, Visit(fs, w), m - 1, n);
    }
  }

  lemma EndsAfter(fs: map<string, Image>, w: Walk, m: nat)
    requires Ends(fs, Visits(fs, w, m))
    ensures Ends(fs, w)
  {
    var n: nat :| Visits(fs, Visits(fs, w, m), n).stack == [];
    VisitsAdd(fs, w, m, n);
  }

  lemma EndsNext(fs: map<string, Image>, w: Walk)
    ensures Ends(fs, w) <==> Ends(fs, Visit(fs, w))
  {
    assert Visits(fs, w, 1) == Visits(fs, Visit(fs, w), 0) == Visit(fs, w);
    if Ends(fs, w) {
      var n: nat :| Visits(fs, w, n).stack == [];
      if n > 0 {
        assert Visits(fs, Visit(fs, w), n - 1).stack == [];
      } else {
        assert Visits(fs, Visit(fs, w), 0).stack == [];
      }
    } else if Ends(fs, Visit(fs, w)) {
      EndsAfter(fs, w, 1);
    }
  }

  // With a full registry.

  /** The unregistered libraries that s leads to, itself included, form chains of at most k. */
  predicate FinishesWithin(fs: map<string, Image>, seen: seq<string>, s: string, k: nat)
    decreases k
  {
    s in seen || (k > 0 && s in fs && forall d :: d in fs[s].needed ==> FinishesWithin(fs, seen, d, k - 1))
  }

  /** Loading s comes to an end without giving up. */
  ghost predicate Finishes(fs: map<string, Image>, seen: seq<string>, s: string) {
    exists k: nat :: FinishesWithin(fs, seen, s, k)
  }

  /** The first of a list whose loading does not. */
  ghost function Blocker(fs: map<string, Image>, seen: seq<string>, names: seq<string>): (b: Option<string>)
    ensures b.Some? ==> b.value in names && !Finishes(fs, seen, b.value)
    ensures b.None? ==> forall s :: s in names ==> Finishes(fs, seen, s)
  {
    if names == [] then None
    else if !Finishes(fs, seen, names[0]) then Some(names[0])
    else Blocker(fs, seen, names[1..])
  }

  /** An available, unregistered library that is held up by one of the set. */
  ghost predicate HeldUp(fs: map<string, Image>, seen: seq<string>, s: string, t: set<string>) {
    && s in fs && s !in seen
    && Blocker(fs, seen, fs[s].needed).Some? && Blocker(fs, seen, fs[s].needed).value in t
  }

  /** Libraries that hold up each other. */
  ghost predicate Trap(fs: map<string, Image>, seen: seq<string>, t: set<string>) {
    forall s {:trigger HeldUp(fs, seen, s, t)} :: s in t ==> HeldUp(fs, seen, s, t)
  }

  /** What holds up the stack is in a trap. */
  ghost predicate Trapped(fs: map<string, Image>, w: Walk) {
    && Blocker(fs, w.seen, w.stack).Some?
    && exists t :: Trap(fs, w.seen, t) && Blocker(fs, w.seen, w.stack).value in t
  }

  lemma {:induction false} FinishesLonger(fs: map<string, Image>, seen: seq<string>, s: string, k: nat, m: nat)
    requires FinishesWithin(fs, seen, s, k) && k <= m
    ensures FinishesWithin(fs, seen, s, m)
    decreases k
  {
    if s !in seen {
      forall d | d in fs[s].needed
        ensures FinishesWithin(fs, seen, d, m - 1)
      {
        FinishesLonger(fs, seen, d, k - 1, m - 1);
      }
    }
  }

  ghost predicate AllWithin(fs: map<string, Image>, seen: seq<string>, names: seq<string>, k: nat) {
    forall s :: s in names ==> FinishesWithin(fs, seen, s, k)
  }

  /** Finitely many that finish do so within one bound. */
  lemma {:induction false} OneBound(fs: map<string, Image>, seen: seq<string>, names: seq<string>) returns (k: nat)
    requires forall s :: s in names ==> Finishes(fs, seen, s)
    ensures AllWithin(fs, seen, names, k)
  {
    if names == [] {
      k := 0;
    } else {
      var m := OneBound(fs, seen, names[1..]);
      assert Finishes(fs, seen, names[0]);
      var n: nat :| FinishesWithin(fs, seen, names[0], n);
      k := m + n;
      forall s | s in names
        ensures FinishesWithin(fs, seen, s, k)
      {
        if s == names[0] {
          FinishesLonger(fs, seen, s, n, k);
        } else {
          assert s in names[1..];
          FinishesLonger(fs, seen, s, m, k);
        }
      }
    }
  }

  /** A library whose dependencies all finish does so itself. */
  lemma FinishesAbove(fs: map<string, Image>, seen: seq<string>, s: string)
    requires s in fs && forall d :: d in fs[s].needed ==> Finishes(fs, seen, d)
    ensures Finishes(fs, seen, s)
  {
    var k := OneBound(fs, seen, fs[s].needed);
    assert FinishesWithin(fs, seen, s, k + 1);
  }

  lemma FinishesBelow(fs: map<string, Image>, seen: seq<string>, s: string)
    requires Finishes(fs, seen, s) && s !in seen
    ensures s in fs && forall d :: d in fs[s].needed ==> Finishes(fs, seen, d)
  {
    var k: nat :| FinishesWithin(fs, seen, s, k);
    forall d | d in fs[s].needed
      ensures Finishes(fs, seen, d)
    {
      assert FinishesWithin(fs, seen, d, k - 1);
    }
  }

  lemma {:induction false} BlockerAppend(fs: map<string, Image>, seen: seq<string>, a: seq<string>, b: seq<string>)
    ensures Blocker(fs, seen, a + b)
         == if Blocker(fs, seen, a).Some? then Blocker(fs, seen, a) else Blocker(fs, seen, b)
  {
    if a == [] {
      assert a + b == b;
    } else {
      BlockerAppend(fs, seen, a[1..], b);
      assert (a + b)[0] == a[0] && (a + b)[1..] == a[1..] + b;
    }
  }

  /** Visiting a library that finishes does not change what holds up the stack; visiting one that does
      not leaves its own blocker in its place. */
  lemma BlockerVisited(fs: map<string, Image>, w: Walk)
    requires |w.seen| >= LIB_MAX && w.stack != [] && (w.stack[0] in w.seen || w.stack[0] in fs)
    ensures var s, b := w.stack[0], Blocker(fs, w.seen, Visit(fs, w).stack);
            b == if s in w.seen || Finishes(fs, w.seen, s) then Blocker(fs, w.seen, w.stack)
                 else Blocker(fs, w.seen, fs[s].needed)
    ensures !Finishes(fs, w.seen, w.stack[0]) ==> w.stack[0] !in w.seen
  {
    var s := w.stack[0];
    if s in w.seen {
      assert FinishesWithin(fs, w.seen, s, 0);
    } else {
      BlockerAppend(fs, w.seen, fs[s].needed, w.stack[1..]);
      if Finishes(fs, w.seen, s) {
        FinishesBelow(fs, w.seen, s);
      } else if Blocker(fs, w.seen, fs[s].needed).None? {
        FinishesAbove(fs, w.seen, s);
      }
    }
  }

  /** A trapped walk stays trapped. */
  lemma TrappedVisited(fs: map<string, Image>, w: Walk)
    requires |w.seen| >= LIB_MAX && Trapped(fs, w)
    ensures w.stack != [] && Visit(fs, w).seen == w.seen && Trapped(fs, Visit(fs, w))
  {
    var b, t :| b == Blocker(fs, w.seen, w.stack) && Trap(fs, w.seen, t) && b.value in t;
    var s := w.stack[0];
    assert HeldUp(fs, w.seen, b.value, t);
    if Finishes(fs, w.seen, s) && s !in w.seen {
      FinishesBelow(fs, w.seen, s);
    }
    BlockerVisited(fs, w);
    assert Blocker(fs, w.seen, Visit(fs, w).stack).value in t;
  }

  lemma {:induction false} TrappedNeverEnds(fs: map<string, Image>, w: Walk, n: nat)
    requires |w.seen| >= LIB_MAX && Trapped(fs, w)
    ensures Visits(fs, w, n).stack != []
    decreases n
  {
    TrappedVisited(fs, w);
    if n > 0 {
      TrappedNeverEnds(fs, Visit(fs, w), n - 1);
    }
  }

  /** Libraries that finish are worked off the front of the stack. */
  lemma {:induction false} Drained(fs: map<string, Image>, seen: seq<string>, names: seq<string>, rest: seq<string>,
                                   k: nat)
      returns (n: nat)
    requires |seen| >= LIB_MAX && AllWithin(fs, seen, names, k)
    ensures Visits(fs, Walk(names + rest, seen), n) == Walk(rest, seen)
    decreases k, |names|
  {
    if names == [] {
      assert names + rest == rest;
      n := 0;
    } else {
      var s, below := names[0], names[1..] + rest;
      var w := Walk(names + rest, seen);
      assert w.stack[0] == s && w.stack[1..] == below;
      assert FinishesWithin(fs, seen, s, k);
      var m := 0;
      if s !in seen {
        m := Drained(fs, seen, fs[s].needed, below, k - 1);
      }
      assert Visits(fs, w, 1 + m) == Visits(fs, Visit(fs, w), m) == Walk(below, seen);
      var l := Drained(fs, seen, names[1..], rest, k);
      VisitsAdd(fs, w, 1 + m, l);
      n := 1 + m + l;
    }
  }

  /** Everything in front of the blocker is worked off. */
  lemma {:induction false} UpToBlocker(fs: map<string, Image>, seen: seq<string>, names: seq<string>)
      returns (front: seq<string>, back: seq<string>)
    requires Blocker(fs, seen, names).Some?
    ensures names == front + [Blocker(fs, seen, names).value] + back
    ensures forall s :: s in front ==> Finishes(fs, seen, s)
  {
    if !Finishes(fs, seen, names[0]) {
      front, back := [], names[1..];
    } else {
      front, back := UpToBlocker(fs, seen, names[1..]);
      front := [names[0]] + front;
    }
  }

  lemma EndsPast(fs: map<string, Image>, seen: seq<string>, names: seq<string>, rest: seq<string>)
      returns (back: seq<string>)
    requires |seen| >= LIB_MAX && Blocker(fs, seen, names).Some?
    ensures Ends(fs, Walk([Blocker(fs, seen, names).value] + back, seen)) ==> Ends(fs, Walk(names + rest, seen))
  {
    var front, tail := UpToBlocker(fs, seen, names);
    var b := Blocker(fs, seen, names).value;
    back := tail + rest;
    var k := OneBound(fs, seen, front);
    var n := Drained(fs, seen, front, [b] + back, k);
    assert front + ([b] + back) == names + rest;
    if Ends(fs, Walk([b] + back, seen)) {
      EndsAfter(fs, Walk(names + rest, seen), n);
    }
  }

  /** Each of the libraries met so far is held up by another one of them, or by s. */
  ghost predicate Chain(fs: map<string, Image>, seen: seq<string>, met: set<string>, s: string) {
    && met <= fs.Keys && !Finishes(fs, seen, s)
    && forall m :: m in met ==>
         && m !in seen && Blocker(fs, seen, fs[m].needed).Some?
         && (Blocker(fs, seen, fs[m].needed).value in met || Blocker(fs, seen, fs[m].needed).value == s)
  }

  /** Following the blockers, either one is missing and the walk gives up, or they come round. */
  lemma {:induction false} EndsOrTrap(fs: map<string, Image>, seen: seq<string>, met: set<string>, s: string,
                                      rest: seq<string>)
    requires |seen| >= LIB_MAX && Chain(fs, seen, met, s)
    ensures Ends(fs, Walk([s] + rest, seen)) || exists t :: Trap(fs, seen, t) && met <= t && s in t
    decreases fs.Keys - met
  {
    var w := Walk([s] + rest, seen);
    if s in seen {
      assert FinishesWithin(fs, seen, s, 0);
    } else if s !in fs {
      assert Visits(fs, w, 1) == Visits(fs, Visit(fs, w), 0) == Walk([], seen);
    } else if s in met {
      assert forall m :: m in met ==> HeldUp(fs, seen, m, met);
      assert Trap(fs, seen, met);
    } else {
      if Blocker(fs, seen, fs[s].needed).None? {
        FinishesAbove(fs, seen, s);
      }
      var back := EndsPast(fs, seen, fs[s].needed, rest);
      EndsOrTrap(fs, seen, met + {s}, Blocker(fs, seen, fs[s].needed).value, back);
      assert w.stack[1..] == rest;
      EndsNext(fs, w);
    }
  }

  lemma FullEndsExactly(fs: map<string, Image>, w: Walk)
    requires |w.seen| >= LIB_MAX
    ensures Ends(fs, w) <==> !Trapped(fs, w)
  {
    if Trapped(fs, w) {
      forall n: nat
        ensures Visits(fs, w, n).stack != []
      {
        TrappedNeverEnds(fs, w, n);
      }
    } else if Blocker(fs, w.seen, w.stack).None? {
      var k := OneBound(fs, w.seen, w.stack);
      assert w.stack + [] == w.stack;
      var n := Drained(fs, w.seen, w.stack, [], k);
    } else {
      assert w.stack + [] == w.stack;
      var back := EndsPast(fs, w.seen, w.stack, []);
      EndsOrTrap(fs, w.seen, {}, Blocker(fs, w.seen, w.stack).value, back);
    }
  }

  // From the roots.

  /** The walk when the registry has filled, or when it is over. */
  function Filled(fs: map<string, Image>, w: Walk): (v: Walk)
    ensures v.stack == [] || |v.seen| >= LIB_MAX
    decreases |Others(fs.Keys, w.seen)|, |w.stack|
  {
    if w.stack == [] || |w.seen| >= LIB_MAX then w
    else
      if w.stack[0] !in w.seen && w.stack[0] in fs then
        OneFewer(fs.Keys, w.seen, w.stack[0]);
        Filled(fs, Visit(fs, w))
      else Filled(fs, Visit(fs, w))
  }

  lemma {:induction false} EndsFilled(fs: map<string, Image>, w: Walk)
    ensures Ends(fs, w) <==> Ends(fs, Filled(fs, w))
    decreases |Others(fs.Keys, w.seen)|, |w.stack|
  {
    if w.stack != [] && |w.seen| < LIB_MAX {
      if w.stack[0] !in w.seen && w.stack[0] in fs {
        OneFewer(fs.Keys, w.seen, w.stack[0]);
      }
      EndsNext(fs, w);
      EndsFilled(fs, Visit(fs, w));
    }
  }

  /** Loading from any roots ends exactly when nothing is left once the registry has filled, or what
      holds up the rest is not in a trap. */
  lemma LoadingEndsExactly(fs: map<string, Image>, roots: seq<string>)
    ensures var v := Filled(fs, Walk(roots, []));
            Ends(fs, Walk(roots, [])) <==> v.stack == [] || !Trapped(fs, v)
  {
    var v := Filled(fs, Walk(roots, []));
    EndsFilled(fs, Walk(roots, []));
    if v.stack == [] {
      assert Visits(fs, v, 0).stack == [];
    } else {
      FullEndsExactly(fs, v);
    }
  }

  /** Every dependency is of lower rank. */
  ghost predicate Ranked(fs: map<string, Image>, rank: string -> nat) {
    forall s, d :: s in fs && d in fs[s].needed ==> rank(d) < rank(s)
  }

  lemma {:induction false} NoTrapWhenRanked(fs: map<string, Image>, rank: string -> nat, seen: seq<string>,
                                            t: set<string>, s: string)
    requires Ranked(fs, rank) && Trap(fs, seen, t) && s in t
    ensures false
    decreases rank(s)
  {
    assert HeldUp(fs, seen, s, t);
    NoTrapWhenRanked(fs, rank, seen, t, Blocker(fs, seen, fs[s].needed).value);
  }

  /** Without a cycle loading ends, however many libraries there are. */
  lemma AcyclicEnds(fs: map<string, Image>, roots: seq<string>, rank: string -> nat)
    requires Ranked(fs, rank)
    ensures Ends(fs, Walk(roots, []))
  {
    var v := Filled(fs, Walk(roots, []));
    LoadingEndsExactly(fs, roots);
    if v.stack != [] && Trapped(fs, v) {
      var t :| Trap(fs, v.seen, t) && Blocker(fs, v.seen, v.stack).value in t;
      NoTrapWhenRanked(fs, rank, v.seen, t, Blocker(fs, v.seen, v.stack).value);
    }
  }

  // Nine libraries.

  /** Each library needs the next one, and the last needs itself. */
  predicate IsChain(fs: map<string, Image>, names: seq<string>) {
    && (forall i, j :: 0 <= i < j < |names| ==> names[i] != names[j])
    && forall i :: 0 <= i < |names| ==>
         names[i] in fs && fs[names[i]].needed == [names[if i + 1 < |names| then i + 1 else i]]
  }

  lemma {:induction false} ChainFilled(fs: map<string, Image>, names: seq<string>, i: nat)
    requires IsChain(fs, names) && |names| == LIB_MAX + 1 && i <= LIB_MAX
    ensures Filled(fs, Walk([names[i]], names[..i])) == Walk([names[LIB_MAX]], names[..LIB_MAX])
    decreases LIB_MAX - i
  {
    if i < LIB_MAX {
      assert names[i] !in names[..i];
      TakeNext(names, i);
      assert [names[i]][1..] == [] && fs[names[i]].needed + [] == [names[i + 1]];
      ChainFilled(fs, names, i + 1);
    }
  }

  lemma {:induction false} SelfNeverFinishes(fs: map<string, Image>, seen: seq<string>, s: string, k: nat)
    requires s in fs && s !in seen && fs[s].needed == [s]
    ensures !FinishesWithin(fs, seen, s, k)
  {
    if k > 0 {
      SelfNeverFinishes(fs, seen, s, k - 1);
      assert s in fs[s].needed;
    }
  }

  /** A cart that needs the first of a chain of nine is loaded for ever. */
  lemma ChainNeverEnds(fs: map<string, Image>, names: seq<string>)
    requires IsChain(fs, names) && |names| == LIB_MAX + 1
    ensures !Ends(fs, Walk([names[0]], []))
  {
    ChainFilled(fs, names, 0);
    var last, seen := names[LIB_MAX], names[..LIB_MAX];
    forall k: nat
      ensures !FinishesWithin(fs, seen, last, k)
    {
      SelfNeverFinishes(fs, seen, last, k);
    }
    assert Blocker(fs, seen, [last]) == Some(last) && Trap(fs, seen, {last});
    LoadingEndsExactly(fs, [names[0]]);
    assert names[..0] == [];
  }

  /** The names "a" to "i". */
  function Nine(): (names: seq<string>)
    ensures |names| == LIB_MAX + 1
  {
    seq(LIB_MAX + 1, i requires 0 <= i <= LIB_MAX => [('a' as int + i) as char])
  }

  function NextName(s: string): string {
    if |s| == 1 && 'a' <= s[0] < 'i' then [(s[0] as int + 1) as char] else s
  }

  /** Images that do nothing but need the next one. */
  function NineImages(): map<string, Image> {
    map s | s in Nine() :: Image([], None, [], [NextName(s)])
  }

  lemma NineNeverEnd()
    ensures IsChain(NineImages(), Nine()) && !Ends(NineImages(), Walk(["a"], []))
  {
    var names, fs := Nine(), NineImages();
    forall i, j | 0 <= i < j < |names|
      ensures names[i] != names[j]
    {
      assert names[i][0] != names[j][0];
    }
    forall i | 0 <= i < |names|
      ensures names[i] in fs && fs[names[i]].needed == [names[if i + 1 < |names| then i + 1 else i]]
    {
      assert names[i] in names && NextName(names[i]) == names[if i + 1 < |names| then i + 1 else i];
    }
    ChainNeverEnds(fs, names);
    assert names[0] == "a";
  }
}
