/** Whole runs of the frame loop: which voices play when, and resuming from a save. */
module VoiceRuns {
  import opened VoiceQueue

  /** The voices the cart sees playing and the events waiting. */
  datatype State = State(voices: set<handle>, pending: seq<Event>)

  function Step(q: State, schedule: seq<Ending>, frame: nat): State {
    State(q.voices - Handles(q.pending), Kept(Due(schedule, frame)))
  }

  /** After n frames, the first of them numbered from. */
  function After(q: State, schedule: seq<Ending>, from: nat, n: nat): State {
    if n == 0 then q else Step(After(q, schedule, from, n - 1), schedule, from + n - 1)
  }

  /** The voices seen playing in each of those frames' updates. */
  function Trace(q: State, schedule: seq<Ending>, from: nat, n: nat): (t: seq<set<handle>>)
    ensures |t| == n
  {
    if n == 0 then [] else Trace(q, schedule, from, n - 1) + [After(q, schedule, from, n).voices]
  }

  ghost function Abstract(q: Queue): State
    requires q.Valid()
    reads q, q.pending
  {
    State(q.voices, q.Pending())
  }

  ghost predicate AllShow(trace: seq<bv64>, seen: seq<set<handle>>) {
    |trace| == |seen| && forall i :: 0 <= i < |trace| ==> Shows(trace[i], seen[i])
  }

  /** The frame loop from `from` up to, not including, `to`. */
  method Loop(q: Queue, schedule: seq<Ending>, from: nat, to: nat) returns (trace: seq<bv64>)
    requires q.Valid() && from <= to
    modifies q, q.pending
    ensures q.Valid() && AllShow(trace, Trace(old(Abstract(q)), schedule, from, to - from))
    ensures Abstract(q) == After(old(Abstract(q)), schedule, from, to - from)
  {
    trace := [];
    ghost var start := Abstract(q);
    for f := from to to
      invariant q.Valid() && AllShow(trace, Trace(start, schedule, from, f - from))
      invariant Abstract(q) == After(start, schedule, from, f - from)
    {
      var seen := q.Frame(schedule, f);
      trace := trace + [seen];
    }
  }

  /** A queue in which exactly the given voices have been started. */
  method Started(starts: seq<handle>) returns (q: Queue)
    ensures q.Valid() && fresh(q) && fresh(q.pending) && Abstract(q) == State(set h | h in starts, [])
  {
    q := new Queue();
    for i := 0 to |starts|
      invariant q.Valid() && fresh(q) && fresh(q.pending)
      invariant q.voices == (set h | h in starts[..i]) && q.Pending() == []
    {
      q.VoiceStart(starts[i]);
      assert starts[..i + 1] == starts[..i] + [starts[i]];
    }
    assert starts[..|starts|] == starts;
  }

  function Initial(starts: seq<handle>): State {
    State(set h | h in starts, [])
  }

  /** The branch that runs straight through. */
  method Straight(starts: seq<handle>, schedule: seq<Ending>, frames: nat) returns (trace: seq<bv64>)
    ensures AllShow(trace, Trace(Initial(starts), schedule, 0, frames))
  {
    var q := Started(starts);
    trace := Loop(q, schedule, 0, frames);
  }

  /** The branch that stops after frame `last` and saves. */
  method Interrupted(starts: seq<handle>, schedule: seq<Ending>, last: nat) returns (trace: seq<bv64>, saved: Image)
    ensures AllShow(trace, Trace(Initial(starts), schedule, 0, last + 1))
    ensures Stores(saved, After(Initial(starts), schedule, 0, last + 1))
  {
    var q := Started(starts);
    trace := Loop(q, schedule, 0, last + 1);
    saved := q.Save();
  }

  /** A save image that holds the given state. */
  ghost predicate Stores(s: Image, q: State) {
    && |s.pending| == PENDING_MAX && s.count <= PENDING_MAX
    && Shows(s.bits, q.voices) && s.pending[..s.count] == q.pending
  }

  /** The branch that loads into a queue in any condition and goes on. */
  method Resumed(q: Queue, saved: Image, schedule: seq<Ending>, last: nat, frames: nat, ghost at: State)
      returns (trace: seq<bv64>)
    requires q.pending.Length == PENDING_MAX && Stores(saved, at) && last + 1 <= frames
    modifies q, q.pending
    ensures q.Valid() && AllShow(trace, Trace(at, schedule, last + 1, frames - (last + 1)))
    ensures Abstract(q) == After(at, schedule, last + 1, frames - (last + 1))
  {
    var ok := q.Load(saved, at.voices);
    assert q.pending[..q.count] == saved.pending[..saved.count];
    trace := Loop(q, schedule, last + 1, frames);
  }

  lemma {:induction false} AfterSplit(q: State, schedule: seq<Ending>, from: nat, m: nat, n: nat)
    ensures After(q, schedule, from, m + n) == After(After(q, schedule, from, m), schedule, from + m, n)
    decreases n
  {
    if n > 0 {
      AfterSplit(q, schedule, from, m, n - 1);
    }
  }

  /** Stopping after m frames and going on from what was saved gives the same answers as not stopping. */
  lemma {:induction false} ResumeGivesSuffix(q: State, schedule: seq<Ending>, from: nat, m: nat, n: nat)
    ensures Trace(q, schedule, from, m + n)[m..] == Trace(After(q, schedule, from, m), schedule, from + m, n)
    ensures After(q, schedule, from, m + n) == After(After(q, schedule, from, m), schedule, from + m, n)
    decreases n
  {
    AfterSplit(q, schedule, from, m, n);
    if n > 0 {
      ResumeGivesSuffix(q, schedule, from, m, n - 1);
      assert Trace(q, schedule, from, m + n)
          == Trace(q, schedule, from, m + n - 1) + [After(q, schedule, from, m + n).voices];
    }
  }

  /** The three branches together: the resumed branch shows exactly what the straight one shows after the
      frame that was saved, in whatever condition the queue it loads into was, and ends in the same state. */
  method SaveAndResume(q: Queue, starts: seq<handle>, schedule: seq<Ending>, last: nat, frames: nat)
      returns (full: seq<bv64>, front: seq<bv64>, rest: seq<bv64>)
    requires q.pending.Length == PENDING_MAX && last + 1 <= frames
    modifies q, q.pending
    ensures AllShow(full, Trace(Initial(starts), schedule, 0, frames))
    ensures AllShow(front, Trace(Initial(starts), schedule, 0, frames)[..last + 1])
    ensures AllShow(rest, Trace(Initial(starts), schedule, 0, frames)[last + 1..])
    ensures q.Valid() && Abstract(q) == After(Initial(starts), schedule, 0, frames)
  {
    full := Straight(starts, schedule, frames);
    var saved;
    front, saved := Interrupted(starts, schedule, last);
    ResumeGivesSuffix(Initial(starts), schedule, 0, last + 1, frames - (last + 1));
    TracePrefix(Initial(starts), schedule, 0, last + 1, frames);
    rest := Resumed(q, saved, schedule, last, frames, After(Initial(starts), schedule, 0, last + 1));
  }

  lemma {:induction false} TracePrefix(q: State, schedule: seq<Ending>, from: nat, m: nat, n: nat)
    requires m <= n
    ensures Trace(q, schedule, from, n)[..m] == Trace(q, schedule, from, m)
  {
    if m < n {
      TracePrefix(q, schedule, from, m, n - 1);
      assert Trace(q, schedule, from, n)[..m] == Trace(q, schedule, from, n - 1)[..m];
    }
  }

  predicate Mentions(es: seq<Event>, h: handle) {
    exists i :: 0 <= i < |es| && es[i].h == h
  }

  lemma MentionsHandles(es: seq<Event>, h: handle)
    ensures h in Handles(es) <==> Mentions(es, h)
  {
    if h in Handles(es) {
      var e :| e in es && e.h == h;
      var i :| 0 <= i < |es| && es[i] == e;
      assert es[i].h == h;
    }
  }

  lemma MentionsLast(es: seq<Event>, e: Event, h: handle)
    ensures Mentions(es + [e], h) <==> Mentions(es, h) || e.h == h
  {
    if e.h == h {
      assert (es + [e])[|es|].h == h;
    }
    if Mentions(es, h) {
      var i :| 0 <= i < |es| && es[i].h == h;
      assert (es + [e])[i].h == h;
    }
    if Mentions(es + [e], h) {
      var i :| 0 <= i < |es + [e]| && (es + [e])[i].h == h;
      assert i == |es| || es[i].h == h;
    }
  }

  /** The queue took the event; it drops those past the eighth of a frame. */
  predicate Heard(schedule: seq<Ending>, frame: nat, h: handle) {
    Mentions(Kept(Due(schedule, frame)), h)
  }

  /** For every schedule: a voice plays at frame f's update exactly when it was started
      and no ending that the queue took is from a frame before f. */
  lemma {:induction false} PlayingExactly(voices: set<handle>, schedule: seq<Ending>, f: nat, h: handle)
    ensures h in After(State(voices, []), schedule, 0, f + 1).voices
       <==> h in voices && Unheard(schedule, f, h)
  {
    var before := After(State(voices, []), schedule, 0, f);
    assert After(State(voices, []), schedule, 0, f + 1).voices == before.voices - Handles(before.pending);
    MentionsHandles(before.pending, h);
    if f > 0 {
      PlayingExactly(voices, schedule, f - 1, h);
      assert Mentions(before.pending, h) <==> Heard(schedule, f - 1, h);
      OneMore(schedule, f - 1, h);
    }
  }

  predicate Unheard(schedule: seq<Ending>, f: nat, h: handle) {
    forall e: nat :: e < f ==> !Heard(schedule, e, h)
  }

  lemma OneMore(schedule: seq<Ending>, f: nat, h: handle)
    ensures Unheard(schedule, f + 1, h) <==> Unheard(schedule, f, h) && !Heard(schedule, f, h)
  {
    if Unheard(schedule, f + 1, h) {
      assert !Heard(schedule, f, h);
    }
  }

  predicate Ends(schedule: seq<Ending>, frame: nat, h: handle) {
    exists i :: 0 <= i < |schedule| && schedule[i] == Ending(h, frame)
  }

  lemma {:induction false} DueExactly(schedule: seq<Ending>, frame: nat, h: handle)
    ensures Mentions(Due(schedule, frame), h) <==> Ends(schedule, frame, h)
  {
    if schedule != [] {
      var front, last := schedule[..|schedule| - 1], schedule[|schedule| - 1];
      DueExactly(front, frame, h);
      MentionsLast(Due(front, frame), Event(frame, last.h, 0), h);
      if Ends(schedule, frame, h) {
        var i :| 0 <= i < |schedule| && schedule[i] == Ending(h, frame);
        assert i == |front| || front[i] == Ending(h, frame);
      }
      if Ends(front, frame, h) {
        var i :| 0 <= i < |front| && front[i] == Ending(h, frame);
        assert schedule[i] == Ending(h, frame);
      }
    }
  }

  predicate EndedBefore(schedule: seq<Ending>, f: nat, h: handle) {
    exists e: nat :: e < f && Ends(schedule, e, h)
  }

  /** Every started voice plays in every frame up to its first ending, and in no later one. */
  ghost predicate PlaysUntilItEnds(voices: set<handle>, schedule: seq<Ending>) {
    forall f: nat, h: handle :: h in voices ==>
      (h in After(State(voices, []), schedule, 0, f + 1).voices <==> !EndedBefore(schedule, f, h))
  }

  /** By the time a started voice ends, the queue has taken some ending of it. */
  ghost predicate EndingsHeard(voices: set<handle>, schedule: seq<Ending>) {
    forall e: nat, h: handle :: h in voices && Ends(schedule, e, h) ==> !Unheard(schedule, e + 1, h)
  }

  lemma HeardIsEnding(schedule: seq<Ending>, f: nat, h: handle)
    ensures Heard(schedule, f, h) ==> Ends(schedule, f, h)
  {
    DueExactly(schedule, f, h);
    if Heard(schedule, f, h) {
      var es := Due(schedule, f);
      var i :| 0 <= i < |Kept(es)| && Kept(es)[i].h == h;
      assert es[i].h == h;
    }
  }

  /** Whatever the schedule: voices play until they end exactly when each ending of a started voice finds
      room among the first eight of its frame, or the voice had one earlier that did. */
  lemma PlaysUntilItEndsExactly(voices: set<handle>, schedule: seq<Ending>)
    ensures PlaysUntilItEnds(voices, schedule) <==> EndingsHeard(voices, schedule)
  {
    if PlaysUntilItEnds(voices, schedule) {
      forall e: nat, h: handle | h in voices && Ends(schedule, e, h)
        ensures !Unheard(schedule, e + 1, h)
      {
        PlayingExactly(voices, schedule, e + 1, h);
        assert EndedBefore(schedule, e + 1, h);
      }
    }
    if EndingsHeard(voices, schedule) {
      forall f: nat, h: handle | h in voices
        ensures h in After(State(voices, []), schedule, 0, f + 1).voices <==> !EndedBefore(schedule, f, h)
      {
        PlayingExactly(voices, schedule, f, h);
        HeardInTime(voices, schedule, f, h);
      }
    }
  }

  lemma HeardInTime(voices: set<handle>, schedule: seq<Ending>, f: nat, h: handle)
    requires EndingsHeard(voices, schedule) && h in voices
    ensures Unheard(schedule, f, h) <==> !EndedBefore(schedule, f, h)
  {
    if EndedBefore(schedule, f, h) {
      var e: nat :| e < f && Ends(schedule, e, h);
      assert !Unheard(schedule, e + 1, h);
      var d: nat :| d < e + 1 && Heard(schedule, d, h);
      assert d < f;
    } else {
      forall e: nat | e < f
        ensures !Heard(schedule, e, h)
      {
        HeardIsEnding(schedule, e, h);
      }
    }
  }

  ghost predicate AtMostEight(schedule: seq<Ending>) {
    forall e: nat :: |Due(schedule, e)| <= PENDING_MAX
  }

  /** With at most eight endings a frame every voice plays until it ends, whichever are started. */
  lemma EightSuffice(voices: set<handle>, schedule: seq<Ending>)
    requires AtMostEight(schedule)
    ensures PlaysUntilItEnds(voices, schedule)
  {
    forall e: nat, h: handle | h in voices && Ends(schedule, e, h)
      ensures !Unheard(schedule, e + 1, h)
    {
      assert |Due(schedule, e)| <= PENDING_MAX;
      DueExactly(schedule, e, h);
      assert Heard(schedule, e, h);
    }
    PlaysUntilItEndsExactly(voices, schedule);
  }

  const NINE: seq<handle> := [0, 1, 2, 3, 4, 5, 6, 7, 8]

  /** The given voices end in frame 0, in that order. */
  function EndAtOnce(hs: seq<handle>): (schedule: seq<Ending>)
    ensures |schedule| == |hs| && forall i :: 0 <= i < |hs| ==> schedule[i] == Ending(hs[i], 0)
  {
    seq(|hs|, i requires 0 <= i < |hs| => Ending(hs[i], 0))
  }

  lemma {:induction false} DueAtOnce(hs: seq<handle>)
    ensures |Due(EndAtOnce(hs), 0)| == |hs|
    ensures forall i :: 0 <= i < |hs| ==> Due(EndAtOnce(hs), 0)[i] == Event(0, hs[i], 0)
  {
    if hs != [] {
      var front := hs[..|hs| - 1];
      assert EndAtOnce(hs)[..|hs| - 1] == EndAtOnce(front);
      DueAtOnce(front);
    }
  }

  lemma {:induction false} DueLater(hs: seq<handle>, f: nat)
    requires f > 0
    ensures Due(EndAtOnce(hs), f) == []
  {
    if hs != [] {
      var front := hs[..|hs| - 1];
      assert EndAtOnce(hs)[..|hs| - 1] == EndAtOnce(front);
      DueLater(front, f);
    }
  }

  /** Nine started voices all end in frame 0: the ninth ending is dropped and that voice never stops. */
  lemma NinthPlaysOn(voices: set<handle>, f: nat)
    requires 8 in voices
    ensures Ends(EndAtOnce(NINE), 0, 8)
    ensures 8 in After(State(voices, []), EndAtOnce(NINE), 0, f + 1).voices
    ensures !PlaysUntilItEnds(voices, EndAtOnce(NINE))
  {
    var schedule := EndAtOnce(NINE);
    assert schedule[8] == Ending(8, 0);
    forall e: nat
      ensures !Heard(schedule, e, 8)
    {
      DueAtOnce(NINE);
      if e > 0 {
        DueLater(NINE, e);
      }
    }
    PlayingExactly(voices, schedule, f, 8);
    PlayingExactly(voices, schedule, 1, 8);
    assert Ends(schedule, 0, 8);
    assert EndedBefore(schedule, 1, 8);
  }

  lemma {:induction false} OthersExactly(es: seq<Event>, h: handle, k: handle)
    ensures Mentions(Others(es, h), k) <==> Mentions(es, k) && k != h
  {
    if es != [] {
      var front, last := es[..|es| - 1], es[|es| - 1];
      OthersExactly(front, h, k);
      MentionsLast(front, last, k);
      MentionsLast(Others(front, h), last, k);
      assert es == front + [last];
    }
  }

  /** Starting a voice before its ending was applied makes it survive the next update, and no other
      voice's fate depends on it. */
  lemma RestartSurvives(voices: set<handle>, pending: seq<Event>, h: handle)
    ensures (voices + {h}) - Handles(Others(pending, h)) == (voices - Handles(pending)) + {h}
  {
    forall k: handle
      ensures k in (voices + {h}) - Handles(Others(pending, h)) <==> k in (voices - Handles(pending)) + {h}
    {
      MentionsHandles(pending, k);
      MentionsHandles(Others(pending, h), k);
      OthersExactly(pending, h, k);
    }
  }
}
