/** The voice-end queue: a bitmap the cart sees and a FIFO of endings it does not see yet. `Queue` refines
    the set of voices that are playing and the list of endings that wait. */
module VoiceQueue {
  const PENDING_MAX: nat := 8

  type handle = h: bv8 | h < 64

  datatype Event = Event(frame: nat, h: handle, kind: nat)

  function Mask(h: handle): bv64 {
    1 << h
  }

  predicate Playing(bits: bv64, h: handle) {
    bits & Mask(h) != 0
  }

  /** The struct as memcpy sees it: entries past the count are copied too. */
  datatype Image = Image(bits: bv64, count: nat, pending: seq<Event>)

  /** Events for other voices. */
  function Others(es: seq<Event>, h: handle): (r: seq<Event>)
    ensures |r| <= |es|
  {
    if es == [] then []
    else
      var front := Others(es[..|es| - 1], h);
      if es[|es| - 1].h != h then front + [es[|es| - 1]] else front
  }

  /** The bitmap as the set of voices it stands for. */
  ghost predicate Shows(bits: bv64, voices: set<handle>) {
    forall h: handle :: Playing(bits, h) <==> h in voices
  }

  function Handles(es: seq<Event>): set<handle> {
    set e | e in es :: e.h
  }

  class Queue {
    var bits: bv64
    var count: nat
    const pending: array<Event>
    ghost var voices: set<handle>

    ghost predicate Valid()
      reads this
    {
      pending.Length == PENDING_MAX && count <= PENDING_MAX && Shows(bits, voices)
    }

    ghost function Pending(): seq<Event>
      requires Valid()
      reads this, pending
    {
      pending[..count]
    }

    constructor ()
      ensures Valid() && fresh(pending) && voices == {} && Pending() == []
    {
      bits, count, voices := 0, 0, {};
      pending := new Event[PENDING_MAX](_ => Event(0, 0, 0));
    }

    method VoiceStart(h: handle)
      requires Valid()
      modifies this, pending
      ensures Valid() && voices == old(voices) + {h}
      ensures Pending() == Others(old(Pending()), h)
    {
      Mark(h);
      Compact(h);
    }

    method Mark(h: handle)
      requires Shows(bits, voices)
      modifies this`bits, this`voices
      ensures Shows(bits, voices) && voices == old(voices) + {h}
    {
      var r := bits | Mask(h);
      EveryMaskSets(bits, h, r);
      ShowsMore(bits, voices, h, r);
      bits, voices := r, voices + {h};
    }

    /** Drops the events of one voice, keeping the order of the rest. */
    method Compact(h: handle)
      requires Valid()
      modifies this`count, pending
      ensures Valid() && Pending() == Others(old(Pending()), h)
    {
      ghost var was := pending[..count];
      var kept := 0;
      for i := 0 to count
        invariant kept <= i && pending[i..count] == was[i..]
        invariant pending[..kept] == Others(was[..i], h)
        modifies pending
      {
        assert pending[i..count][0] == was[i..][0];
        assert was[..i + 1][..i] == was[..i];
        ghost var rest := pending[i + 1..count];
        assert rest == was[i + 1..];
        if pending[i].h != h {
          pending[kept] := pending[i];
          kept := kept + 1;
        }
        assert pending[i + 1..count] == rest;
      }
      assert was[..|was|] == was;
      count := kept;
    }

    method VoiceIsPlaying(h: handle) returns (r: bool)
      requires Valid()
      ensures r == (h in voices)
    {
      r := bits & (1 << h) != 0;
    }

    method ApplyPending()
      requires Valid()
      modifies this
      ensures Valid() && voices == old(voices) - Handles(old(Pending())) && Pending() == []
    {
      ghost var es := pending[..count];
      for i := 0 to count
        modifies this`bits, this`voices
        invariant Shows(bits, voices) && voices == old(voices) - Handles(es[..i])
      {
        var h := pending[i].h;
        HandlesNext(es, i);
        VoiceCleared(bits, voices, h);
        bits, voices := bits & !Mask(h), voices - {h};
      }
      assert es[..count] == es;
      count := 0;
    }

    /** A full queue drops the event. */
    method Record(e: Event)
      requires Valid()
      modifies this`count, pending
      ensures Valid() && Pending() == Kept(old(Pending()) + [e])
    {
      if count >= PENDING_MAX {
        assert Kept(pending[..count] + [e]) == pending[..count];
        return;
      }
      pending[count] := e;
      count := count + 1;
    }

    method Save() returns (s: Image)
      requires Valid()
      ensures s == Image(bits, count, pending[..])
    {
      s := Image(bits, count, pending[..]);
    }

    /** Copies first and checks afterwards. */
    method Load(s: Image, ghost saved: set<handle>) returns (ok: bool)
      requires pending.Length == PENDING_MAX == |s.pending| && Shows(s.bits, saved)
      modifies this, pending
      ensures ok == (s.count <= PENDING_MAX)
      ensures bits == s.bits && count == s.count && pending[..] == s.pending && voices == saved
      ensures ok ==> Valid()
    {
      for i := 0 to PENDING_MAX
        modifies pending
        invariant pending[..i] == s.pending[..i]
      {
        pending[i] := s.pending[i];
      }
      assert pending[..] == pending[..PENDING_MAX] == s.pending;
      bits, count, voices := s.bits, s.count, saved;
      ok := count <= PENDING_MAX;
    }

    /** `synthetic_mixer_report_end_of_frame`: the schedule's entries for this frame, in its order. */
    method ReportEndOfFrame(schedule: seq<Ending>, frame: nat)
      requires Valid()
      modifies this`count, pending
      ensures Valid() && Pending() == Kept(old(Pending()) + Due(schedule, frame))
    {
      ghost var before := Pending();
      assert before + [] == before == Kept(before);
      for i := 0 to |schedule|
        invariant Valid() && Pending() == Kept(before + Due(schedule[..i], frame))
      {
        assert schedule[..i + 1][..i] == schedule[..i];
        if schedule[i].frame == frame {
          var e := Event(frame, schedule[i].h, 0);
          KeptStep(before + Due(schedule[..i], frame), e);
          assert (before + Due(schedule[..i], frame)) + [e] == before + (Due(schedule[..i], frame) + [e]);
          Record(e);
        }
      }
      assert schedule[..|schedule|] == schedule;
    }

    /** One frame of the cart's loop: drain, observe, report. */
    method Frame(schedule: seq<Ending>, frame: nat) returns (seen: bv64)
      requires Valid()
      modifies this, pending
      ensures Valid() && voices == old(voices) - Handles(old(Pending()))
      ensures Shows(seen, voices) && Pending() == Kept(Due(schedule, frame))
    {
      ApplyPending();
      seen := bits;
      assert [] + Due(schedule, frame) == Due(schedule, frame);
      ReportEndOfFrame(schedule, frame);
    }
  }

  lemma HandlesNext(es: seq<Event>, i: nat)
    requires i < |es|
    ensures Handles(es[..i + 1]) == Handles(es[..i]) + {es[i].h}
  {
    assert es[..i + 1] == es[..i] + [es[i]];
  }

  lemma MaskClears(bits: bv64, h: handle, k: handle)
    ensures Playing(bits & !Mask(k), h) <==> Playing(bits, h) && h != k
  {
  }

  lemma MasksMeet(h: handle, k: handle)
    ensures Mask(k) & Mask(h) != 0 <==> h == k
  {
  }

  lemma OrAnd(a: bv64, b: bv64, m: bv64)
    ensures (a | b) & m == (a & m) | (b & m)
  {
  }

  lemma OrZero(a: bv64, b: bv64)
    ensures a | b == 0 <==> a == 0 && b == 0
  {
  }

  lemma MaskSets(bits: bv64, h: handle, k: handle)
    ensures Playing(bits | Mask(k), h) <==> Playing(bits, h) || h == k
  {
    MasksMeet(h, k);
    OrAnd(bits, Mask(k), Mask(h));
    OrZero(bits & Mask(h), Mask(k) & Mask(h));
  }

  lemma VoiceCleared(bits: bv64, voices: set<handle>, k: handle)
    requires Shows(bits, voices)
    ensures Shows(bits & !Mask(k), voices - {k})
  {
    forall h: handle
      ensures Playing(bits & !Mask(k), h) <==> h in voices - {k}
    {
      MaskClears(bits, h, k);
    }
  }

  lemma EveryMaskSets(bits: bv64, k: handle, r: bv64)
    requires r == bits | Mask(k)
    ensures forall h: handle :: Playing(r, h) <==> Playing(bits, h) || h == k
  {
    forall h: handle
      ensures Playing(r, h) <==> Playing(bits, h) || h == k
    {
      MaskSets(bits, h, k);
    }
  }

  lemma ShowsMore(bits: bv64, voices: set<handle>, k: handle, r: bv64)
    requires Shows(bits, voices) && forall h: handle :: Playing(r, h) <==> Playing(bits, h) || h == k
    ensures Shows(r, voices + {k})
  {
  }

  datatype Ending = Ending(h: handle, frame: nat)

  /** The first eight of a run of events. */
  function Kept(es: seq<Event>): (r: seq<Event>)
    ensures |r| <= PENDING_MAX
  {
    if |es| <= PENDING_MAX then es else es[..PENDING_MAX]
  }

  lemma KeptStep(es: seq<Event>, e: Event)
    ensures Kept(Kept(es) + [e]) == Kept(es + [e])
  {
  }

  /** What the mixer reports at the end of a frame. */
  function Due(schedule: seq<Ending>, frame: nat): seq<Event> {
    if schedule == [] then []
    else
      var last := schedule[|schedule| - 1];
      var front := Due(schedule[..|schedule| - 1], frame);
      if last.frame == frame then front + [Event(frame, last.h, 0)] else front
  }
}
