/** When a gap is declared, and when none is: the two bounds of reassembly, told from the times
    and lengths of what arrived. */
module ReassemblyTimeout {
  import opened Basics
  import opened ReassemblySpec
  import opened ReassemblyTheorems

  // ----- a run, prefix by prefix --------------------------------------------------------

  /** The state after the first `n` events. */
  function At(st: ReasmState, s: Stream, events: seq<Event>, n: nat): ReasmState
    requires n <= |events|
  {
    if n == 0 then st else Apply(At(st, s, events, n - 1), s, events[n - 1])
  }

  lemma {:induction false} AtTail(st: ReasmState, s: Stream, events: seq<Event>, n: nat)
    requires 1 <= n <= |events|
    ensures At(st, s, events, n) == At(Apply(st, s, events[0]), s, events[1..], n - 1)
  {
    hide Apply;
    if n > 1 {
      AtTail(st, s, events, n - 1);
      assert events[1..][n - 2] == events[n - 1];
    }
  }

  lemma {:induction false} AtIsRun(st: ReasmState, s: Stream, events: seq<Event>)
    ensures At(st, s, events, |events|) == Run(st, s, events)
    decreases |events|
  {
    hide Apply;
    if events != [] {
      AtTail(st, s, events, |events|);
      AtIsRun(Apply(st, s, events[0]), s, events[1..]);
    }
  }

  /** Every segment stays within 2^31 of the position expected when it comes. */
  ghost predicate Windowed(st: ReasmState, s: Stream, events: seq<Event>) {
    forall n :: 0 <= n < |events| && events[n].Segment? ==> InWindow(At(st, s, events, n), events[n].o, events[n].len)
  }

  lemma {:induction false} WindowedAt(st: ReasmState, s: Stream, events: seq<Event>)
    requires WindowedRun(st, s, events)
    ensures Windowed(st, s, events)
    decreases |events|
  {
    hide InWindow, Apply;
    if events != [] {
      var st1, rest := Apply(st, s, events[0]), events[1..];
      WindowedAt(st1, s, rest);
      forall n | 0 <= n < |events| && events[n].Segment? ensures InWindow(At(st, s, events, n), events[n].o, events[n].len) {
        if n > 0 {
          AtTail(st, s, events, n);
          assert rest[n - 1] == events[n];
        }
      }
    }
  }

  lemma {:induction false} SafeAt(st: ReasmState, s: Stream, events: seq<Event>, n: nat)
    requires Inv(st, s) && Windowed(st, s, events) && n <= |events|
    ensures Inv(At(st, s, events, n), s) && At(st, s, events, n).gaps >= st.gaps
  {
    hide Inv, InWindow, Apply;
    if n > 0 {
      SafeAt(st, s, events, n - 1);
      ApplySafe(At(st, s, events, n - 1), s, events[n - 1]);
    }
  }

  // ----- since when segments have been held -------------------------------------------------

  /** Event `k` is a segment ahead of the expected position: it is put aside. */
  ghost predicate PutAside(st: ReasmState, s: Stream, events: seq<Event>, k: nat) {
    k < |events| && events[k].Segment? && events[k].len > 0 && events[k].o > At(st, s, events, k).delivered
  }

  /** From event `k` to the `n`-th, something is held throughout and no gap is declared. */
  ghost predicate Unbroken(st: ReasmState, s: Stream, events: seq<Event>, k: nat, n: nat)
    requires k <= n <= |events|
  {
    forall i :: k < i <= n ==> At(st, s, events, i).ooo != [] && At(st, s, events, i).gaps == At(st, s, events, k).gaps
  }

  ghost predicate HeldFrom(st: ReasmState, s: Stream, events: seq<Event>, k: nat, n: nat)
    requires n <= |events|
  {
    k < n && PutAside(st, s, events, k) && Unbroken(st, s, events, k, n)
  }

  /** The unbroken period of holding that lasts to the `n`-th event began at event `k`. */
  ghost predicate Begins(st: ReasmState, s: Stream, events: seq<Event>, k: nat, n: nat)
    requires n <= |events|
  {
    HeldFrom(st, s, events, k, n) && forall j: nat :: j < k ==> !HeldFrom(st, s, events, j, n)
  }

  /** Segments have been held without a break for more than the timeout. */
  ghost predicate HeldTooLong(st: ReasmState, s: Stream, events: seq<Event>, n: nat, now: nat)
    requires n <= |events|
  {
    exists k: nat :: Begins(st, s, events, k, n) && now - events[k].now > OOO_TIMEOUT_US
  }

  // ----- the timer is that time -----------------------------------------------------------------

  lemma {:induction false} DrainTimer(st: ReasmState)
    ensures st.Drain().oooSince == if st.Drain().ooo == [] then None else st.oooSince
    decreases |st.ooo|
  {
    var i := FirstDue(st.ooo, st.nextSeq);
    if i < |st.ooo| { DrainTimer(st.TakeDue(i)); }
  }

  /** What one event does to the timer. */
  lemma TimerStep(st: ReasmState, s: Stream, e: Event)
    requires Inv(st, s) && (e.Segment? ==> InWindow(st, e.o, e.len))
    ensures var st' := Apply(st, s, e);
            st'.oooSince == if st'.ooo == [] || st'.gaps != st.gaps then None
                            else if st.oooSince.None? && e.Segment? && e.len > 0 && e.o > st.delivered then Some(e.now)
                            else st.oooSince
  {
    hide InWindow, HeldBytes, ReasmState.Drain, Nearest;
    ApplySafe(st, s, e);
    match e
    case Segment(o, len, now) =>
      PushByOffset(st, s, o, len, now);
      hide Receive;
      if len > 0 && o <= st.delivered < o + len {
        DrainTimer(Fresh(st, s, Seg(o, len)));
        DeliverKeepsGaps(st, s, Seg(o, len));
      } else if len > 0 && o > st.delivered {
        GapTimer(st.Hold(WrappingAdd(st.win.base, o), Slice(s, o, o + len), now));
      }
    case Tick(now) => GapTimer(st);
    case Consume(n) =>
  }

  lemma {:induction false} DrainKeepsGaps(st: ReasmState)
    ensures st.Drain().gaps == st.gaps
    decreases |st.ooo|
  {
    var i := FirstDue(st.ooo, st.nextSeq);
    if i < |st.ooo| { DrainKeepsGaps(st.TakeDue(i)); }
  }

  lemma DeliverKeepsGaps(st: ReasmState, s: Stream, g: Seg)
    requires g.o <= st.delivered <= g.End()
    ensures Fresh(st, s, g).Drain().gaps == st.gaps && Fresh(st, s, g).oooSince == st.oooSince
  {
    DrainKeepsGaps(Fresh(st, s, g));
  }

  lemma GapTimer(st: ReasmState)
    ensures st.ForceGap().oooSince == None && st.ForceGap().gaps == st.gaps + 1
  {
    DrainTimer(st.Skip(Nearest(st.ooo, st.nextSeq)));
    DrainKeepsGaps(st.Skip(Nearest(st.ooo, st.nextSeq)));
  }

  /** One more event: a break ends every period, and otherwise they all go on. */
  lemma PeriodsStep(st: ReasmState, s: Stream, events: seq<Event>, n: nat, k: nat)
    requires n < |events|
    ensures var here, next := At(st, s, events, n), At(st, s, events, n + 1);
            HeldFrom(st, s, events, k, n + 1) <==>
              && next.ooo != [] && next.gaps == here.gaps
              && (HeldFrom(st, s, events, k, n) || (k == n && PutAside(st, s, events, n)))
  {
    hide Apply;
    if k < n && HeldFrom(st, s, events, k, n) {
      assert At(st, s, events, n).gaps == At(st, s, events, k).gaps;
    }
    if k < n && HeldFrom(st, s, events, k, n + 1) {
      assert At(st, s, events, n).gaps == At(st, s, events, k).gaps;
    }
  }

  /** The timer of the code is the time of the event the period began with, and it runs
      exactly while there is such a period. */
  lemma {:induction false} TimerIsPeriod(st: ReasmState, s: Stream, events: seq<Event>, n: nat) returns (k: nat)
    requires Inv(st, s) && st.oooSince.None? && Windowed(st, s, events) && n <= |events|
    ensures match At(st, s, events, n).oooSince
            case None => forall j: nat :: !HeldFrom(st, s, events, j, n)
            case Some(t) => Begins(st, s, events, k, n) && events[k].now == t
  {
    hide Inv, InWindow, Apply, HeldFrom, PutAside;
    k := 0;
    if n == 0 {
      NoneYet(st, s, events);
    } else {
      var m := n - 1;
      k := TimerIsPeriod(st, s, events, m);
      SafeAt(st, s, events, m);
      TimerStep(At(st, s, events, m), s, events[m]);
      forall j: nat ensures HeldFrom(st, s, events, j, n) <==>
          && At(st, s, events, n).ooo != [] && At(st, s, events, n).gaps == At(st, s, events, m).gaps
          && (HeldFrom(st, s, events, j, m) || (j == m && PutAside(st, s, events, m))) {
        PeriodsStep(st, s, events, m, j);
      }
      AsideIs(st, s, events, m);
      PeriodHasTime(st, s, events, k, m);
      if At(st, s, events, m).oooSince.None? { k := m; }
    }
  }

  lemma NoneYet(st: ReasmState, s: Stream, events: seq<Event>)
    ensures forall j: nat :: !HeldFrom(st, s, events, j, 0)
  {
  }

  lemma PeriodHasTime(st: ReasmState, s: Stream, events: seq<Event>, k: nat, n: nat)
    requires n <= |events|
    ensures HeldFrom(st, s, events, k, n) ==> k < n && events[k].Segment?
  {
  }

  lemma AsideIs(st: ReasmState, s: Stream, events: seq<Event>, k: nat)
    requires k < |events|
    ensures var e := events[k];
            PutAside(st, s, events, k) <==> e.Segment? && e.len > 0 && e.o > At(st, s, events, k).delivered
  {
  }

  // ----- when a gap is declared --------------------------------------------------------------------

  /** A tick after `n` events declares a gap exactly when segments have been held too long
      without a break. */
  lemma TickGapExactly(st: ReasmState, s: Stream, events: seq<Event>, n: nat, now: nat)
    requires Inv(st, s) && st.oooSince.None? && Windowed(st, s, events) && n <= |events|
    ensures At(st, s, events, n).CheckTimeout(now).1 <==> HeldTooLong(st, s, events, n, now)
  {
    hide Inv, HeldFrom, PutAside, Windowed, ReasmState.ForceGap, At;
    var k := TimerIsPeriod(st, s, events, n);
    if HeldTooLong(st, s, events, n, now) {
      forall j: nat ensures HeldFrom(st, s, events, j, n) ==> j < n && events[j].Segment? { PeriodHasTime(st, s, events, j, n); }
      var j: nat :| Begins(st, s, events, j, n) && now - events[j].now > OOO_TIMEOUT_US;
      assert !(j < k) && !(k < j);
    }
  }

  /** A segment declares one exactly when it is put aside and the held total passes 2^20. */
  lemma SegmentGapExactly(st: ReasmState, s: Stream, o: int, len: nat, now: nat)
    requires Inv(st, s) && InWindow(st, o, len)
    ensures Receive(st, s, o, len, now).1 <==> len > 0 && o > st.delivered && HeldBytes(st.ooo) + len > OOO_LIMIT
  {
    hide Inv, InWindow, HeldBytes, ReasmState.Drain;
    PushByOffset(st, s, o, len, now);
    var h := Held(WrappingAdd(st.win.base, o), Slice(s, o, o + len));
    HeldBytesConcat(st.ooo, [h]);
    HeldOne(h);
  }

  lemma HeldOne(h: Held)
    ensures HeldBytes([h]) == |h.data|
  {
  }

  /** Event `n` finds a bound passed: the total held, with its own segment, or the time. */
  ghost predicate BoundPassed(st: ReasmState, s: Stream, events: seq<Event>, n: nat)
    requires n < |events|
  {
    match events[n]
    case Segment(_, len, _) => PutAside(st, s, events, n) && HeldBytes(At(st, s, events, n).ooo) + len > OOO_LIMIT
    case Tick(now) => HeldTooLong(st, s, events, n, now)
    case Consume(_) => false
  }

  lemma GapAtExactly(st: ReasmState, s: Stream, events: seq<Event>, n: nat)
    requires Inv(st, s) && st.oooSince.None? && Windowed(st, s, events) && n < |events|
    ensures At(st, s, events, n + 1).gaps == At(st, s, events, n).gaps + if BoundPassed(st, s, events, n) then 1 else 0
  {
    hide Inv, InWindow, HeldTooLong, Receive, ReasmState.ForceGap, HeldBytes;
    SafeAt(st, s, events, n);
    var here, e := At(st, s, events, n), events[n];
    match e
    case Segment(o, len, now) =>
      SegmentGapExactly(here, s, o, len, now);
      PushSafe(here, s, o, len, now);
    case Tick(now) =>
      TickGapExactly(st, s, events, n, now);
      GapTimer(here);
    case Consume(_) =>
  }

  /** Every event of the run finds both bounds kept. */
  ghost predicate WithinBounds(st: ReasmState, s: Stream, events: seq<Event>) {
    forall n :: 0 <= n < |events| ==> !BoundPassed(st, s, events, n)
  }

  lemma AtZero(st: ReasmState, s: Stream, events: seq<Event>)
    ensures At(st, s, events, 0) == st
  {
  }

  lemma {:induction false} GapsUpTo(st: ReasmState, s: Stream, events: seq<Event>, n: nat)
    requires Inv(st, s) && st.oooSince.None? && Windowed(st, s, events) && n <= |events|
    ensures At(st, s, events, n).gaps >= st.gaps
    ensures At(st, s, events, n).gaps == st.gaps <==> forall i :: 0 <= i < n ==> !BoundPassed(st, s, events, i)
  {
    hide Inv, Windowed, BoundPassed, At;
    AtZero(st, s, events);
    if n > 0 {
      GapsUpTo(st, s, events, n - 1);
      GapAtExactly(st, s, events, n - 1);
    }
  }

  /** A run has no gap exactly when it stays within both bounds. */
  lemma NoGapExactly(st: ReasmState, s: Stream, events: seq<Event>)
    requires Inv(st, s) && st.oooSince.None? && WindowedRun(st, s, events)
    ensures Run(st, s, events).gaps == st.gaps <==> WithinBounds(st, s, events)
  {
    hide Inv, WindowedRun, Windowed, Run, At, BoundPassed;
    WindowedAt(st, s, events);
    AtIsRun(st, s, events);
    GapsUpTo(st, s, events, |events|);
  }

  /** A direction followed from its SYN, within both bounds: exactly the longest contiguous
      prefix that arrived is delivered. */
  lemma CompleteWithinBounds(syn: u32, s: Stream, events: seq<Event>)
    requires WindowedRun(FromSyn(syn), s, events) && WithinBounds(FromSyn(syn), s, events)
    ensures var st := Run(FromSyn(syn), s, events);
            IsFrontier(Arrived(events), st.delivered) && st.win.off <= st.delivered && st.win.avail == Slice(s, st.win.off, st.delivered)
  {
    hide WindowedRun, WithinBounds, Run, IsFrontier, Arrived;
    FromSynStarts(syn, s);
    assert FromSyn(syn).oooSince.None? && FromSyn(syn).gaps == 0;
    NoGapExactly(FromSyn(syn), s, events);
    Complete(syn, s, events);
  }

  // ----- a run that stays within both bounds, by what arrived alone ------------------------------------

  function Volume(events: seq<Event>, n: nat): nat
    requires n <= |events|
  {
    if n == 0 then 0 else Volume(events, n - 1) + if events[n - 1].Segment? then events[n - 1].len else 0
  }

  lemma {:induction false} VolumeMonotone(events: seq<Event>, m: nat, n: nat)
    requires m <= n <= |events|
    ensures Volume(events, m) <= Volume(events, n)
  {
    if m < n { VolumeMonotone(events, m, n - 1); }
  }

  /** No more than 2^20 bytes in all, and no tick more than the timeout after a segment before it. */
  predicate Brief(events: seq<Event>) {
    && Volume(events, |events|) <= OOO_LIMIT
    && forall k, n :: 0 <= k < n < |events| && events[k].Segment? && events[n].Tick? ==> events[n].now - events[k].now <= OOO_TIMEOUT_US
  }

  lemma {:induction false} DrainHolds(st: ReasmState)
    ensures HeldBytes(st.Drain().ooo) <= HeldBytes(st.ooo)
    decreases |st.ooo|
  {
    var i := FirstDue(st.ooo, st.nextSeq);
    if i < |st.ooo| {
      HeldBytesWithout(st.ooo, i);
      DrainHolds(st.TakeDue(i));
    }
  }

  lemma HoldsStep(st: ReasmState, s: Stream, e: Event)
    requires Inv(st, s) && (e.Segment? ==> InWindow(st, e.o, e.len))
    ensures HeldBytes(Apply(st, s, e).ooo) <= HeldBytes(st.ooo) + if e.Segment? then e.len else 0
  {
    hide InWindow, HeldBytes, ReasmState.Drain, Nearest;
    match e
    case Segment(o, len, now) =>
      PushByOffset(st, s, o, len, now);
      hide Receive;
      if len > 0 && o <= st.delivered < o + len {
        DrainHolds(Fresh(st, s, Seg(o, len)));
      } else if len > 0 && o > st.delivered {
        var h := Held(WrappingAdd(st.win.base, o), Slice(s, o, o + len));
        var held := st.Hold(h.seq_, h.data, now);
        HeldBytesConcat(st.ooo, [h]);
        HeldOne(h);
        DrainHolds(held.Skip(Nearest(held.ooo, held.nextSeq)));
      }
    case Tick(now) => DrainHolds(st.Skip(Nearest(st.ooo, st.nextSeq)));
    case Consume(n) =>
  }

  lemma {:induction false} HeldWithinVolume(st: ReasmState, s: Stream, events: seq<Event>, n: nat)
    requires Inv(st, s) && st.ooo == [] && Windowed(st, s, events) && n <= |events|
    ensures HeldBytes(At(st, s, events, n).ooo) <= Volume(events, n)
  {
    hide Inv, InWindow, Apply;
    if n > 0 {
      HeldWithinVolume(st, s, events, n - 1);
      SafeAt(st, s, events, n - 1);
      HoldsStep(At(st, s, events, n - 1), s, events[n - 1]);
    }
  }

  lemma BriefIsWithinBounds(st: ReasmState, s: Stream, events: seq<Event>)
    requires Inv(st, s) && st.ooo == [] && Windowed(st, s, events) && Brief(events)
    ensures WithinBounds(st, s, events)
  {
    hide Inv, Windowed, At, PutAside, HeldFrom, HeldBytes;
    forall n | 0 <= n < |events| ensures !BoundPassed(st, s, events, n) {
      HeldWithinVolume(st, s, events, n);
      VolumeMonotone(events, n + 1, |events|);
      forall j: nat ensures HeldFrom(st, s, events, j, n) ==> j < n && events[j].Segment? { PeriodHasTime(st, s, events, j, n); }
    }
  }

  /** So whatever the order and the losses repaired, a brief run delivers all it can. */
  lemma BriefRunIsComplete(syn: u32, s: Stream, events: seq<Event>)
    requires WindowedRun(FromSyn(syn), s, events) && Brief(events)
    ensures IsFrontier(Arrived(events), Run(FromSyn(syn), s, events).delivered)
  {
    hide WindowedRun, WithinBounds, Run, IsFrontier, Arrived, Brief;
    FromSynStarts(syn, s);
    WindowedAt(FromSyn(syn), s, events);
    BriefIsWithinBounds(FromSyn(syn), s, events);
    CompleteWithinBounds(syn, s, events);
  }
}
