/** Snapshot handoff over whole runs: the continuation comes in pieces, and between them the
    other side announces table capacities that both readers apply. */
module ConnHandoffRuns {
  import opened Basics
  import opened HpackInt
  import opened HpackTable
  import opened HpackSpec
  import opened ReassemblySpec
  import opened Frame
  import opened ConnSpec
  import opened ConnSegmentation
  import opened ConnTwins
  import opened ConnLifted
  import H = ConnHandoff

  /** What a direction goes through: bytes in order, or a capacity of the peer's. */
  datatype Event = Bytes(b: seq<byte>) | Capacity(n: nat)

  function Capped(c: Core, n: nat): Core {
    c.(dec := c.dec.ApplyPeerCapacity(n))
  }

  function OnEvent(cb: Codebook, c: Core, w: Window, e: Event): (Core, Window, seq<ProcessedFrame>) {
    match e
    case Bytes(b) => Parse(cb, c, w.Append(b))
    case Capacity(n) => (Capped(c, n), w, [])
  }

  function Continue(cb: Codebook, c: Core, w: Window, events: seq<Event>): (Core, Window, seq<ProcessedFrame>)
    decreases |events|
  {
    if events == [] then (c, w, [])
    else
      var (c1, w1, out1) := OnEvent(cb, c, w, events[0]);
      var (c2, w2, out2) := Continue(cb, c1, w1, events[1..]);
      (c2, w2, out1 + out2)
  }

  // ----- the keeper and the dropper, event by event -------------------------------------------------

  lemma CappedTwins(t: Core, f: Core, n: nat)
    requires Twin(t, f)
    ensures Twin(Capped(t, n), Capped(f, n))
  {
    TableUnresolved(t.dec, f.dec.unresolved, Field([], [], false, false), n);
  }

  lemma CappedAlike(t: Core, wt: Window, ot: int, ft: seq<ProcessedFrame>, f: Core, wf: Window, of_: int, ff: seq<ProcessedFrame>, n: nat)
    requires FramedAlike(t, wt, ot, ft, f, wf, of_, ff)
    ensures FramedAlike(Capped(t, n), wt, ot, ft, Capped(f, n), wf, of_, ff)
  {
    hide Twin, Views, DecState.ApplyPeerCapacity;
    if Twin(t, f) { CappedTwins(t, f, n); }
    if Twin(t, f.(discard := 0)) { CappedTwins(t, f.(discard := 0), n); }
  }

  /** The dropper one frame ahead is the dropper that has just read what the keeper has waiting. */
  lemma Rewind(cb: Codebook, t: Core, wt: Window, ot: int, f: Core, wf: Window, of_: int) returns (f0: Core, wf0: Window)
    requires OneBehind(t, wt, ot, f, wf, of_) && !f.keepPayloads
    ensures Twin(t, f0) && SameBytes(wt, ot, wf0, of_) && f0.keepPayloads == f.keepPayloads && InStep(f0, f)
    ensures Parse(cb, f0, wf0) == (f, wf, [Dropped(HeaderOf(wt.avail), wf0)])
  {
    hide Parse, Window.NextSeq, Window.Consume, ParseHeader;
    f0 := f.(discard := 0, frames := f.frames - 1);
    wf0 := RewindWindow(wt, ot, wf, of_);
    DropperGoesOn(cb, f0, wf0);
  }

  lemma RewindWindow(wt: Window, ot: int, wf: Window, of_: int) returns (wf0: Window)
    requires wf.avail == [] && wf.off - of_ == wt.off - ot + |wt.avail| && wf.off >= |wt.avail|
    requires wf.NextSeq() == WrappingAdd(wt.NextSeq(), |wt.avail|)
    ensures SameBytes(wt, ot, wf0, of_) && wf0.Consume(|wt.avail|) == wf
  {
    wf0 := Window(wf.base, wf.off - |wt.avail|, wt.avail);
    WrappingAddAssoc(wf.base, wf.off, -|wt.avail|);
    WrappingAddAssoc(wt.NextSeq(), |wt.avail|, -|wt.avail|);
    ZeroAway(wt.NextSeq());
    hide WrappingAdd;
  }

  lemma ZeroAway(s: u32)
    ensures WrappingAdd(s, 0) == s
  {
  }

  /** More bytes for both. */
  lemma BytesAlike(cb: Codebook, t: Core, wt: Window, ot: int, ft: seq<ProcessedFrame>,
                   f: Core, wf: Window, of_: int, ff: seq<ProcessedFrame>, b: seq<byte>)
    requires FramedAlike(t, wt, ot, ft, f, wf, of_, ff) && t.keepPayloads && !f.keepPayloads
    ensures var (t', wt', ft') := Parse(cb, t, wt.Append(b));
            var (f', wf', ff') := Parse(cb, f, wf.Append(b));
            FramedAlike(t', wt', ot, ft + ft', f', wf', of_, ff + ff')
  {
    hide Parse, Twin, OneBehind, Window.NextSeq, Views;
    var (t', wt', ft') := Parse(cb, t, wt.Append(b));
    var (f', wf', ff') := Parse(cb, f, wf.Append(b));
    if OneBehind(t, wt, ot, f, wf, of_) && Views(ff, of_) != Views(ft, ot) {
      var f0, wf0 := Rewind(cb, t, wt, ot, f, wf, of_);
      var d := Dropped(HeaderOf(wt.avail), wf0);
      ParseAppend(cb, f0, wf0, b);
      AppendSame(wt, ot, wf0, of_, b);
      FramedIdentically(cb, t, wt.Append(b), ot, f0, wf0.Append(b), of_);
      RewoundView(t, wt, ot, f, wf, of_, wf0, d);
      ViewsOne(d, of_);
      hide FramedAlike;
      ShiftOne(t', wt', ot, ft, ft', f', wf', of_, ff, d, ff');
    } else {
      assert Twin(t, f) && SameBytes(wt, ot, wf, of_) && Views(ft, ot) == Views(ff, of_) by { InStepCase(t, wt, ot, ft, f, wf, of_, ff); }
      AppendSame(wt, ot, wf, of_, b);
      FramedIdentically(cb, t, wt.Append(b), ot, f, wf.Append(b), of_);
      PrefixAlike(t', wt', ot, ft', f', wf', of_, ff', ft, ff);
    }
  }

  lemma InStepCase(t: Core, wt: Window, ot: int, ft: seq<ProcessedFrame>, f: Core, wf: Window, of_: int, ff: seq<ProcessedFrame>)
    requires FramedAlike(t, wt, ot, ft, f, wf, of_, ff)
    requires !(OneBehind(t, wt, ot, f, wf, of_) && Views(ff, of_) != Views(ft, ot))
    ensures Twin(t, f) && SameBytes(wt, ot, wf, of_) && Views(ft, ot) == Views(ff, of_)
  {
    hide Twin, OneBehind, Views, Window.NextSeq;
  }

  lemma AppendSame(wt: Window, ot: int, wf: Window, of_: int, b: seq<byte>)
    requires SameBytes(wt, ot, wf, of_)
    ensures SameBytes(wt.Append(b), ot, wf.Append(b), of_)
  {
  }

  lemma RewoundView(t: Core, wt: Window, ot: int, f: Core, wf: Window, of_: int, wf0: Window, d: ProcessedFrame)
    requires OneBehind(t, wt, ot, f, wf, of_) && SameBytes(wt, ot, wf0, of_) && d == Dropped(HeaderOf(wt.avail), wf0)
    ensures ViewOf(d, of_) == View(HeaderOf(wt.avail), wt.off - ot, wt.NextSeq(), None, false, None)
  {
    hide Twin;
  }

  /** The frame announced ahead of time counts once. */
  lemma ShiftOne(t: Core, wt: Window, ot: int, ft: seq<ProcessedFrame>, ft': seq<ProcessedFrame>,
                 f: Core, wf: Window, of_: int, ff: seq<ProcessedFrame>, d: ProcessedFrame, ff': seq<ProcessedFrame>)
    requires FramedAlike(t, wt, ot, ft', f, wf, of_, [d] + ff')
    requires Views(ff, of_) == Views(ft, ot) + [ViewOf(d, of_)]
    ensures FramedAlike(t, wt, ot, ft + ft', f, wf, of_, ff + ff')
  {
    hide FramedAlike, Views, ViewOf;
    var before := AllButOne(ft, ot, ff, of_, d);
    PrefixAlike(t, wt, ot, ft', f, wf, of_, [d] + ff', ft, before);
    ViewsConcat(before, [d] + ff', of_);
    ViewsConcat([d], ff', of_);
    ViewsConcat(ff, ff', of_);
    ViewsOne(d, of_);
    Regroup(Views(before, of_), ViewOf(d, of_), Views(ff', of_));
    SameViews(t, wt, ot, ft + ft', f, wf, of_, before + ([d] + ff'), ff + ff');
  }

  lemma AllButOne(ft: seq<ProcessedFrame>, ot: int, ff: seq<ProcessedFrame>, of_: int, d: ProcessedFrame) returns (before: seq<ProcessedFrame>)
    requires Views(ff, of_) == Views(ft, ot) + [ViewOf(d, of_)]
    ensures Views(before, of_) == Views(ft, ot)
  {
    assert ff != [];
    before := ff[..|ff| - 1];
    var last := ff[|ff| - 1];
    assert ff == before + [last];
    hide Views;
    ViewsConcat(before, [last], of_);
    ViewsOne(last, of_);
    SameInit(Views(before, of_), ViewOf(last, of_), Views(ft, ot), ViewOf(d, of_));
  }

  lemma Regroup(a: seq<View>, v: View, b: seq<View>)
    ensures a + ([v] + b) == a + [v] + b
  {
  }

  lemma SameInit(a: seq<View>, x: View, b: seq<View>, y: View)
    requires a + [x] == b + [y]
    ensures a == b
  {
    assert (a + [x])[..|a|] == a && (b + [y])[..|b|] == b;
  }

  lemma SameViews(t: Core, wt: Window, ot: int, ft: seq<ProcessedFrame>, f: Core, wf: Window, of_: int,
                  one: seq<ProcessedFrame>, other: seq<ProcessedFrame>)
    requires FramedAlike(t, wt, ot, ft, f, wf, of_, one) && Views(one, of_) == Views(other, of_)
    ensures FramedAlike(t, wt, ot, ft, f, wf, of_, other)
  {
    hide Twin, OneBehind, SameBytes, Views, Window.NextSeq;
  }

  lemma KeepsPayloads(cb: Codebook, c: Core, w: Window, e: Event)
    ensures OnEvent(cb, c, w, e).0.keepPayloads == c.keepPayloads
  {
    hide Parse;
    if e.Bytes? { H.ParseKeeps(cb, c, w.Append(e.b)); }
  }

  lemma {:induction false} RunAlike(cb: Codebook, t: Core, wt: Window, ot: int, ft: seq<ProcessedFrame>,
                                    f: Core, wf: Window, of_: int, ff: seq<ProcessedFrame>, events: seq<Event>)
    requires FramedAlike(t, wt, ot, ft, f, wf, of_, ff) && t.keepPayloads && !f.keepPayloads
    ensures var (t', wt', ft') := Continue(cb, t, wt, events);
            var (f', wf', ff') := Continue(cb, f, wf, events);
            FramedAlike(t', wt', ot, ft + ft', f', wf', of_, ff + ff')
    decreases |events|
  {
    hide FramedAlike, Parse;
    if events == [] {
      assert ft + [] == ft && ff + [] == ff;
    } else {
      var e := events[0];
      KeepsPayloads(cb, t, wt, e);
      KeepsPayloads(cb, f, wf, e);
      var (t1, wt1, ft1) := OnEvent(cb, t, wt, e);
      var (f1, wf1, ff1) := OnEvent(cb, f, wf, e);
      match e {
        case Bytes(b) => BytesAlike(cb, t, wt, ot, ft, f, wf, of_, ff, b);
        case Capacity(n) =>
          CappedAlike(t, wt, ot, ft, f, wf, of_, ff, n);
          assert ft + [] == ft && ff + [] == ff;
      }
      RunAlike(cb, t1, wt1, ot, ft + ft1, f1, wf1, of_, ff + ff1, events[1..]);
      var ft2, ff2 := Continue(cb, t1, wt1, events[1..]).2, Continue(cb, f1, wf1, events[1..]).2;
      assert ft + (ft1 + ft2) == ft + ft1 + ft2 && ff + (ff1 + ff2) == ff + ff1 + ff2;
    }
  }

  // ----- without a limit -------------------------------------------------------------------------------

  lemma CappedLifts(c: Core, n: nat)
    requires Liftable(c) && !Capped(c, n).dec.overLimit
    ensures Capped(Lift(c), n) == Lift(Capped(c, n)) && Liftable(Capped(c, n))
    ensures c.dec.capacityObserved ==> Capped(c, n).dec.capacityObserved
  {
    hide DecState.Resize;
    if n < c.dec.maxSize {
      ResizeLifts(c.dec, n);
      ResizeObserves(c.dec, n);
    }
  }

  lemma EventSticks(cb: Codebook, c: Core, w: Window, e: Event)
    ensures var c' := OnEvent(cb, c, w, e).0; (c.dec.overLimit ==> c'.dec.overLimit) && (c.poisoned ==> c'.poisoned)
  {
    hide Parse, DecState.Resize;
    match e
    case Bytes(b) => ParseSticks(cb, c, w.Append(b));
    case Capacity(n) => ResizeObserves(c.dec, n);
  }

  lemma {:induction false} RunSticks(cb: Codebook, c: Core, w: Window, events: seq<Event>)
    ensures var c' := Continue(cb, c, w, events).0; (c.dec.overLimit ==> c'.dec.overLimit) && (c.poisoned ==> c'.poisoned)
    decreases |events|
  {
    hide OnEvent;
    if events != [] {
      EventSticks(cb, c, w, events[0]);
      var (c1, w1, _) := OnEvent(cb, c, w, events[0]);
      RunSticks(cb, c1, w1, events[1..]);
    }
  }

  lemma EventLifts(cb: Codebook, c: Core, w: Window, e: Event)
    requires Liftable(c) && Unshaken(c, OnEvent(cb, c, w, e).0)
    ensures var (c', w', out) := OnEvent(cb, c, w, e);
            OnEvent(cb, Lift(c), w, e) == (Lift(c'), w', out) && Liftable(c') && (c.dec.capacityObserved ==> c'.dec.capacityObserved)
  {
    hide Parse, Lift, LiftableDec, Capped;
    match e
    case Bytes(b) => ParseLifts(cb, c, w.Append(b));
    case Capacity(n) => CappedLifts(c, n);
  }

  lemma {:induction false} RunLifts(cb: Codebook, c: Core, w: Window, events: seq<Event>)
    requires Liftable(c) && Unshaken(c, Continue(cb, c, w, events).0)
    ensures var (c', w', out) := Continue(cb, c, w, events);
            Continue(cb, Lift(c), w, events) == (Lift(c'), w', out)
    decreases |events|
  {
    hide OnEvent, Lift, Liftable;
    if events != [] {
      var (c1, w1, _) := OnEvent(cb, c, w, events[0]);
      RunSticks(cb, c1, w1, events[1..]);
      EventLifts(cb, c, w, events[0]);
      RunLifts(cb, c1, w1, events[1..]);
    }
  }

  // ----- the handoff --------------------------------------------------------------------------------------

  /** The seeded reader, from `x` and what the daemon had waiting on, through the same events. */
  function SeededRun(cb: Codebook, live: Core, pending: Window, base: u32, x: seq<byte>, first: seq<byte>, events: seq<Event>):
    (Core, Window, seq<ProcessedFrame>)
  {
    var (t, wt, ft) := Parse(cb, H.Seeded(live, pending.NextSeq()), Window(base, 0, x + (pending.avail + first)));
    var (t', wt', ft') := Continue(cb, t, wt, events);
    (t', wt', ft + ft')
  }

  function LiveRun(cb: Codebook, live: Core, pending: Window, first: seq<byte>, events: seq<Event>): (Core, Window, seq<ProcessedFrame>) {
    Continue(cb, live, pending, [Bytes(first)] + events)
  }

  predicate RunsAlike(cb: Codebook, live: Core, pending: Window, base: u32, x: seq<byte>, first: seq<byte>, events: seq<Event>) {
    var (t, wt, ft) := SeededRun(cb, live, pending, base, x, first, events);
    var (f, wf, ff) := LiveRun(cb, live, pending, first, events);
    && FramedAlike(t, wt, |x|, ft, Lift(f), wf, pending.off, ff)
    && Blocks(Views(ft, |x|)) == Blocks(Views(ff, pending.off))
  }

  lemma RunFrom(cb: Codebook, live: Core, pending: Window, base: u32, x: seq<byte>, first: seq<byte>, events: seq<Event>)
    requires H.Sane(live) && H.SafePoint(live) && H.CleanTable(live.dec.table) && !live.keepPayloads
    requires |x| < TWO31 && WrappingAdd(base, |x|) == pending.NextSeq()
    requires Unshaken(live, LiveRun(cb, live, pending, first, events).0)
    ensures RunsAlike(cb, live, pending, base, x, first, events)
  {
    hide Parse, FramedAlike, H.Sane, H.SafePoint, H.CleanTable, H.Seeded, Views, Blocks;
    var all := [Bytes(first)] + events;
    assert all[1..] == events;
    var (f1, wf1, ff1) := Parse(cb, live, pending.Append(first));
    RunSticks(cb, f1, wf1, events);
    H.HandoffFrom(cb, live, pending, base, x, first);
    H.SeededIsTwin(live, pending.NextSeq());
    ParseLifts(cb, live, pending.Append(first));
    RunLifts(cb, f1, wf1, events);
    var (t1, wt1, ft1) := Parse(cb, H.Seeded(live, pending.NextSeq()), Window(base, 0, x + (pending.avail + first)));
    H.ParseKeeps(cb, H.Seeded(live, pending.NextSeq()), Window(base, 0, x + (pending.avail + first)));
    H.ParseKeeps(cb, live, pending.Append(first));
    SeededKeeps(live, pending.NextSeq());
    RunAlike(cb, t1, wt1, |x|, ft1, Lift(f1), wf1, pending.off, ff1, events);
    var (t, wt, ft) := SeededRun(cb, live, pending, base, x, first, events);
    var (f, wf, ff) := LiveRun(cb, live, pending, first, events);
    AlikeBlocks(t, wt, |x|, ft, Lift(f), wf, pending.off, ff);
  }

  lemma SeededKeeps(live: Core, next: u32)
    ensures H.Seeded(live, next).keepPayloads
  {
  }

  /** Snapshot handoff over whole runs. For a direction the daemon followed from its first byte,
      at a safe point: the reader seeded from the snapshot and the daemon itself, through the
      same pieces of the stream and the same capacities announced between them, emit the same
      frames with the same decoded blocks, while the daemon does not give the table up as too
      large. */
  lemma SnapshotHandoffRuns(cb: Codebook, preface: bool, limit: nat, past: seq<H.Event>, base: u32, x: seq<byte>,
                            first: seq<byte>, events: seq<Event>)
    requires var live := H.DeliverAll(cb, H.Followed(preface, limit), past);
             && H.SafePoint(live.c) && |x| < TWO31 && WrappingAdd(base, |x|) == live.r.win.NextSeq()
             && limit <= USIZE_MAX && !LiveRun(cb, live.c, live.r.win, first, events).0.dec.overLimit
    ensures var live := H.DeliverAll(cb, H.Followed(preface, limit), past);
            RunsAlike(cb, live.c, live.r.win, base, x, first, events)
  {
    var live := H.DeliverAll(cb, H.Followed(preface, limit), past);
    H.AlwaysLive(cb, H.Followed(preface, limit), past);
    hide H.DeliverAll, LiveRun, RunsAlike;
    RunFrom(cb, live.c, live.r.win, base, x, first, events);
  }
}
