/** From packets to frames: what a direction outputs depends only on which bytes have arrived,
    not on how they were cut into segments or in what order the segments came. */
module ConnArrival {
  import opened Basics
  import opened HpackInt
  import opened ReassemblySpec
  import R = ReassemblyTheorems
  import opened Frame
  import opened ConnSpec
  import opened ConnSegmentation

  /** Segments of one stream, by true offset, and clock ticks. */
  datatype Event = Segment(o: int, len: nat, now: nat) | Tick(now: nat)

  function Deliver(cb: Codebook, s: DirState, str: R.Stream, e: Event): (DirState, seq<ProcessedFrame>) {
    match e
    case Segment(o, len, now) => s.Feed(cb, WrappingAdd(s.r.win.base, o), R.Slice(str, o, o + len), now)
    case Tick(now) => s.Tick(cb, now)
  }

  function DeliverAll(cb: Codebook, s: DirState, str: R.Stream, events: seq<Event>): (DirState, seq<ProcessedFrame>)
    decreases |events|
  {
    if events == [] then (s, [])
    else
      var (s1, out) := Deliver(cb, s, str, events[0]);
      var (s2, out') := DeliverAll(cb, s1, str, events[1..]);
      (s2, out + out')
  }

  /** Every segment lies within 2^31 of the position expected when it arrives. */
  ghost predicate Windowed(cb: Codebook, s: DirState, str: R.Stream, events: seq<Event>)
    decreases |events|
  {
    events == [] ||
    ((events[0].Segment? ==> R.InWindow(s.r, events[0].o, events[0].len))
     && Windowed(cb, Deliver(cb, s, str, events[0]).0, str, events[1..]))
  }

  ghost function Arrived(events: seq<Event>): set<R.Seg> {
    set e | e in events && e.Segment? && e.len > 0 :: R.Seg(e.o, e.len)
  }

  // ----- the parser only consumes --------------------------------------------------------

  lemma FrameStepConsumes(cb: Codebook, c: Core, w: Window) returns (k: nat)
    ensures k <= |w.avail| && FrameStep(cb, c, w).w == w.Consume(k)
  {
    hide Core.HandleFrame;
    assert w.Consume(0) == w;
    k := |w.avail| - |FrameStep(cb, c, w).w.avail|;
  }

  lemma SkipConsumes(c: Core, w: Window, target: u32)
    ensures exists k :: 0 <= k <= |w.avail| && DiscardStep(c, w).w == w.Consume(k)
    ensures exists k :: 0 <= k <= |w.avail| && SeekStep(c, w, target).w == w.Consume(k)
    ensures exists k :: 0 <= k <= |w.avail| && PrefaceStep(c, w).w == w.Consume(k)
  {
    hide SignedDiff, Window.NextSeq;
    assert w.Consume(0) == w;
    var n := if c.discard < |w.avail| then c.discard else |w.avail|;
    assert DiscardStep(c, w).w == w.Consume(n);
    var delta := SignedDiff(target, w.NextSeq());
    assert SeekStep(c, w, target).w == w.Consume(if delta <= 0 then 0 else if delta < |w.avail| then delta else |w.avail|);
  }

  lemma ResyncConsumes(c: Core, w: Window)
    ensures exists k :: 0 <= k <= |w.avail| && TryResync(c, w).1 == w.Consume(k)
  {
    assert w.Consume(0) == w;
    var found := Scan(w.avail, 0);
    if found.Some? && found.value.0 > |w.avail| { assert w.Consume(found.value.0) == w.Consume(|w.avail|); }
  }

  lemma StepConsumes(cb: Codebook, c: Core, w: Window) returns (k: nat)
    ensures k <= |w.avail| && ParseStep(cb, c, w).w == w.Consume(k)
  {
    hide FrameStep, DiscardStep, SeekStep, PrefaceStep, TryResync, Window.Consume;
    if c.discard > 0 || c.pendingStartSeq.Some? || (!c.desynced && c.expectPreface) {
      SkipConsumes(c, w, if c.pendingStartSeq.Some? then c.pendingStartSeq.value else 0);
      k :| 0 <= k <= |w.avail| && ParseStep(cb, c, w).w == w.Consume(k);
    } else if c.desynced {
      ResyncConsumes(c, w);
      k :| 0 <= k <= |w.avail| && ParseStep(cb, c, w).w == w.Consume(k);
    } else {
      k := FrameStepConsumes(cb, c, w);
    }
  }

  lemma {:induction false} ParseConsumes(cb: Codebook, c: Core, w: Window) returns (k: nat)
    ensures k <= |w.avail| && Parse(cb, c, w).1 == w.Consume(k)
    decreases |w.avail|, Rank(c)
  {
    k := StepConsumes(cb, c, w);
    StepProgress(cb, c, w);
    hide ParseStep;
    match ParseStep(cb, c, w)
    case Stop(_, _) =>
    case Go(c', w', _) =>
      var m := ParseConsumes(cb, c', w');
      assert w.avail[k..][m..] == w.avail[k + m..];
      k := k + m;
  }

  // ----- one event -------------------------------------------------------------------------

  /** The reassembler's share of the invariant. */
  ghost predicate Sound(r: ReasmState, str: R.Stream, base: u32, segs: set<R.Seg>) {
    R.Inv(r, str) && R.Tracks(r, 0, segs) && r.win.base == base
  }

  lemma ConsumeSound(r: ReasmState, str: R.Stream, base: u32, segs: set<R.Seg>, k: nat)
    requires Sound(r, str, base, segs)
    ensures Sound(r.(win := r.win.Consume(k)), str, base, segs)
  {
    R.ConsumeSafe(r, str, k);
  }

  /** Without a gap, an event parses the newly delivered bytes, and records its segment. */
  lemma SegmentStep(cb: Codebook, s: DirState, str: R.Stream, base: u32, segs: set<R.Seg>, o: int, len: nat, now: nat)
    requires Sound(s.r, str, base, segs) && R.InWindow(s.r, o, len)
    requires Deliver(cb, s, str, Segment(o, len, now)).0.r.gaps == s.r.gaps
    ensures var (s', out) := Deliver(cb, s, str, Segment(o, len, now));
            && Sound(s'.r, str, base, R.With(segs, o, len)) && s'.r.delivered >= s.r.delivered
            && Parse(cb, s.c, s.r.win.Append(R.Slice(str, s.r.delivered, s'.r.delivered))) == (s'.c, s'.r.win, out)
  {
    hide Parse, ReasmState.Push, Core.OnGap;
    var (r', gap) := R.Receive(s.r, str, o, len, now);
    R.PushTracks(s.r, str, 0, segs, o, len, now);
    R.PushAppends(s.r, str, o, len, now);
    var k := ParseConsumes(cb, s.c, r'.win);
    ConsumeSound(r', str, base, R.With(segs, o, len), k);
  }

  lemma EventSafe(cb: Codebook, s: DirState, str: R.Stream, e: Event)
    requires R.Inv(s.r, str) && (e.Segment? ==> R.InWindow(s.r, e.o, e.len))
    ensures var s' := Deliver(cb, s, str, e).0;
            s'.r.gaps >= s.r.gaps && R.Inv(s'.r, str) && s'.r.win.base == s.r.win.base
  {
    hide Parse, ReasmState.Push, Core.OnGap, ReasmState.ForceGap;
    match e
    case Segment(o, len, now) =>
      R.PushSafe(s.r, str, o, len, now);
      var (r', gap) := R.Receive(s.r, str, o, len, now);
      var k := ParseConsumes(cb, if gap then s.c.OnGap() else s.c, r'.win);
      R.ConsumeSafe(r', str, k);
    case Tick(now) =>
      var (r', gap) := s.r.CheckTimeout(now);
      if gap {
        R.ForceGapTracks(s.r, str);
        var k := ParseConsumes(cb, s.c.OnGap(), r'.win);
        R.ConsumeSafe(r', str, k);
      }
  }

  lemma {:induction false} GapsGrow(cb: Codebook, s: DirState, str: R.Stream, events: seq<Event>)
    requires R.Inv(s.r, str) && Windowed(cb, s, str, events)
    ensures DeliverAll(cb, s, str, events).0.r.gaps >= s.r.gaps
    decreases |events|
  {
    hide Deliver;
    if events != [] {
      EventSafe(cb, s, str, events[0]);
      GapsGrow(cb, Deliver(cb, s, str, events[0]).0, str, events[1..]);
    }
  }

  lemma EventCounts(cb: Codebook, s: DirState, str: R.Stream, e: Event)
    ensures var s' := Deliver(cb, s, str, e).0;
            s'.c.resyncs >= s.c.resyncs && (s.c.desynced ==> s'.c.desynced || s'.c.resyncs > s.c.resyncs)
  {
    hide Parse, ReasmState.Push, ReasmState.ForceGap;
    match e
    case Segment(o, len, now) =>
      var (r', gap) := s.r.Push(WrappingAdd(s.r.win.base, o), R.Slice(str, o, o + len), now);
      DesyncIsCounted(cb, if gap then s.c.OnGap() else s.c, r'.win);
    case Tick(now) =>
      DesyncIsCounted(cb, s.c.OnGap(), s.r.CheckTimeout(now).0.win);
  }

  lemma {:induction false} AllCounts(cb: Codebook, s: DirState, str: R.Stream, events: seq<Event>)
    ensures var s' := DeliverAll(cb, s, str, events).0;
            s'.c.resyncs >= s.c.resyncs && (s.c.desynced ==> s'.c.desynced || s'.c.resyncs > s.c.resyncs)
    decreases |events|
  {
    hide Deliver;
    if events != [] {
      EventCounts(cb, s, str, events[0]);
      AllCounts(cb, Deliver(cb, s, str, events[0]).0, str, events[1..]);
    }
  }

  lemma TickStep(cb: Codebook, s: DirState, str: R.Stream, now: nat)
    requires R.Inv(s.r, str) && Deliver(cb, s, str, Tick(now)).0.r.gaps == s.r.gaps
    ensures Deliver(cb, s, str, Tick(now)) == (s, [])
  {
    hide Parse, Core.OnGap, ReasmState.ForceGap;
    if s.r.CheckTimeout(now).1 { R.ForceGapTracks(s.r, str); }
  }

  // ----- whole runs --------------------------------------------------------------------------

  /** The state and the frames so far are those of parsing all delivered bytes at once. */
  ghost predicate ParsedSoFar(cb: Codebook, c0: Core, str: R.Stream, base: u32, s: DirState, out: seq<ProcessedFrame>) {
    s.r.delivered >= 0 && Parse(cb, c0, Window(base, 0, R.Slice(str, 0, s.r.delivered))) == (s.c, s.r.win, out)
  }

  lemma ParsedMore(cb: Codebook, c0: Core, str: R.Stream, base: u32, s: DirState, out: seq<ProcessedFrame>, s': DirState, out': seq<ProcessedFrame>)
    requires ParsedSoFar(cb, c0, str, base, s, out) && InStep(c0, s.c)
    requires s'.r.delivered >= s.r.delivered
    requires Parse(cb, s.c, s.r.win.Append(R.Slice(str, s.r.delivered, s'.r.delivered))) == (s'.c, s'.r.win, out')
    ensures ParsedSoFar(cb, c0, str, base, s', out + out')
  {
    hide Parse;
    var w := Window(base, 0, R.Slice(str, 0, s.r.delivered));
    var more := R.Slice(str, s.r.delivered, s'.r.delivered);
    R.SliceConcat(str, 0, s.r.delivered, s'.r.delivered);
    assert w.Append(more) == Window(base, 0, R.Slice(str, 0, s'.r.delivered));
    ParseAppend(cb, c0, w, more);
  }

  lemma {:induction false} RunIsParse(cb: Codebook, c0: Core, str: R.Stream, base: u32, segs: set<R.Seg>,
                                      s: DirState, out: seq<ProcessedFrame>, events: seq<Event>)
    requires Sound(s.r, str, base, segs) && ParsedSoFar(cb, c0, str, base, s, out)
    requires Windowed(cb, s, str, events)
    requires var s' := DeliverAll(cb, s, str, events).0; s'.r.gaps == s.r.gaps && InStep(c0, s'.c)
    ensures var (s', out') := DeliverAll(cb, s, str, events);
            Sound(s'.r, str, base, segs + Arrived(events)) && ParsedSoFar(cb, c0, str, base, s', out + out')
    decreases |events|
  {
    hide Deliver, ParsedSoFar, Sound;
    if events == [] {
      assert segs + Arrived(events) == segs;
      assert out + [] == out;
    } else {
      var e := events[0];
      var (s1, out1) := Deliver(cb, s, str, e);
      var segs1 := if e.Segment? then R.With(segs, e.o, e.len) else segs;
      assert events == [e] + events[1..];
      assert segs + Arrived(events) == segs1 + Arrived(events[1..]);
      RunStep(cb, c0, str, base, segs, s, out, events);
      RunIsParse(cb, c0, str, base, segs1, s1, out + out1, events[1..]);
      var out2 := DeliverAll(cb, s1, str, events[1..]).1;
      assert out + (out1 + out2) == (out + out1) + out2;
    }
  }

  lemma RunStep(cb: Codebook, c0: Core, str: R.Stream, base: u32, segs: set<R.Seg>,
                s: DirState, out: seq<ProcessedFrame>, events: seq<Event>)
    requires events != [] && Sound(s.r, str, base, segs) && ParsedSoFar(cb, c0, str, base, s, out)
    requires Windowed(cb, s, str, events)
    requires var s' := DeliverAll(cb, s, str, events).0; s'.r.gaps == s.r.gaps && InStep(c0, s'.c)
    ensures var e := events[0];
            var (s1, out1) := Deliver(cb, s, str, e);
            && Sound(s1.r, str, base, if e.Segment? then R.With(segs, e.o, e.len) else segs)
            && ParsedSoFar(cb, c0, str, base, s1, out + out1)
            && s1.r.gaps == s.r.gaps
  {
    hide Deliver;
    var e := events[0];
    var (s1, out1) := Deliver(cb, s, str, e);
    EventSafe(cb, s, str, e);
    GapsGrow(cb, s1, str, events[1..]);
    DesyncIsCounted(cb, c0, Window(base, 0, R.Slice(str, 0, s.r.delivered)));
    AllCounts(cb, s, str, events);
    hide Sound, ParsedSoFar, Parse;
    match e
    case Segment(o, len, now) =>
      SegmentStep(cb, s, str, base, segs, o, len, now);
      ParsedMore(cb, c0, str, base, s, out, s1, out1);
    case Tick(now) =>
      assert R.Inv(s.r, str) by { SoundInv(s.r, str, base, segs); }
      TickStep(cb, s, str, now);
      assert out + [] == out;
  }

  lemma SoundInv(r: ReasmState, str: R.Stream, base: u32, segs: set<R.Seg>)
    requires Sound(r, str, base, segs)
    ensures R.Inv(r, str)
  {
  }

  /** A direction with a known base and a parser that has not started. */
  function FromSyn(c: Core, syn: u32): DirState {
    DirState(c, R.FromSyn(syn))
  }

  predicate Unstarted(c: Core) {
    c.discard == 0 && c.pendingStartSeq.None? && !c.desynced
  }

  /** While no gap is declared and the parser stays in step: the frames, the decoded blocks and
      the final state are those of parsing, in one piece, exactly the longest contiguous
      prefix of the stream that the arrived segments cover. */
  lemma OutputIsParseOfPrefix(cb: Codebook, c: Core, syn: u32, str: R.Stream, events: seq<Event>)
    requires Unstarted(c) && Windowed(cb, FromSyn(c, syn), str, events)
    requires var s := DeliverAll(cb, FromSyn(c, syn), str, events).0; s.r.gaps == 0 && InStep(c, s.c)
    ensures var (s, out) := DeliverAll(cb, FromSyn(c, syn), str, events);
            && R.IsFrontier(Arrived(events), s.r.delivered)
            && Parse(cb, c, Window(WrappingAdd(syn, 1), 0, R.Slice(str, 0, s.r.delivered))) == (s.c, s.r.win, out)
  {
    var base := WrappingAdd(syn, 1);
    var s0 := FromSyn(c, syn);
    R.FromSynStarts(syn, str);
    assert R.Slice(str, 0, 0) == [];
    assert ParseStep(cb, c, s0.r.win) == Stop(c, s0.r.win);
    ParseOf(cb, c, s0.r.win);
    assert ParsedSoFar(cb, c, str, base, s0, []);
    hide Parse, ParseStep, DeliverAll;
    RunIsParse(cb, c, str, base, {}, s0, [], events);
    var (s, out) := DeliverAll(cb, s0, str, events);
    assert {} + Arrived(events) == Arrived(events) && [] + out == out;
    R.TracksIsFrontier(s.r, str, Arrived(events));
  }

  /** The same for a direction whose base is its first segment, whatever its parser is waiting for. */
  lemma OutputFromFirst(cb: Codebook, c: Core, base: u32, str: R.Stream, events: seq<Event>)
    requires events != [] && events[0].Segment? && events[0].o == 0 && events[0].len > 0
    requires Windowed(cb, FromBase(c, base), str, events)
    requires var s := DeliverAll(cb, FromBase(c, base), str, events).0; s.r.gaps == 0 && InStep(c, s.c)
    ensures var (s, out) := DeliverAll(cb, FromBase(c, base), str, events);
            && R.IsFrontier(Arrived(events), s.r.delivered)
            && Parse(cb, c, Window(base, 0, R.Slice(str, 0, s.r.delivered))) == (s.c, s.r.win, out)
  {
    var s0, e := FromBase(c, base), events[0];
    FromBaseStarts(c, base, str);
    var (s1, out1) := Deliver(cb, s0, str, e);
    hide Parse, Deliver, R.Inv, R.Tracks;
    assert events == [e] + events[1..];
    assert {} + Arrived(events) == R.With({}, e.o, e.len) + Arrived(events[1..]);
    EventSafe(cb, s0, str, e);
    GapsGrow(cb, s1, str, events[1..]);
    SegmentStep(cb, s0, str, base, {}, e.o, e.len, e.now);
    assert s0.r.win.Append(R.Slice(str, 0, s1.r.delivered)) == Window(base, 0, R.Slice(str, 0, s1.r.delivered));
    assert ParsedSoFar(cb, c, str, base, s1, out1);
    RunIsParse(cb, c, str, base, R.With({}, e.o, e.len), s1, out1, events[1..]);
    var (s, out) := DeliverAll(cb, s0, str, events);
    assert {} + Arrived(events) == Arrived(events);
    SoundFrontier(s.r, str, base, Arrived(events));
  }

  function FromBase(c: Core, base: u32): DirState {
    DirState(c, NewReassembler().Initialize(base))
  }

  lemma FromBaseStarts(c: Core, base: u32, str: R.Stream)
    ensures Sound(FromBase(c, base).r, str, base, {}) && FromBase(c, base).r.win == Window(base, 0, [])
    ensures FromBase(c, base).r.gaps == 0 && FromBase(c, base).r.delivered == 0 && R.Inv(FromBase(c, base).r, str)
  {
  }

  lemma SoundFrontier(r: ReasmState, str: R.Stream, base: u32, segs: set<R.Seg>)
    requires Sound(r, str, base, segs)
    ensures R.IsFrontier(segs, r.delivered)
  {
    R.TracksIsFrontier(r, str, segs);
  }

  /** Two arrival orders of the same segments, however cut, duplicated or reordered, give the
      same frames, the same decoded blocks and the same parser and decoder state. */
  lemma ArrivalOrderIrrelevant(cb: Codebook, c: Core, syn: u32, str: R.Stream, a: seq<Event>, b: seq<Event>)
    requires Unstarted(c)
    requires Windowed(cb, FromSyn(c, syn), str, a) && Windowed(cb, FromSyn(c, syn), str, b)
    requires var s := DeliverAll(cb, FromSyn(c, syn), str, a).0; s.r.gaps == 0 && InStep(c, s.c)
    requires var s := DeliverAll(cb, FromSyn(c, syn), str, b).0; s.r.gaps == 0 && InStep(c, s.c)
    requires forall x :: R.Covered(Arrived(a), x) <==> R.Covered(Arrived(b), x)
    ensures var (sa, fa) := DeliverAll(cb, FromSyn(c, syn), str, a);
            var (sb, fb) := DeliverAll(cb, FromSyn(c, syn), str, b);
            fa == fb && sa.c == sb.c && sa.r.win == sb.r.win
  {
    hide DeliverAll, Parse;
    OutputIsParseOfPrefix(cb, c, syn, str, a);
    OutputIsParseOfPrefix(cb, c, syn, str, b);
    var na, nb := DeliverAll(cb, FromSyn(c, syn), str, a).0.r.delivered, DeliverAll(cb, FromSyn(c, syn), str, b).0.r.delivered;
    assert R.IsFrontier(Arrived(a), nb);
    R.FrontierUnique(Arrived(a), na, nb);
  }
}
