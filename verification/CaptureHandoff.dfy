/** From tap to rebuild: what the daemon knew when it took a snapshot, and what a rebuilder
    makes of that snapshot and of the capture that starts with the ring. */
module CaptureHandoff {
  import opened Basics
  import opened HpackInt
  import HpackSpec
  import opened Frame
  import opened ReassemblySpec
  import R = ReassemblyTheorems
  import opened ConnSpec
  import opened ConnSegmentation
  import opened ConnTwins
  import opened ConnLifted
  import opened ConnHandoff
  import A = ConnArrival
  import opened Pkt
  import opened CaptureRing
  import opened TrackerSpec
  import opened TrackerCoverage
  import opened TrackerStream
  import RebuildWire

  // ----- the rebuilder ---------------------------------------------------------------------------

  /** What the rebuilder's direction does with one captured packet. */
  function ReadPacket(cb: Codebook, s: DirState, up: Endpoint, client: bool, p: Packet): (DirState, seq<ProcessedFrame>) {
    match SegmentOf(up, client, p)
    case None => (s, [])
    case Some(t) => RebuildWire.ListenOne(cb, s, p.ts, t)
  }

  function ReadCapture(cb: Codebook, s: DirState, up: Endpoint, client: bool, capture: seq<Captured>): (DirState, seq<ProcessedFrame>)
    decreases |capture|
  {
    if capture == [] then (s, [])
    else
      var (s1, out1) := ReadPacket(cb, s, up, client, capture[0].p);
      var (s2, out2) := ReadCapture(cb, s1, up, client, capture[1..]);
      (s2, out1 + out2)
  }

  /** The capture holds no SYN of this direction. */
  predicate NoSyn(up: Endpoint, client: bool, capture: seq<Captured>) {
    forall q :: q in capture ==> var t := SegmentOf(up, client, q.p); t.Some? ==> !Bit(t.value.flags, SYN)
  }

  predicate AllSlices(up: Endpoint, client: bool, capture: seq<Captured>, base: u32, str: R.Stream) {
    forall q :: q in capture ==> Slices(up, client, q, base, str)
  }

  /** The stream offset of the first payload heard. */
  function FirstHeard(up: Endpoint, client: bool, capture: seq<Captured>): Option<int> {
    if capture == [] then None
    else if PartOf(up, client, capture[0].p).Some? then Some(capture[0].o) else FirstHeard(up, client, capture[1..])
  }

  /** What the reader hears, by offset from where it started. */
  function Events(up: Endpoint, client: bool, capture: seq<Captured>, origin: int): seq<A.Event> {
    if capture == [] then []
    else
      var h := PartOf(up, client, capture[0].p);
      (if h.Some? then [A.Segment(capture[0].o - origin, |h.value.data|, capture[0].p.ts)] else [])
      + Events(up, client, capture[1..], origin)
  }

  /** The stream counted from `origin`. */
  function From(str: R.Stream, origin: int): R.Stream {
    x => str(x + origin)
  }

  lemma SliceFrom(str: R.Stream, origin: int, a: int, b: int)
    requires a <= b
    ensures R.Slice(From(str, origin), a, b) == R.Slice(str, a + origin, b + origin)
  {
  }

  /** One packet, once the reader has a base. */
  lemma PacketAsEvent(cb: Codebook, s: DirState, up: Endpoint, client: bool, q: Captured, base: u32, origin: int, str: R.Stream)
    requires s.r.initialized && s.r.win.base == WrappingAdd(base, origin)
    requires NoSyn(up, client, [q]) && Slices(up, client, q, base, str)
    ensures var h := PartOf(up, client, q.p);
            ReadPacket(cb, s, up, client, q.p) ==
              if h.None? then (s, []) else A.Deliver(cb, s, From(str, origin), A.Segment(q.o - origin, |h.value.data|, q.p.ts))
  {
    hide DirState.Feed, SegmentOf, From, R.Slice;
    assert q in [q];
    var h := PartOf(up, client, q.p);
    if h.Some? {
      WrappingAddAssoc(base, origin, q.o - origin);
      SliceFrom(str, origin, q.o - origin, q.o - origin + |h.value.data|);
    }
  }

  lemma {:induction false} ReadsAsDelivered(cb: Codebook, s: DirState, up: Endpoint, client: bool, capture: seq<Captured>,
                                            base: u32, origin: int, str: R.Stream)
    requires s.r.initialized && s.r.win.base == WrappingAdd(base, origin) && R.Inv(s.r, From(str, origin))
    requires NoSyn(up, client, capture) && AllSlices(up, client, capture, base, str)
    requires A.Windowed(cb, s, From(str, origin), Events(up, client, capture, origin))
    ensures ReadCapture(cb, s, up, client, capture) == A.DeliverAll(cb, s, From(str, origin), Events(up, client, capture, origin))
    decreases |capture|
  {
    hide PartOf, SegmentOf, A.Deliver, ReadPacket, From, R.Inv, Slices;
    if capture != [] {
      var q, rest := capture[0], capture[1..];
      PacketAsEvent(cb, s, up, client, q, base, origin, str) by { FirstOf(up, client, capture); }
      RestOf(up, client, capture, base, str);
      var events, later := Events(up, client, capture, origin), Events(up, client, rest, origin);
      if PartOf(up, client, q.p).Some? {
        assert events == [events[0]] + later && events[1..] == later;
        A.EventSafe(cb, s, From(str, origin), events[0]);
        var s1 := A.Deliver(cb, s, From(str, origin), events[0]).0;
        InvStarted(s1.r, From(str, origin));
        ReadsAsDelivered(cb, s1, up, client, rest, base, origin, str);
      } else {
        assert events == later;
        ReadsAsDelivered(cb, s, up, client, rest, base, origin, str);
        var r := A.DeliverAll(cb, s, From(str, origin), later);
        assert [] + r.1 == r.1;
      }
    }
  }

  lemma FirstOf(up: Endpoint, client: bool, capture: seq<Captured>)
    requires capture != [] && NoSyn(up, client, capture)
    ensures NoSyn(up, client, [capture[0]])
  {
  }

  lemma RestOf(up: Endpoint, client: bool, capture: seq<Captured>, base: u32, str: R.Stream)
    requires capture != [] && NoSyn(up, client, capture) && AllSlices(up, client, capture, base, str)
    ensures NoSyn(up, client, capture[1..]) && AllSlices(up, client, capture[1..], base, str)
    ensures Slices(up, client, capture[0], base, str)
  {
    hide Slices, SegmentOf;
    assert capture[0] in capture;
  }

  /** A fresh reader takes its base from the first payload it hears. */
  lemma {:induction false} FreshReads(cb: Codebook, c: Core, up: Endpoint, client: bool, capture: seq<Captured>,
                                      base: u32, origin: int, str: R.Stream)
    requires FirstHeard(up, client, capture) == Some(origin)
    requires NoSyn(up, client, capture) && AllSlices(up, client, capture, base, str)
    requires A.Windowed(cb, A.FromBase(c, WrappingAdd(base, origin)), From(str, origin), Events(up, client, capture, origin))
    ensures ReadCapture(cb, DirState(c, NewReassembler()), up, client, capture)
         == A.DeliverAll(cb, A.FromBase(c, WrappingAdd(base, origin)), From(str, origin), Events(up, client, capture, origin))
    decreases |capture|
  {
    hide PartOf, From, R.Inv, Slices, A.Deliver, ReadPacket;
    var s0, s1 := DirState(c, NewReassembler()), A.FromBase(c, WrappingAdd(base, origin));
    var q, rest := capture[0], capture[1..];
    RestOf(up, client, capture, base, str);
    FirstOf(up, client, capture);
    if PartOf(up, client, q.p).Some? {
      A.FromBaseStarts(c, WrappingAdd(base, origin), From(str, origin));
      InvStarted(s1.r, From(str, origin));
      FirstAsNext(cb, c, up, client, q, base, str);
      assert ReadCapture(cb, s0, up, client, capture) == ReadCapture(cb, s1, up, client, capture);
      ReadsAsDelivered(cb, s1, up, client, capture, base, origin, str);
    } else {
      UnheardIsNothing(cb, s0, up, client, q.p) by { FirstOf(up, client, capture); }
      var events := Events(up, client, rest, origin);
      assert [] + events == events;
      FreshReads(cb, c, up, client, rest, base, origin, str);
      var r := ReadCapture(cb, s0, up, client, rest);
      assert [] + r.1 == r.1;
    }
  }

  lemma FirstAsNext(cb: Codebook, c: Core, up: Endpoint, client: bool, q: Captured, base: u32, str: R.Stream)
    requires PartOf(up, client, q.p).Some? && NoSyn(up, client, [q]) && Slices(up, client, q, base, str)
    ensures ReadPacket(cb, DirState(c, NewReassembler()), up, client, q.p)
         == ReadPacket(cb, A.FromBase(c, WrappingAdd(base, q.o)), up, client, q.p)
  {
    hide ReasmState.Push, SegmentOf, Parse;
    assert q in [q];
    var h := PartOf(up, client, q.p).value;
    PushInitializes(NewReassembler(), h.seq_, h.data, q.p.ts);
  }

  lemma UnheardIsNothing(cb: Codebook, s: DirState, up: Endpoint, client: bool, p: Packet)
    requires PartOf(up, client, p).None?
    requires var t := SegmentOf(up, client, p); t.Some? ==> !Bit(t.value.flags, SYN)
    ensures ReadPacket(cb, s, up, client, p) == (s, [])
  {
    hide SegmentOf, DirState.Feed;
  }

  // ----- what is read --------------------------------------------------------------------------------

  lemma {:induction false} EventsCover(up: Endpoint, client: bool, capture: seq<Captured>, origin: int, x: int)
    ensures R.Covered(A.Arrived(Events(up, client, capture, origin)), x - origin) <==> R.Covered(SegsOf(up, client, capture), x)
    decreases |capture|
  {
    hide SegsOf, A.Arrived;
    if capture == [] {
      NoSegs(up, client);
      assert A.Arrived([]) == {} by { NoArrivals(); }
    } else {
      var q, rest := capture[0], capture[1..];
      assert capture == [q] + rest;
      SegsConcat(up, client, [q], rest);
      SegsOfOne(up, client, q);
      EventsCover(up, client, rest, origin, x);
      var h := PartOf(up, client, q.p);
      var later := Events(up, client, rest, origin);
      if h.Some? {
        var e := A.Segment(q.o - origin, |h.value.data|, q.p.ts);
        assert Events(up, client, capture, origin) == [e] + later;
        ArrivedCons(e, later);
        CoveredBoth({R.Seg(q.o - origin, |h.value.data|)}, A.Arrived(later), x - origin);
        CoveredBoth({R.Seg(q.o, |h.value.data|)}, SegsOf(up, client, rest), x);
        CoveredOne(q.o - origin, |h.value.data|, x - origin);
        CoveredOne(q.o, |h.value.data|, x);
      } else {
        assert [] + later == later;
        assert {} + SegsOf(up, client, rest) == SegsOf(up, client, rest);
      }
    }
  }

  lemma NoArrivals()
    ensures A.Arrived([]) == {}
  {
  }

  lemma ArrivedCons(e: A.Event, later: seq<A.Event>)
    requires e.Segment? && e.len > 0
    ensures A.Arrived([e] + later) == {R.Seg(e.o, e.len)} + A.Arrived(later)
  {
  }

  lemma CoveredBoth(a: set<R.Seg>, b: set<R.Seg>, x: int)
    ensures R.Covered(a + b, x) <==> R.Covered(a, x) || R.Covered(b, x)
  {
  }

  lemma CoveredOne(o: int, len: nat, x: int)
    ensures R.Covered({R.Seg(o, len)}, x) <==> o <= x < o + len
  {
    if o <= x < o + len { assert R.Seg(o, len) in {R.Seg(o, len)} && R.Seg(o, len).o <= x < R.Seg(o, len).End(); }
  }

  lemma {:induction false} FirstEvent(up: Endpoint, client: bool, capture: seq<Captured>, origin: int)
    requires FirstHeard(up, client, capture) == Some(origin)
    ensures var events := Events(up, client, capture, origin);
            events != [] && events[0].Segment? && events[0].o == 0 && events[0].len > 0
    decreases |capture|
  {
    hide SegmentOf;
    if PartOf(up, client, capture[0].p).None? { FirstEvent(up, client, capture[1..], origin); }
  }

  /** The reader is given a base by the first payload, stays near what it expects, and neither
      declares a gap nor loses a frame boundary. */
  ghost predicate ReadsOn(cb: Codebook, c: Core, up: Endpoint, client: bool, capture: seq<Captured>, base: u32, origin: int, str: R.Stream) {
    && FirstHeard(up, client, capture) == Some(origin)
    && A.Windowed(cb, A.FromBase(c, WrappingAdd(base, origin)), From(str, origin), Events(up, client, capture, origin))
    && var s := ReadCapture(cb, DirState(c, NewReassembler()), up, client, capture).0; s.r.gaps == 0 && InStep(c, s.c)
  }

  /** Packet by packet, in whatever order and however often a byte comes, the reader parses the
      stream from the first payload heard to the first byte that the capture does not hold. */
  lemma ReaderParses(cb: Codebook, c: Core, up: Endpoint, client: bool, capture: seq<Captured>, base: u32, origin: int, str: R.Stream)
    requires NoSyn(up, client, capture) && AllSlices(up, client, capture, base, str)
    requires ReadsOn(cb, c, up, client, capture, base, origin, str)
    ensures var (s, out) := ReadCapture(cb, DirState(c, NewReassembler()), up, client, capture);
            var d, segs := s.r.delivered, SegsOf(up, client, capture);
            && (forall x :: origin <= x < origin + d ==> R.Covered(segs, x)) && !R.Covered(segs, origin + d)
            && Parse(cb, c, Window(WrappingAdd(base, origin), 0, R.Slice(str, origin, origin + d))) == (s.c, s.r.win, out)
  {
    hide Parse, A.DeliverAll, A.Windowed, ReadCapture, From, SegsOf, NoSyn, AllSlices, R.Covered, A.Arrived;
    var events := Events(up, client, capture, origin);
    FreshReads(cb, c, up, client, capture, base, origin, str);
    FirstEvent(up, client, capture, origin);
    A.OutputFromFirst(cb, c, WrappingAdd(base, origin), From(str, origin), events);
    var d := ReadCapture(cb, DirState(c, NewReassembler()), up, client, capture).0.r.delivered;
    SliceFrom(str, origin, 0, d);
    EventsCover(up, client, capture, origin, origin + d);
    forall x | origin <= x < origin + d ensures R.Covered(SegsOf(up, client, capture), x) {
      EventsCover(up, client, capture, origin, x);
      assert 0 <= x - origin < d;
    }
  }

  // ----- reaching the snapshot point -----------------------------------------------------------------

  /** Short of the snapshot point the reader only skips. */
  lemma SeekStalls(cb: Codebook, c: Core, base: u32, lead: nat, bytes: seq<byte>)
    requires c.discard == 0 && lead < TWO31 && c.pendingStartSeq == Some(WrappingAdd(base, lead)) && |bytes| < lead
    ensures var (c', _, out) := Parse(cb, c, Window(base, 0, bytes));
            out == [] && c'.pendingStartSeq.Some? && c'.snapshotMisaligned == c.snapshotMisaligned
  {
    var w := Window(base, 0, bytes);
    SignedDiffOfShift(base, lead);
    assert w.NextSeq() == base;
    hide SignedDiff, Window.NextSeq;
    if bytes == [] {
      assert ParseStep(cb, c, w) == Stop(c, w);
      ParseOf(cb, c, w);
    } else {
      var n := |bytes|;
      var c1, w1 := c.(preSnapshotSkipped := c.preSnapshotSkipped + n), w.Consume(n);
      assert ParseStep(cb, c, w) == Go(c1, w1, []);
      StillAhead(base, lead, n);
      NextOf(w, n);
      assert ParseStep(cb, c1, w1) == Stop(c1, w1);
      hide ParseStep;
      ParseOf(cb, c, w);
      ParseOf(cb, c1, w1);
      assert Parse(cb, c, w).2 == [] + [];
    }
  }

  lemma StillAhead(base: u32, lead: nat, n: nat)
    requires n < lead < TWO31
    ensures SignedDiff(WrappingAdd(base, lead), WrappingAdd(base, n)) == lead - n
  {
    WrappingAddAssoc(base, n, lead - n);
    SignedDiffOfShift(WrappingAdd(base, n), lead - n);
  }

  lemma NextOf(w: Window, n: nat)
    requires n == |w.avail|
    ensures w.Consume(n).NextSeq() == WrappingAdd(w.base, w.off + n) && w.Consume(n).avail == []
  {
  }

  lemma SeedSane(live: Core, next: u32)
    requires Sane(live) && SafePoint(live)
    ensures var c := Seeded(live, next);
            c.discard == 0 && c.pendingStartSeq == Some(next) && !c.snapshotMisaligned && forall n: nat :: Sane(c.(pendingStartSeq := None, preSnapshotSkipped := n))
  {
  }

  /** Past it, the seek is over for good. */
  lemma SeekEnds(cb: Codebook, live: Core, next: u32, base: u32, x: seq<byte>, rest: seq<byte>)
    requires Sane(live) && SafePoint(live) && |x| < TWO31 && WrappingAdd(base, |x|) == next
    ensures var c' := Parse(cb, Seeded(live, next), Window(base, 0, x + rest)).0; c'.pendingStartSeq.None? && !c'.snapshotMisaligned
  {
    SeedSane(live, next);
    hide Seeded, Sane;
    var c := Seeded(live, next);
    SeekArrives(cb, c, base, x, rest);
    var c' := c.(pendingStartSeq := None, preSnapshotSkipped := c.preSnapshotSkipped + |x|);
    ParseKeepsSeek(cb, c', Window(base, |x|, rest));
  }

  predicate SameSeek(c: Core, c': Core) {
    c'.pendingStartSeq == c.pendingStartSeq && c'.snapshotMisaligned == c.snapshotMisaligned
  }

  lemma FinishKeepsSeek(cb: Codebook, c: Core)
    ensures SameSeek(c, c.FinishBlock(cb).0)
  {
    hide HpackSpec.Decode, StreamsAfter, KindOf;
  }

  lemma HandleKeepsSeek(cb: Codebook, c: Core, h: FrameHeader, payload: seq<byte>, w: Window)
    ensures SameSeek(c, c.HandleFrame(cb, h, payload, w).0)
  {
    hide Core.FinishBlock, HeaderBlockFragment, SettingsTableSize, PromisedId, Window.NextSeq;
    if h.typ == HEADERS || h.typ == PUSH_PROMISE {
      var frag := HeaderBlockFragment(h, payload);
      var ready := c.Prepare(h, payload);
      if frag.Some? { FinishKeepsSeek(cb, ready.(block := ready.block + frag.value, blockHdr := Some(h))); }
    } else if h.typ == CONTINUATION {
      FinishKeepsSeek(cb, c.(block := c.block + payload));
    }
  }

  lemma StepKeepsSeek(cb: Codebook, c: Core, w: Window)
    ensures var c' := ParseStep(cb, c, w).c;
            && (c.snapshotMisaligned ==> c'.snapshotMisaligned)
            && (c.pendingStartSeq.None? ==> c'.pendingStartSeq.None? && c'.snapshotMisaligned == c.snapshotMisaligned)
  {
    hide Core.HandleFrame, Scan, SignedDiff, Window.NextSeq, Window.Consume;
    var h := ParseHeader(w.avail);
    if h.Some? && |w.avail| >= h.value.TotalLen() {
      HandleKeepsSeek(cb, c.(frames := c.frames + 1), h.value, w.avail[FRAME_HEADER_LEN..h.value.TotalLen()], w);
    }
  }

  /** A seek that is over stays over, and a misalignment is never forgotten. */
  lemma {:induction false} ParseKeepsSeek(cb: Codebook, c: Core, w: Window)
    ensures var c' := Parse(cb, c, w).0;
            && (c.snapshotMisaligned ==> c'.snapshotMisaligned)
            && (c.pendingStartSeq.None? ==> c'.pendingStartSeq.None? && c'.snapshotMisaligned == c.snapshotMisaligned)
    decreases |w.avail|, Rank(c)
  {
    hide ParseStep;
    StepKeepsSeek(cb, c, w);
    StepProgress(cb, c, w);
    match ParseStep(cb, c, w)
    case Stop(_, _) =>
    case Go(c', w', _) => ParseKeepsSeek(cb, c', w');
  }

  // ----- starting past the snapshot point -------------------------------------------------------------

  /** A first payload past the point: the seeded table is dropped, the boundary given up, and the
      misalignment noted, before anything is parsed. */
  lemma LateStartForgets(cb: Codebook, c: Core, base: u32, past: nat, bytes: seq<byte>)
    requires c.discard == 0 && 0 < past <= TWO31 && c.pendingStartSeq == Some(WrappingAdd(base, 0 - past))
    ensures var c1 := SeekDone(c, true);
            && Parse(cb, c, Window(base, 0, bytes)) == Parse(cb, c1, Window(base, 0, bytes))
            && c1.snapshotMisaligned && c1.desynced && c1.dec.table == [] && !c1.dec.IsExact()
  {
    SignedDiffOfShift(base, 0 - past);
    var w := Window(base, 0, bytes);
    assert w.NextSeq() == base;
    hide SignedDiff, Window.NextSeq, WrappingAdd;
    assert SeekStep(c, w, c.pendingStartSeq.value) == Go(SeekDone(c, true), w, []);
    SilentStep(cb, c, w, SeekDone(c, true), w);
  }

  lemma FeedKeepsMisaligned(cb: Codebook, s: DirState, q: u32, data: seq<byte>, now: nat)
    requires s.c.snapshotMisaligned
    ensures s.Feed(cb, q, data, now).0.c.snapshotMisaligned
  {
    hide Parse, ReasmState.Push;
    var (r', gap) := s.r.Push(q, data, now);
    ParseKeepsSeek(cb, if gap then s.c.OnGap() else s.c, r'.win);
  }

  lemma {:induction false} ReadKeepsMisaligned(cb: Codebook, s: DirState, up: Endpoint, client: bool, capture: seq<Captured>)
    requires s.c.snapshotMisaligned
    ensures ReadCapture(cb, s, up, client, capture).0.c.snapshotMisaligned
    decreases |capture|
  {
    hide DirState.Feed, SegmentOf;
    if capture != [] {
      var t := SegmentOf(up, client, capture[0].p);
      if t.Some? {
        var s1 := if Bit(t.value.flags, SYN) then s.(r := s.r.NoteSyn(t.value.seq_)) else s;
        FeedKeepsMisaligned(cb, s1, t.value.seq_, t.value.payload, capture[0].p.ts);
      }
      ReadKeepsMisaligned(cb, ReadPacket(cb, s, up, client, capture[0].p).0, up, client, capture[1..]);
    }
  }

  /** A reader whose first payload lies past the snapshot point ends misaligned, whatever follows. */
  lemma {:induction false} LateStart(cb: Codebook, c: Core, up: Endpoint, client: bool, capture: seq<Captured>,
                                     base: u32, origin: int, off: int, str: R.Stream)
    requires c.discard == 0 && c.pendingStartSeq == Some(WrappingAdd(base, off)) && off < origin <= off + TWO31
    requires FirstHeard(up, client, capture) == Some(origin)
    requires NoSyn(up, client, capture) && AllSlices(up, client, capture, base, str)
    ensures ReadCapture(cb, DirState(c, NewReassembler()), up, client, capture).0.c.snapshotMisaligned
    decreases |capture|
  {
    hide PartOf, Slices, ReadPacket;
    var s, q := DirState(c, NewReassembler()), capture[0];
    RestOf(up, client, capture, base, str);
    FirstOf(up, client, capture);
    if PartOf(up, client, q.p).Some? {
      LateFirst(cb, c, up, client, q, base, off, str);
      ReadKeepsMisaligned(cb, ReadPacket(cb, s, up, client, q.p).0, up, client, capture[1..]);
    } else {
      UnheardIsNothing(cb, s, up, client, q.p);
      LateStart(cb, c, up, client, capture[1..], base, origin, off, str);
    }
  }

  lemma LateFirst(cb: Codebook, c: Core, up: Endpoint, client: bool, q: Captured, base: u32, off: int, str: R.Stream)
    requires c.discard == 0 && c.pendingStartSeq == Some(WrappingAdd(base, off)) && off < q.o <= off + TWO31
    requires PartOf(up, client, q.p).Some? && NoSyn(up, client, [q]) && Slices(up, client, q, base, str)
    ensures ReadPacket(cb, DirState(c, NewReassembler()), up, client, q.p).0.c.snapshotMisaligned
  {
    assert q in [q];
    var h := PartOf(up, client, q.p).value;
    hide ReasmState.Push, SegmentOf, Parse, R.Slice;
    PushInitializes(NewReassembler(), h.seq_, h.data, q.p.ts);
    var i := NewReassembler().Initialize(h.seq_);
    InOrderPush(i, h.data, q.p.ts);
    WrappingAddAssoc(base, q.o, off - q.o);
    LateStartForgets(cb, c, h.seq_, q.o - off, h.data);
    ParseKeepsSeek(cb, SeekDone(c, true), Window(h.seq_, 0, h.data));
    assert i.Append(h.data).win == Window(h.seq_, 0, h.data);
  }

  /** Where the stream is split: the lead that is skipped, what the daemon had waiting, and what
      it has yet to read. */
  lemma SplitStream(str: R.Stream, origin: int, r: ReasmState, m: int)
    requires R.Inv(r, str) && origin <= r.win.off && r.delivered <= m
    ensures R.Slice(str, origin, m) == R.Slice(str, origin, r.win.off) + (r.win.avail + R.Slice(str, r.delivered, m))
  {
    R.SliceConcat(str, r.win.off, r.delivered, m);
    R.SliceConcat(str, origin, r.win.off, m);
  }

  lemma SplitLead(str: R.Stream, origin: int, off: int, m: int)
    requires origin <= off <= m
    ensures R.Slice(str, origin, m) == R.Slice(str, origin, off) + R.Slice(str, off, m)
  {
    R.SliceConcat(str, origin, off, m);
  }

  lemma OriginToOffset(base: u32, origin: int, off: int)
    ensures WrappingAdd(WrappingAdd(base, origin), off - origin) == WrappingAdd(base, off)
  {
    WrappingAddAssoc(base, origin, off - origin);
  }

  /** Every byte of the lead, from the first payload heard to the snapshot point, is in the capture. */
  ghost predicate LeadHeld(segs: set<R.Seg>, origin: int, off: int) {
    forall x :: origin <= x < off ==> R.Covered(segs, x)
  }

  /** The reader's outcome against the daemon's on the same bytes, up to stream offset `m`. */
  predicate ReadsAlike(cb: Codebook, live: Track, str: R.Stream, origin: int, t: Core, wt: Window, ft: seq<ProcessedFrame>, m: int) {
    && m >= live.dir.r.delivered
    && var (f, wf, ff) := Parse(cb, live.dir.c, live.dir.r.win.Append(R.Slice(str, live.dir.r.delivered, m)));
    var pending := live.dir.r.win;
    !f.dec.overLimit ==>
      && FramedAlike(t, wt, pending.off - origin, ft, Lift(f), wf, pending.off, ff)
      && Blocks(Views(ft, pending.off - origin)) == Blocks(Views(ff, pending.off))
  }

  /** The reader against the daemon, given where the reader's stream ends. */
  lemma ReaderAgainstLive(cb: Codebook, live: Track, str: R.Stream, origin: int, segs: set<R.Seg>, m: int)
    returns (t: Core, wt: Window, ft: seq<ProcessedFrame>)
    requires R.Inv(live.dir.r, str) && LiveInv(live.dir.c) && SafePoint(live.dir.c) && !live.dir.c.keepPayloads
    requires forall x :: live.dir.r.win.off <= x < live.dir.r.delivered ==> R.Covered(segs, x)
    requires origin <= live.dir.r.win.off < origin + TWO31 && origin <= m
    requires (forall x :: origin <= x < m ==> R.Covered(segs, x)) && !R.Covered(segs, m)
    ensures (t, wt, ft) == Parse(cb, Seeded(live.dir.c, live.dir.r.win.NextSeq()),
                                 Window(WrappingAdd(live.dir.r.win.base, origin), 0, R.Slice(str, origin, m)))
    ensures !t.snapshotMisaligned && (t.pendingStartSeq.None? <==> LeadHeld(segs, origin, live.dir.r.win.off))
    ensures !LeadHeld(segs, origin, live.dir.r.win.off) ==> ft == []
    ensures LeadHeld(segs, origin, live.dir.r.win.off) ==> ReadsAlike(cb, live, str, origin, t, wt, ft, m)
  {
    hide Parse, R.Inv, R.Covered, LiveInv, Sane, SafePoint, Seeded, FramedAlike, Views, Blocks, R.Slice, Lift, CleanTable, WrappingAdd,
      Window.Append, Window.NextSeq;
    var r, c, off := live.dir.r, live.dir.c, live.dir.r.win.off;
    NextSeqOf(r.win);
    var base, seed := WrappingAdd(r.win.base, origin), Seeded(c, r.win.NextSeq());
    InvOrder(r, str);
    LiveIsClean(c);
    SeedSane(c, r.win.NextSeq());
    OriginToOffset(r.win.base, origin, off);
    var p := Parse(cb, seed, Window(base, 0, R.Slice(str, origin, m)));
    t, wt, ft := p.0, p.1, p.2;
    if m < off {
      SeekStalls(cb, seed, base, off - origin, R.Slice(str, origin, m));
    } else {
      SplitLead(str, origin, off, m);
      SeekEnds(cb, c, r.win.NextSeq(), base, R.Slice(str, origin, off), R.Slice(str, off, m));
      assert m >= r.delivered;
      SplitStream(str, origin, r, m);
      var cont := R.Slice(str, r.delivered, m);
      if !Parse(cb, c, r.win.Append(cont)).0.dec.overLimit {
        HandoffFrom(cb, c, r.win, base, R.Slice(str, origin, off), cont);
      }
    }
  }

  lemma NextSeqOf(w: Window)
    ensures w.NextSeq() == WrappingAdd(w.base, w.off)
  {
  }

  lemma InvOrder(r: ReasmState, str: R.Stream)
    requires R.Inv(r, str)
    ensures r.win.off <= r.delivered
  {
  }

  lemma LiveIsClean(c: Core)
    requires LiveInv(c) && SafePoint(c)
    ensures Sane(c) && CleanTable(c.dec.table) && c.dec.capacityObserved
  {
  }

  // ----- the theorem ---------------------------------------------------------------------------------

  /** The captured packets still in the ring. */
  function RingOf(all: seq<Captured>, limit: nat, maxAge: nat): seq<Captured> {
    all[|Evicted(Packets(all), limit, maxAge)|..]
  }

  lemma RingOfIsRing(all: seq<Captured>, limit: nat, maxAge: nat)
    ensures Packets(RingOf(all, limit, maxAge)) == After(Packets(all), limit, maxAge)
    ensures Packets(all) == Evicted(Packets(all), limit, maxAge) + After(Packets(all), limit, maxAge)
  {
    RingSplits(Packets(all), limit, maxAge);
    hide After, Evicted;
    PacketsParts(all, |Evicted(Packets(all), limit, maxAge)|);
  }

  function LiveTrack(cb: Codebook, up: Endpoint, tableLimit: nat, log: seq<Captured>, client: bool): Track {
    NewConn(up, true, tableLimit).Follow(cb, Packets(log)).Of(client)
  }

  /** The daemon saw `before`, then followed a connection from its SYN through `log`, and takes a
      snapshot that declares this direction usable, at a safe point: the packets bring slices of
      one stream, nothing was held when the present pending period began, and the ring parts no
      two packets of the same microsecond. */
  ghost predicate Snapshotted(cb: Codebook, up: Endpoint, tableLimit: nat, before: seq<Captured>, log: seq<Captured>,
                              client: bool, limit: nat, maxAge: nat, str: R.Stream) {
    var live, c := LiveTrack(cb, up, tableLimit, log, client), NewConn(up, true, tableLimit);
    var all := Packets(before + log);
    && Chronological(all) && CleanCut(Evicted(all, limit, maxAge), After(all, limit, maxAge)) && tableLimit <= USIZE_MAX
    && live.dir.r.initialized && InStream(cb, c, log, client, live.dir.r.win.base, str)
    && HeldThen(cb, c, Packets(log), client) == []
    && live.Usable(Oldest(After(all, limit, maxAge))) && SafePoint(live.dir.c)
  }

  /** What the snapshot says is pending is in the ring, byte for byte. */
  lemma RingHoldsPending(cb: Codebook, up: Endpoint, tableLimit: nat, before: seq<Captured>, log: seq<Captured>,
                         client: bool, limit: nat, maxAge: nat, str: R.Stream)
    requires Snapshotted(cb, up, tableLimit, before, log, client, limit, maxAge, str)
    ensures var r := LiveTrack(cb, up, tableLimit, log, client).dir.r;
            && R.Inv(r, str)
            && forall x :: r.win.off <= x < r.delivered ==> R.Covered(SegsOf(up, client, RingOf(before + log, limit, maxAge)), x)
  {
    var c := NewConn(up, true, tableLimit);
    StartsTimed(up, true, tableLimit);
    hide NewConn, Tracked.Follow, After, Evicted, InStream, R.Inv, R.Covered, SegsOf, Chronological, HeldThen, Core.IsSnapshottable, SafePoint, Began;
    var live := LiveTrack(cb, up, tableLimit, log, client);
    assert !live.dir.c.poisoned by { UsableIsTrusted(live, Oldest(After(Packets(before + log), limit, maxAge))); }
    PendingHasArrived(cb, c, log, client, str);
    BeganThere(cb, c, Packets(log), client);
    FollowTimed(cb, c, Packets(log), client);
    var b := Began(cb, c, Packets(log), client);
    if live.dir.r.win.avail == [] {
      InvSpan(live.dir.r, str);
    } else {
      PeriodInRing(before, log, b, live.pendingSince.value, limit, maxAge);
      var k := |before| + b - |Evicted(Packets(before + log), limit, maxAge)|;
      var ring := RingOf(before + log, limit, maxAge);
      assert ring == ring[..k] + log[b..];
      SegsConcat(up, client, ring[..k], log[b..]);
      forall x | live.dir.r.win.off <= x < live.dir.r.delivered ensures R.Covered(SegsOf(up, client, ring), x) {
        CoveredBoth(SegsOf(up, client, ring[..k]), SegsOf(up, client, log[b..]), x);
      }
    }
  }

  lemma UsableIsTrusted(tr: Track, oldest: Option<nat>)
    requires tr.Usable(oldest)
    ensures !tr.dir.c.poisoned
  {
  }

  lemma InvSpan(r: ReasmState, str: R.Stream)
    requires R.Inv(r, str)
    ensures r.win.off + |r.win.avail| == r.delivered
  {
  }

  /** The packet that began the pending period, and all after it, are in the ring. */
  lemma PeriodInRing(before: seq<Captured>, log: seq<Captured>, b: nat, since: nat, limit: nat, maxAge: nat)
    requires var all := Packets(before + log);
             && Chronological(all) && CleanCut(Evicted(all, limit, maxAge), After(all, limit, maxAge))
             && After(all, limit, maxAge) != [] && since >= After(all, limit, maxAge)[0].ts
    requires b < |log| && Packets(log)[b].ts == since
    ensures var d := |Evicted(Packets(before + log), limit, maxAge)|;
            d <= |before| + b && RingOf(before + log, limit, maxAge)[|before| + b - d..] == log[b..]
  {
    hide After, Evicted;
    RingOfIsRing(before + log, limit, maxAge);
    var all := Packets(before + log);
    var dropped, ring := Evicted(all, limit, maxAge), After(all, limit, maxAge);
    assert all[|before| + b] == log[b].p;
    assert |dropped| > 0 ==> all[|dropped| - 1] == dropped[|dropped| - 1];
    assert |before| + b >= |dropped|;
  }

  /** From tap to rebuild. A direction seeded from the snapshot reads the ring and whatever later
      packets of the stream come, in whatever order and however often. It gets past the snapshot
      point aligned if and only if it starts at or before that point and the capture holds every
      byte from the first payload heard up to it. Starting past it, it ends misaligned; with a
      byte missing, it emits nothing at all. And once past, it continues exactly as the daemon's
      does on the same bytes: the same later frames with the same decoded blocks, place for
      place, as long as the daemon does not give the table up as too large. */
  lemma CaptureContinues(cb: Codebook, up: Endpoint, tableLimit: nat, before: seq<Captured>, log: seq<Captured>, later: seq<Captured>,
                         client: bool, limit: nat, maxAge: nat, origin: int, str: R.Stream)
    requires Snapshotted(cb, up, tableLimit, before, log, client, limit, maxAge, str)
    requires var live, capture := LiveTrack(cb, up, tableLimit, log, client), RingOf(before + log, limit, maxAge) + later;
             var pending := live.dir.r.win;
             && NoSyn(up, client, capture) && AllSlices(up, client, capture, pending.base, str)
             && FirstHeard(up, client, capture) == Some(origin) && -TWO31 <= pending.off - origin < TWO31
             && (origin <= pending.off ==>
                   ReadsOn(cb, Seeded(live.dir.c, pending.NextSeq()), up, client, capture, pending.base, origin, str))
    ensures var live, capture := LiveTrack(cb, up, tableLimit, log, client), RingOf(before + log, limit, maxAge) + later;
            var pending := live.dir.r.win;
            var (t, ft) := ReadCapture(cb, DirState(Seeded(live.dir.c, pending.NextSeq()), NewReassembler()), up, client, capture);
            var held := origin <= pending.off && LeadHeld(SegsOf(up, client, capture), origin, pending.off);
            && (t.c.pendingStartSeq.None? && !t.c.snapshotMisaligned <==> held)
            && (t.c.snapshotMisaligned <==> origin > pending.off)
            && (origin <= pending.off && !held ==> ft == [])
            && (held ==> ReadsAlike(cb, live, str, origin, t.c, t.r.win, ft, origin + t.r.delivered))
  {
    hide LiveTrack, RingOf, Snapshotted, Parse, R.Inv, R.Covered, LiveInv, SafePoint, Seeded, FramedAlike, Views, Blocks, SegsOf,
      ReadCapture, ReadsOn, NoSyn, AllSlices, R.Slice, Lift, LeadHeld, ReadsAlike, Window.Append, Window.NextSeq;
    LiveSide(cb, up, tableLimit, before, log, client, limit, maxAge, str);
    RingHoldsPending(cb, up, tableLimit, before, log, client, limit, maxAge, str);
    var live, ring := LiveTrack(cb, up, tableLimit, log, client), RingOf(before + log, limit, maxAge);
    var capture := ring + later;
    var seed := Seeded(live.dir.c, live.dir.r.win.NextSeq());
    if origin > live.dir.r.win.off {
      SeedSeeks(live.dir.c, live.dir.r.win);
      LateStart(cb, seed, up, client, capture, live.dir.r.win.base, origin, live.dir.r.win.off, str);
    } else {
      ReaderParses(cb, seed, up, client, capture, live.dir.r.win.base, origin, str);
      SegsConcat(up, client, ring, later);
      forall x | live.dir.r.win.off <= x < live.dir.r.delivered ensures R.Covered(SegsOf(up, client, capture), x) {
        CoveredBoth(SegsOf(up, client, ring), SegsOf(up, client, later), x);
      }
      var m := origin + ReadCapture(cb, DirState(seed, NewReassembler()), up, client, capture).0.r.delivered;
      var t, wt, ft := ReaderAgainstLive(cb, live, str, origin, SegsOf(up, client, capture), m);
    }
  }

  lemma SeedSeeks(live: Core, pending: Window)
    ensures var c := Seeded(live, pending.NextSeq());
            c.discard == 0 && c.pendingStartSeq == Some(WrappingAdd(pending.base, pending.off))
  {
  }

  lemma LiveSide(cb: Codebook, up: Endpoint, tableLimit: nat, before: seq<Captured>, log: seq<Captured>,
                 client: bool, limit: nat, maxAge: nat, str: R.Stream)
    requires Snapshotted(cb, up, tableLimit, before, log, client, limit, maxAge, str)
    ensures var c := LiveTrack(cb, up, tableLimit, log, client).dir.c;
            LiveInv(c) && SafePoint(c) && !c.keepPayloads
  {
    hide LiveInv, SafePoint, Tracked.Follow, InStream, After, Evicted, Chronological, HeldThen, Track.Usable;
    StartsLive(up, tableLimit);
    FollowLive(cb, NewConn(up, true, tableLimit), Packets(log));
  }

  predicate BothLive(c: Tracked) {
    LiveInv(c.c2s.dir.c) && LiveInv(c.s2c.dir.c) && !c.c2s.dir.c.keepPayloads && !c.s2c.dir.c.keepPayloads
  }

  lemma StartsLive(up: Endpoint, tableLimit: nat)
    requires tableLimit <= USIZE_MAX
    ensures BothLive(NewConn(up, true, tableLimit))
  {
  }

  /** What the daemon follows from its SYN never has a table it cannot account for. */
  lemma {:induction false} FollowLive(cb: Codebook, c: Tracked, log: seq<Packet>)
    requires BothLive(c)
    ensures BothLive(c.Follow(cb, log))
    decreases |log|
  {
    hide BothLive, Tracked.OnSegment, ParseEthernet;
    if log != [] {
      var n := |log| - 1;
      FollowLive(cb, c, log[..n]);
      var t := ParseEthernet(log[n].data);
      if t.Some? { SegmentLive(cb, c.Follow(cb, log[..n]), t.value, log[n].ts); }
    }
  }

  lemma SegmentLive(cb: Codebook, c: Tracked, t: TcpSegment, now: nat)
    requires BothLive(c)
    ensures BothLive(c.OnSegment(cb, t, now))
  {
    hide LiveInv, DirState.Feed, ReasmState.NoteSyn;
    var from := FromClient(c.up, t);
    var d := c.Of(from).dir;
    var d1 := if Bit(t.flags, SYN) then d.(r := d.r.NoteSyn(t.seq_)) else d;
    LiveIsSane(d1.c);
    DeliverLive(cb, d1, Segment(t.seq_, t.payload, now));
    var (mine, frames) := c.Of(from).Receive(cb, t, now);
    CappedLive(cb, c.Of(!from), Capacities(frames));
  }

  lemma LiveIsSane(c: Core)
    requires LiveInv(c)
    ensures Sane(c)
  {
  }

  lemma {:induction false} CappedLive(cb: Codebook, tr: Track, caps: seq<u32>)
    requires LiveInv(tr.dir.c)
    ensures LiveInv(tr.Capped(caps).dir.c) && tr.Capped(caps).dir.c.keepPayloads == tr.dir.c.keepPayloads
    decreases |caps|
  {
    hide LiveInv, Sane;
    if caps != [] {
      LiveIsSane(tr.dir.c);
      CapacityLive(tr.dir.c, caps[0]);
      CappedLive(cb, tr.(dir := tr.dir.(c := tr.dir.c.(dec := tr.dir.c.dec.ApplyPeerCapacity(caps[0])))), caps[1..]);
    }
  }
}
