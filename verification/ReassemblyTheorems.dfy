/** What reassembly delivers, against a ghost stream: every byte in its place through sequence
    wrap and declared gaps, and, while no gap is declared, exactly the longest contiguous
    prefix that has arrived, in whatever order. */
module ReassemblyTheorems {
  import opened Basics
  import opened ReassemblySpec

  /** The sender's bytes; offset zero is the byte with sequence number `base`. Offsets below
      zero are bytes sent before we had a base. */
  type Stream = int -> byte

  function Slice(s: Stream, a: int, b: int): (r: seq<byte>)
    requires a <= b
    ensures |r| == b - a
  {
    seq(b - a, i requires 0 <= i < b - a => s(a + i))
  }

  lemma SliceConcat(s: Stream, a: int, b: int, c: int)
    requires a <= b <= c
    ensures Slice(s, a, b) + Slice(s, b, c) == Slice(s, a, c)
    ensures Slice(s, a, c)[b - a..] == Slice(s, b, c)
  {
  }

  /** A segment by the stream offsets it covers. */
  datatype Seg = Seg(o: int, len: nat) {
    function End(): int { o + len }
  }

  function Offset(st: ReasmState, h: Held): int {
    st.delivered + SignedDiff(h.seq_, st.nextSeq)
  }

  ghost function HeldSegs(st: ReasmState): set<Seg> {
    set h | h in st.ooo :: Seg(Offset(st, h), |h.data|)
  }

  ghost predicate HeldOk(st: ReasmState, s: Stream, low: int, h: Held) {
    var o := Offset(st, h);
    low < o && o + |h.data| < low + TWO31 && h.data != [] && h.data == Slice(s, o, o + |h.data|)
  }

  /** The state while held segments are being drained: everything is in place, and all held
      segments lie within 2^31 past `low`. */
  ghost predicate Placed(st: ReasmState, s: Stream, low: int) {
    && low <= st.delivered < low + TWO31
    && st.win.off + |st.win.avail| == st.delivered
    && st.win.avail == Slice(s, st.win.off, st.delivered)
    && st.nextSeq == WrappingAdd(st.win.base, st.delivered)
    && forall h :: h in st.ooo ==> HeldOk(st, s, low, h)
  }

  /** The invariant between operations: every held segment lies strictly ahead, and the
      timer runs only while something is held. */
  ghost predicate Inv(st: ReasmState, s: Stream) {
    st.initialized && Placed(st, s, st.delivered) && (st.oooSince.Some? ==> st.ooo != [])
  }

  ghost predicate Covered(segs: set<Seg>, x: int) {
    exists g :: g in segs && g.o <= x < g.End()
  }

  /** All of `from..delivered` has arrived, and of what has arrived nothing is lost: it is
      delivered or held. */
  ghost predicate Tracks(st: ReasmState, from: int, segs: set<Seg>) {
    && from <= st.delivered
    && (forall x :: from <= x < st.delivered ==> Covered(segs, x))
    && (forall g :: g in segs ==> g.End() <= st.delivered || g in HeldSegs(st))
    && HeldSegs(st) <= segs
  }

  // ----- one step ---------------------------------------------------------------

  /** Moving the expected position by less than 2^31 keeps every held offset. */
  lemma OffsetStable(st: ReasmState, st': ReasmState, s: Stream, low: int, h: Held, n: nat)
    requires low <= st.delivered && st.delivered + n < low + TWO31
    requires st'.delivered == st.delivered + n && st'.nextSeq == WrappingAdd(st.nextSeq, n)
    requires HeldOk(st, s, low, h)
    ensures Offset(st', h) == Offset(st, h)
  {
    var d := SignedDiff(h.seq_, st.nextSeq);
    WrappingAddAssoc(st.nextSeq, n, d - n);
    SignedDiffOfShift(st'.nextSeq, d - n);
  }

  lemma AppendPlaced(st: ReasmState, s: Stream, low: int, data: seq<byte>)
    requires Placed(st, s, low) && st.delivered + |data| < low + TWO31
    requires data == Slice(s, st.delivered, st.delivered + |data|)
    ensures Placed(st.Append(data), s, low) && HeldSegs(st.Append(data)) == HeldSegs(st)
  {
    var st' := st.Append(data);
    SliceConcat(s, st.win.off, st.delivered, st'.delivered);
    WrappingAddAssoc(st.win.base, st.delivered, |data|);
    forall h | h in st.ooo ensures Offset(st', h) == Offset(st, h) {
      OffsetStable(st, st', s, low, h, |data|);
    }
  }

  /** Taking one held segment out removes at most its own offsets from the record. */
  lemma WithoutPlaced(st: ReasmState, s: Stream, low: int, i: nat)
    requires Placed(st, s, low) && i < |st.ooo|
    ensures var rest := st.(ooo := Without(st.ooo, i));
            var g := Seg(Offset(st, st.ooo[i]), |st.ooo[i].data|);
            && Placed(rest, s, low)
            && g in HeldSegs(st) && HeldSegs(rest) <= HeldSegs(st) <= HeldSegs(rest) + {g}
  {
    var h := st.ooo[i];
    var rest := st.(ooo := Without(st.ooo, i));
    assert st.ooo == st.ooo[..i] + [h] + st.ooo[i + 1..];
    assert forall k :: k in rest.ooo ==> k in st.ooo;
    assert forall k :: k in st.ooo ==> k in rest.ooo || k == h;
    assert forall k :: Offset(rest, k) == Offset(st, k);
  }

  /** The state after the new tail of a segment at or before the expected position. */
  function Fresh(st: ReasmState, s: Stream, g: Seg): ReasmState
    requires g.o <= st.delivered <= g.End()
  {
    st.Append(Slice(s, g.o, g.End())[st.delivered - g.o..])
  }

  /** Delivering bytes that some recorded segment covers extends what is tracked. */
  lemma AppendTracks(st: ReasmState, s: Stream, low: int, from: int, segs: set<Seg>, g: Seg)
    requires Placed(st, s, low) && from <= st.delivered && g in segs
    requires forall x :: from <= x < st.delivered ==> Covered(segs, x)
    requires forall k :: k in segs ==> k.End() <= st.delivered || k in HeldSegs(st) || k == g
    requires HeldSegs(st) <= segs
    requires g.o <= st.delivered < g.End() < low + TWO31
    ensures var st' := Fresh(st, s, g);
            Placed(st', s, low) && Tracks(st', from, segs) && st'.delivered == g.End()
  {
    SliceConcat(s, g.o, st.delivered, g.End());
    AppendPlaced(st, s, low, Slice(s, st.delivered, g.End()));
    forall x | from <= x < g.End() ensures Covered(segs, x) {
      if x >= st.delivered {
        assert g in segs && g.o <= x < g.End();
      }
    }
  }

  lemma TakeDueTracks(st: ReasmState, s: Stream, low: int, from: int, segs: set<Seg>, i: nat)
    requires Placed(st, s, low) && Tracks(st, from, segs)
    requires i < |st.ooo| && SignedDiff(st.ooo[i].seq_, st.nextSeq) <= 0
    ensures Placed(st.TakeDue(i), s, low) && Tracks(st.TakeDue(i), from, segs)
    ensures st.TakeDue(i).delivered >= st.delivered
  {
    var h := st.ooo[i];
    var rest := st.(ooo := Without(st.ooo, i));
    var g := Seg(Offset(st, h), |h.data|);
    WithoutPlaced(st, s, low, i);
    assert HeldOk(st, s, low, h);
    if g.End() > st.delivered {
      AppendTracks(rest, s, low, from, segs, g);
      assert h.data == Slice(s, g.o, g.End());
      assert st.TakeDue(i) == Fresh(rest, s, g);
    } else {
      assert st.TakeDue(i) == rest;
    }
  }

  lemma {:induction false} DrainTracks(st: ReasmState, s: Stream, low: int, from: int, segs: set<Seg>)
    requires Placed(st, s, low) && Tracks(st, from, segs) && st.initialized
    ensures Inv(st.Drain(), s) && Tracks(st.Drain(), from, segs)
    ensures st.Drain().delivered >= st.delivered && st.Drain().gaps == st.gaps && st.Drain().win.base == st.win.base
    decreases |st.ooo|
  {
    var i := FirstDue(st.ooo, st.nextSeq);
    if i < |st.ooo| {
      TakeDueTracks(st, s, low, from, segs, i);
      DrainTracks(st.TakeDue(i), s, low, from, segs);
    } else {
      var st' := st.Drain();
      assert HeldSegs(st') == HeldSegs(st);
      forall h | h in st'.ooo ensures HeldOk(st', s, st'.delivered, h) {
        assert HeldOk(st, s, low, h);
      }
    }
  }

  /** The nearest held segment, by its offset. */
  lemma NearestOffset(st: ReasmState, s: Stream) returns (g: Seg)
    requires Inv(st, s) && st.ooo != []
    ensures g in HeldSegs(st) && g.o == st.delivered + Nearest(st.ooo, st.nextSeq)
    ensures forall k :: k in HeldSegs(st) ==> k.o >= g.o
  {
    var i := NearestIsLeast(st.ooo, st.nextSeq);
    var h := st.ooo[i];
    g := Seg(Offset(st, h), |h.data|);
    assert HeldOk(st, s, st.delivered, h);
    forall k | k in HeldSegs(st) ensures k.o >= g.o {
      var j :| 0 <= j < |st.ooo| && k == Seg(Offset(st, st.ooo[j]), |st.ooo[j].data|);
      assert HeldOk(st, s, st.delivered, st.ooo[j]);
    }
  }

  lemma SkipPlaced(st: ReasmState, s: Stream, skip: nat)
    requires Inv(st, s) && skip < TWO31
    ensures Placed(st.Skip(skip), s, st.delivered) && HeldSegs(st.Skip(skip)) == HeldSegs(st)
  {
    var st' := st.Skip(skip);
    WrappingAddAssoc(st.win.base, st.delivered, skip);
    forall h | h in st.ooo ensures Offset(st', h) == Offset(st, h) {
      OffsetStable(st, st', s, st.delivered, h, skip);
    }
  }

  /** A declared gap moves strictly forward, to the earliest held segment, and completeness
      starts over from there. */
  lemma ForceGapTracks(st: ReasmState, s: Stream)
    requires Inv(st, s) && st.ooo != []
    ensures var st' := st.ForceGap();
            && Inv(st', s) && st'.gaps == st.gaps + 1 && st'.delivered > st.delivered && st'.win.base == st.win.base
            && Tracks(st', st.delivered + Nearest(st.ooo, st.nextSeq), HeldSegs(st))
  {
    var g := NearestOffset(st, s);
    var h :| h in st.ooo && g == Seg(Offset(st, h), |h.data|);
    assert HeldOk(st, s, st.delivered, h);
    var skip := Nearest(st.ooo, st.nextSeq);
    SkipPlaced(st, s, skip);
    assert Tracks(st.Skip(skip), g.o, HeldSegs(st));
    DrainTracks(st.Skip(skip), s, st.delivered, g.o, HeldSegs(st));
  }

  /** What the sender put on the wire, and that it lies within 2^31 of the expected position. */
  ghost predicate InWindow(st: ReasmState, o: int, len: nat) {
    -TWO31 <= o - st.delivered && o + len - st.delivered < TWO31
  }

  /** The sender's offset survives the 32-bit sequence number. */
  lemma TrueOffset(st: ReasmState, s: Stream, o: int, len: nat)
    requires Inv(st, s) && InWindow(st, o, len)
    ensures SignedDiff(WrappingAdd(st.win.base, o), st.nextSeq) == o - st.delivered
  {
    WrappingAddAssoc(st.win.base, st.delivered, o - st.delivered);
    SignedDiffOfShift(st.nextSeq, o - st.delivered);
  }

  lemma HoldTracks(st: ReasmState, s: Stream, from: int, segs: set<Seg>, o: int, len: nat, now: nat)
    requires Inv(st, s) && Tracks(st, from, segs) && InWindow(st, o, len)
    requires o > st.delivered && len > 0
    ensures var st' := st.Hold(WrappingAdd(st.win.base, o), Slice(s, o, o + len), now);
            Inv(st', s) && Tracks(st', from, segs + {Seg(o, len)})
  {
    TrueOffset(st, s, o, len);
    var h := Held(WrappingAdd(st.win.base, o), Slice(s, o, o + len));
    var st' := st.Hold(h.seq_, h.data, now);
    assert forall k :: k in st'.ooo <==> k in st.ooo || k == h;
    assert forall k :: Offset(st', k) == Offset(st, k);
    assert HeldSegs(st') == HeldSegs(st) + {Seg(o, len)};
    assert forall x :: Covered(segs, x) ==> Covered(segs + {Seg(o, len)}, x);
  }

  /** A segment with something new, starting at or before the expected position. */
  lemma DeliverTracks(st: ReasmState, s: Stream, from: int, segs: set<Seg>, g: Seg) returns (st': ReasmState)
    requires Inv(st, s) && Tracks(st, from, segs) && InWindow(st, g.o, g.len)
    requires g.o <= st.delivered < g.End()
    ensures st' == Fresh(st, s, g).Drain()
    ensures Inv(st', s) && Tracks(st', from, segs + {g}) && st'.delivered >= st.delivered
    ensures st'.win.base == st.win.base && st'.gaps == st.gaps
  {
    assert forall x :: Covered(segs, x) ==> Covered(segs + {g}, x);
    AppendTracks(st, s, st.delivered, from, segs + {g}, g);
    st' := Fresh(st, s, g).Drain();
    DrainTracks(Fresh(st, s, g), s, st.delivered, from, segs + {g});
  }

  /** A segment of the stream arrives. */
  function Receive(st: ReasmState, s: Stream, o: int, len: nat, now: nat): (ReasmState, bool) {
    st.Push(WrappingAdd(st.win.base, o), Slice(s, o, o + len), now)
  }

  /** The record of what has arrived, with one more segment. */
  function With(segs: set<Seg>, o: int, len: nat): set<Seg> {
    if len == 0 then segs else segs + {Seg(o, len)}
  }

  /** Which branch `push` takes, in terms of the true offset. */
  lemma PushByOffset(st: ReasmState, s: Stream, o: int, len: nat, now: nat)
    requires Inv(st, s) && InWindow(st, o, len)
    ensures Receive(st, s, o, len, now)
         == if len == 0 || o + len <= st.delivered then (st, false)
            else if o <= st.delivered then (Fresh(st, s, Seg(o, len)).Drain(), false)
            else
              var held := st.Hold(WrappingAdd(st.win.base, o), Slice(s, o, o + len), now);
              if HeldBytes(held.ooo) > OOO_LIMIT then (held.ForceGap(), true) else (held, false)
  {
    TrueOffset(st, s, o, len);
    assert st.initialized;
    hide Inv, InWindow, SignedDiff, WrappingAdd, HeldBytes, ReasmState.Drain, ReasmState.ForceGap, ReasmState.Hold;
    var data := Slice(s, o, o + len);
    var seq_ := WrappingAdd(st.win.base, o);
    assert data == [] <==> len == 0;
    assert st.Push(seq_, data, now) == if len == 0 then (st, false) else st.PushReady(seq_, data, now);
    if len > 0 && o <= st.delivered < o + len {
      assert st.Append(data[-SignedDiff(seq_, st.nextSeq)..]) == Fresh(st, s, Seg(o, len));
    }
  }

  lemma PushTracks(st: ReasmState, s: Stream, from: int, segs: set<Seg>, o: int, len: nat, now: nat)
    requires Inv(st, s) && Tracks(st, from, segs) && InWindow(st, o, len)
    ensures var (st', gap) := Receive(st, s, o, len, now);
            && Inv(st', s) && st'.delivered >= st.delivered && st'.win.base == st.win.base
            && st'.gaps == st.gaps + (if gap then 1 else 0)
            && (gap ==> st'.delivered > st.delivered)
            && (!gap ==> Tracks(st', from, With(segs, o, len)))
  {
    PushByOffset(st, s, o, len, now);
    if len == 0 {
    } else if o > st.delivered {
      HoldTracks(st, s, from, segs, o, len, now);
      var held := st.Hold(WrappingAdd(st.win.base, o), Slice(s, o, o + len), now);
      if HeldBytes(held.ooo) > OOO_LIMIT { ForceGapTracks(held, s); }
    } else if o + len > st.delivered {
      var st' := DeliverTracks(st, s, from, segs, Seg(o, len));
      assert Receive(st, s, o, len, now) == (st', false);
    } else {
      assert forall x :: Covered(segs, x) ==> Covered(segs + {Seg(o, len)}, x);
    }
  }

  lemma PushSafe(st: ReasmState, s: Stream, o: int, len: nat, now: nat)
    requires Inv(st, s) && InWindow(st, o, len)
    ensures var (st', gap) := Receive(st, s, o, len, now);
            && Inv(st', s) && st'.delivered >= st.delivered && st'.win.base == st.win.base
            && st'.gaps == st.gaps + (if gap then 1 else 0)
            && (gap ==> st'.delivered > st.delivered)
  {
    assert Tracks(st, st.delivered, HeldSegs(st));
    PushTracks(st, s, st.delivered, HeldSegs(st), o, len, now);
  }

  lemma {:induction false} DrainKeepsOff(st: ReasmState)
    ensures st.Drain().win.off == st.win.off
    decreases |st.ooo|
  {
    var i := FirstDue(st.ooo, st.nextSeq);
    if i < |st.ooo| { DrainKeepsOff(st.TakeDue(i)); }
  }

  /** Without a gap, a segment only adds the newly delivered bytes at the end of the window. */
  lemma PushAppends(st: ReasmState, s: Stream, o: int, len: nat, now: nat)
    requires Inv(st, s) && InWindow(st, o, len) && !Receive(st, s, o, len, now).1
    ensures var st' := Receive(st, s, o, len, now).0;
            st'.delivered >= st.delivered && st'.win == st.win.Append(Slice(s, st.delivered, st'.delivered))
  {
    var st' := Receive(st, s, o, len, now).0;
    PushSafe(st, s, o, len, now);
    PushByOffset(st, s, o, len, now);
    if len > 0 && o <= st.delivered < o + len { DrainKeepsOff(Fresh(st, s, Seg(o, len))); }
    assert st'.win.off == st.win.off;
    SliceConcat(s, st.win.off, st.delivered, st'.delivered);
  }

  // ----- whole runs ----------------------------------------------------------------

  /** What happens to a direction: a segment arrives (by its true offset), the clock ticks,
      or the frame parser consumes bytes. */
  datatype Event = Segment(o: int, len: nat, now: nat) | Tick(now: nat) | Consume(n: nat)

  function Apply(st: ReasmState, s: Stream, e: Event): ReasmState {
    match e
    case Segment(o, len, now) => Receive(st, s, o, len, now).0
    case Tick(now) => st.CheckTimeout(now).0
    case Consume(n) => st.Consume(n)
  }

  function Run(st: ReasmState, s: Stream, events: seq<Event>): ReasmState
    decreases |events|
  {
    if events == [] then st else Run(Apply(st, s, events[0]), s, events[1..])
  }

  ghost predicate WindowedRun(st: ReasmState, s: Stream, events: seq<Event>)
    decreases |events|
  {
    events == [] ||
    ((events[0].Segment? ==> InWindow(st, events[0].o, events[0].len))
     && WindowedRun(Apply(st, s, events[0]), s, events[1..]))
  }

  /** The non-empty segments of a run. */
  ghost function Arrived(events: seq<Event>): set<Seg> {
    set e | e in events && e.Segment? && e.len > 0 :: Seg(e.o, e.len)
  }

  lemma ApplySafe(st: ReasmState, s: Stream, e: Event)
    requires Inv(st, s) && (e.Segment? ==> InWindow(st, e.o, e.len))
    ensures var st' := Apply(st, s, e);
            && Inv(st', s) && st'.win.base == st.win.base && st'.gaps >= st.gaps && st'.delivered >= st.delivered
            && (st'.gaps > st.gaps ==> st'.delivered > st.delivered)
  {
    match e
    case Segment(o, len, now) =>
      PushSafe(st, s, o, len, now);
    case Tick(now) =>
      if st.CheckTimeout(now).1 { ForceGapTracks(st, s); }
    case Consume(n) =>
      ConsumeSafe(st, s, n);
  }

  lemma ConsumeSafe(st: ReasmState, s: Stream, n: nat)
    requires Inv(st, s)
    ensures Inv(st.Consume(n), s) && HeldSegs(st.Consume(n)) == HeldSegs(st)
  {
    var st' := st.Consume(n);
    SliceConcat(s, st.win.off, st'.win.off, st.delivered);
    forall h | h in st.ooo ensures HeldOk(st', s, st'.delivered, h) {
      assert HeldOk(st, s, st.delivered, h);
    }
  }

  /** Safety, through gaps and wrap: in every reachable state the available bytes are the
      stream from the parser's offset to the delivered offset, `next_seq` is the sequence number
      of that offset modulo 2^32, every held segment is a slice strictly ahead, the offset
      never moves back, and a run with a gap moved it strictly forward. */
  lemma {:induction false} Safety(st: ReasmState, s: Stream, events: seq<Event>)
    requires Inv(st, s) && WindowedRun(st, s, events)
    ensures var st' := Run(st, s, events);
            && Inv(st', s) && st'.win.base == st.win.base && st'.gaps >= st.gaps && st'.delivered >= st.delivered
            && (st'.gaps > st.gaps ==> st'.delivered > st.delivered)
    decreases |events|
  {
    if events != [] {
      ApplySafe(st, s, events[0]);
      Safety(Apply(st, s, events[0]), s, events[1..]);
    }
  }

  lemma {:induction false} RunTracks(st: ReasmState, s: Stream, from: int, segs: set<Seg>, events: seq<Event>)
    requires Inv(st, s) && Tracks(st, from, segs) && WindowedRun(st, s, events)
    requires Run(st, s, events).gaps == st.gaps
    ensures Tracks(Run(st, s, events), from, segs + Arrived(events))
    decreases |events|
  {
    if events == [] {
      assert segs + Arrived(events) == segs;
    } else {
      var e := events[0];
      var st1 := Apply(st, s, e);
      var segs1 := if e.Segment? then With(segs, e.o, e.len) else segs;
      ApplySafe(st, s, e);
      Safety(st1, s, events[1..]);
      match e {
        case Segment(o, len, now) =>
          PushTracks(st, s, from, segs, o, len, now);
        case Tick(now) =>
          if st.CheckTimeout(now).1 { ForceGapTracks(st, s); }
        case Consume(n) =>
          ConsumeSafe(st, s, n);
      }
      RunTracks(st1, s, from, segs1, events[1..]);
      assert events == [e] + events[1..];
      assert segs + Arrived(events) == segs1 + Arrived(events[1..]);
    }
  }

  /** `n` ends the longest contiguous run from offset zero that the segments cover. */
  ghost predicate IsFrontier(segs: set<Seg>, n: int) {
    n >= 0 && (forall x :: 0 <= x < n ==> Covered(segs, x)) && !Covered(segs, n)
  }

  lemma FrontierUnique(segs: set<Seg>, m: int, n: int)
    requires IsFrontier(segs, m) && IsFrontier(segs, n)
    ensures m == n
  {
  }

  /** A direction whose first sequence number is known: from its SYN. */
  function FromSyn(syn: u32): ReasmState {
    NewReassembler().NoteSyn(syn)
  }

  lemma FromSynStarts(syn: u32, s: Stream)
    ensures Inv(FromSyn(syn), s) && Tracks(FromSyn(syn), 0, {})
  {
  }

  /** What is tracked from offset zero is delivered exactly up to the frontier. */
  lemma TracksIsFrontier(st: ReasmState, s: Stream, segs: set<Seg>)
    requires Inv(st, s) && Tracks(st, 0, segs)
    ensures IsFrontier(segs, st.delivered)
  {
    forall g | g in HeldSegs(st) ensures g.o > st.delivered {
      var h :| h in st.ooo && g == Seg(Offset(st, h), |h.data|);
      assert HeldOk(st, s, st.delivered, h);
    }
  }

  /** Completeness: while no gap is declared, what is delivered is exactly the longest
      contiguous prefix that the arrived segments cover. */
  lemma Complete(syn: u32, s: Stream, events: seq<Event>)
    requires WindowedRun(FromSyn(syn), s, events) && Run(FromSyn(syn), s, events).gaps == 0
    ensures var st := Run(FromSyn(syn), s, events);
            IsFrontier(Arrived(events), st.delivered) && st.win.off <= st.delivered && st.win.avail == Slice(s, st.win.off, st.delivered)
  {
    FromSynStarts(syn, s);
    Safety(FromSyn(syn), s, events);
    RunTracks(FromSyn(syn), s, 0, {}, events);
    assert {} + Arrived(events) == Arrived(events);
    TracksIsFrontier(Run(FromSyn(syn), s, events), s, Arrived(events));
  }

  /** Two arrival orders of the same segments, duplicated or not, deliver the same bytes: up to
      the same offset, and whatever both still have waiting is equal, byte for byte. */
  lemma OrderIrrelevant(syn: u32, s: Stream, a: seq<Event>, b: seq<Event>)
    requires WindowedRun(FromSyn(syn), s, a) && Run(FromSyn(syn), s, a).gaps == 0
    requires WindowedRun(FromSyn(syn), s, b) && Run(FromSyn(syn), s, b).gaps == 0
    requires Arrived(a) == Arrived(b)
    ensures var ra, rb := Run(FromSyn(syn), s, a), Run(FromSyn(syn), s, b);
            && ra.delivered == rb.delivered
            && (ra.win.off <= rb.win.off ==> ra.win.Consume(rb.win.off - ra.win.off).avail == rb.win.avail)
  {
    hide Run, WindowedRun, Arrived;
    Complete(syn, s, a);
    Complete(syn, s, b);
    var ra, rb := Run(FromSyn(syn), s, a), Run(FromSyn(syn), s, b);
    FrontierUnique(Arrived(a), ra.delivered, rb.delivered);
    if ra.win.off <= rb.win.off { SliceConcat(s, ra.win.off, rb.win.off, ra.delivered); }
  }
}
