/** Snapshot handoff: a direction seeded from a snapshot continues exactly as the live one. */
module ConnHandoff {
  import opened Basics
  import opened HpackInt
  import opened HpackTable
  import opened HpackSpec
  import opened ReassemblySpec
  import opened Frame
  import opened ConnSpec
  import opened ConnSegmentation
  import opened ConnTwins
  import opened ConnLifted

  // ----- what holds of every direction, and of one followed from its first byte ------------------

  predicate CleanTable(t: seq<Field>) {
    forall f :: f in t ==> !f.unknown && !f.sensitive
  }

  /** The capacity is within our limit, or the table is given up. */
  predicate Bounded(d: DecState, limit: nat) {
    d.trackLimit == limit && (d.overLimit || d.maxSize <= limit)
  }

  predicate Intact(d: DecState) {
    d.overLimit || (d.exact && CleanTable(d.table))
  }

  /** Of every direction the daemon tracks, joined midway or not. */
  predicate Sane(c: Core) {
    && c.pendingStartSeq.None?
    && (c.blockHdr.None? ==> c.block == [] && c.blockPromised.None?)
    && Bounded(c.dec, c.tableTrackLimit) && c.tableTrackLimit <= USIZE_MAX
  }

  /** Of a direction followed from its first byte. */
  predicate LiveInv(c: Core) {
    Sane(c) && c.dec.capacityObserved && (c.poisoned || Intact(c.dec))
  }

  lemma ResolveKeeps(cb: Codebook, d: DecState, idx: nat)
    ensures var (d', r) := d.Resolve(cb, idx);
            && d'.overLimit == d.overLimit && d'.capacityObserved == d.capacityObserved
            && (forall limit :: Bounded(d, limit) ==> Bounded(d', limit))
            && (Intact(d) ==> Intact(d') && (d.overLimit || r.Err? || !r.value.unknown))
  {
  }

  lemma TableKeeps(d: DecState, f: Field, n: nat, limit: nat)
    requires Bounded(d, limit)
    ensures Bounded(d.Insert(f), limit) && Bounded(d.Resize(n), limit)
    ensures d.Insert(f).capacityObserved == d.capacityObserved && d.Resize(n).capacityObserved
    ensures Intact(d) && (d.overLimit || (!f.unknown && !f.sensitive)) ==> Intact(d.Insert(f))
    ensures Intact(d) ==> Intact(d.Resize(n))
  {
    hide Total;
    assert CleanTable(d.table) ==> CleanTable(Fit(d.table, n));
    assert CleanTable([f] + d.table) ==> CleanTable(Fit([f] + d.table, d.maxSize));
  }

  lemma LiteralKeeps(cb: Codebook, d: DecState, b: seq<byte>, prefix: nat, limit: nat)
    requires Bounded(d, limit)
    ensures var (d', r) := ReadLiteral(cb, d, b, prefix);
            && Bounded(d', limit) && d'.capacityObserved == d.capacityObserved
            && (Intact(d) ==> Intact(d') && (r.Ok? ==> !r.value.0.sensitive && (d'.overLimit || !r.value.0.unknown)))
  {
    hide ReadString, DecState.Resolve;
    var i := ReadInt(b, prefix);
    if i.Ok? { ResolveKeeps(cb, d, i.value.0); }
  }

  lemma StepKeeps(cb: Codebook, d: DecState, b: seq<byte>, limit: nat)
    requires b != [] && Bounded(d, limit)
    ensures var d' := DecodeStep(cb, d, b).0;
            Bounded(d', limit) && (d.capacityObserved ==> d'.capacityObserved) && (Intact(d) ==> Intact(d'))
  {
    hide ReadInt, ReadLiteral, DecState.Insert, DecState.Resize, DecState.Resolve, Intact, Bounded;
    var i, n := ReadInt(b, 7), ReadInt(b, 5);
    LiteralKeeps(cb, d, b, 6, limit);
    LiteralKeeps(cb, d, b, 4, limit);
    if i.Ok? { ResolveKeeps(cb, d, i.value.0); }
    if n.Ok? { TableKeeps(d, Field([], [], false, false), n.value.0, limit); }
    var (d', r) := ReadLiteral(cb, d, b, 6);
    if r.Ok? { TableKeeps(d', r.value.0, 0, limit); }
  }

  lemma {:induction false} DecodeKeeps(cb: Codebook, d: DecState, b: seq<byte>, limit: nat)
    requires Bounded(d, limit)
    ensures var d' := Decode(cb, d, b).0;
            Bounded(d', limit) && (d.capacityObserved ==> d'.capacityObserved) && (Intact(d) ==> Intact(d'))
    decreases |b|
  {
    hide DecodeStep, Intact, Bounded;
    if b != [] {
      StepKeeps(cb, d, b, limit);
      var (d', r) := DecodeStep(cb, d, b);
      if r.Ok? { DecodeKeeps(cb, d', r.value.1, limit); }
    }
  }

  /** The part of the invariants that an open block does not disturb. */
  predicate DecSane(c: Core) {
    c.pendingStartSeq.None? && Bounded(c.dec, c.tableTrackLimit) && c.tableTrackLimit <= USIZE_MAX
  }

  predicate DecLive(c: Core) {
    c.dec.capacityObserved && (c.poisoned || Intact(c.dec))
  }

  lemma FinishLive(cb: Codebook, c: Core)
    requires DecSane(c) && c.blockHdr.Some?
    ensures var c' := c.FinishBlock(cb).0; Sane(c') && (DecLive(c) ==> LiveInv(c'))
  {
    hide Decode, StreamsAfter;
    DecodeKeeps(cb, c.dec, c.block, c.tableTrackLimit);
  }

  lemma HandleLive(cb: Codebook, c: Core, h: FrameHeader, payload: seq<byte>, w: Window)
    requires Sane(c)
    ensures var c' := c.HandleFrame(cb, h, payload, w).0; Sane(c') && (LiveInv(c) ==> LiveInv(c'))
  {
    hide Core.FinishBlock, HeaderBlockFragment, SettingsTableSize, PromisedId, Intact;
    var frag := HeaderBlockFragment(h, payload);
    if h.typ == HEADERS || h.typ == PUSH_PROMISE {
      if frag.Some? && h.Has(END_HEADERS) {
        var ready := c.Prepare(h, payload);
        FinishLive(cb, ready.(block := ready.block + frag.value, blockHdr := Some(h)));
      }
    } else if h.typ == CONTINUATION && c.blockHdr.Some? && h.Has(END_HEADERS) {
      FinishLive(cb, c.(block := c.block + payload));
    }
  }

  lemma {:induction false} ParseLive(cb: Codebook, c: Core, w: Window)
    requires Sane(c)
    ensures var c' := Parse(cb, c, w).0; Sane(c') && (LiveInv(c) ==> LiveInv(c'))
    decreases |w.avail|, Rank(c)
  {
    StepLive(cb, c, w);
    StepProgress(cb, c, w);
    hide ParseStep, Sane, LiveInv;
    match ParseStep(cb, c, w)
    case Stop(_, _) =>
    case Go(c', w', _) => ParseLive(cb, c', w');
  }

  lemma StepLive(cb: Codebook, c: Core, w: Window)
    requires Sane(c)
    ensures var c' := ParseStep(cb, c, w).c; Sane(c') && (LiveInv(c) ==> LiveInv(c'))
  {
    hide Core.HandleFrame, Scan, Intact;
    var h := ParseHeader(w.avail);
    if AtFrame(c) && h.Some? && c.WantsPayload(h.value) && |w.avail| >= h.value.TotalLen() {
      HandleLive(cb, c.(frames := c.frames + 1), h.value, w.avail[FRAME_HEADER_LEN..h.value.TotalLen()], w);
    }
  }

  // ----- runs of a direction ------------------------------------------------------------

  datatype Event =
    | Syn(seq_: u32)
    | Segment(seq_: u32, data: seq<byte>, now: nat)
    | Tick(now: nat)
    | PeerCapacity(n: nat)

  function Deliver(cb: Codebook, s: DirState, e: Event): DirState {
    match e
    case Syn(q) => s.(r := s.r.NoteSyn(q))
    case Segment(q, data, now) => s.Feed(cb, q, data, now).0
    case Tick(now) => s.Tick(cb, now).0
    case PeerCapacity(n) => s.(c := s.c.(dec := s.c.dec.ApplyPeerCapacity(n)))
  }

  function DeliverAll(cb: Codebook, s: DirState, events: seq<Event>): DirState
    decreases |events|
  {
    if events == [] then s else DeliverAll(cb, Deliver(cb, s, events[0]), events[1..])
  }

  /** The daemon's direction for a connection whose SYN it saw. */
  function Followed(preface: bool, limit: nat): DirState {
    DirState(FromConnectionStart(false, preface).SetTableTrackLimit(limit), NewReassembler())
  }

  /** And for one it joined midway. */
  function Joined(limit: nat): DirState {
    DirState(JoinedMidstream(false).SetTableTrackLimit(limit), NewReassembler())
  }

  lemma GapLive(c: Core)
    requires Sane(c)
    ensures Sane(c.OnGap()) && (LiveInv(c) ==> LiveInv(c.OnGap()))
  {
  }

  lemma CapacityLive(c: Core, n: nat)
    requires Sane(c)
    ensures var c' := c.(dec := c.dec.ApplyPeerCapacity(n)); Sane(c') && (LiveInv(c) ==> LiveInv(c'))
  {
    hide DecState.Resize, Intact;
    TableKeeps(c.dec, Field([], [], false, false), n, c.tableTrackLimit);
    assert Intact(c.dec) ==> Intact(c.dec.(capacityObserved := true)) by { ObservingKeeps(c.dec); }
  }

  lemma ObservingKeeps(d: DecState)
    ensures Intact(d) ==> Intact(d.(capacityObserved := true))
  {
  }

  lemma {:induction false} AlwaysLive(cb: Codebook, s: DirState, events: seq<Event>)
    requires Sane(s.c)
    ensures var s' := DeliverAll(cb, s, events);
            Sane(s'.c) && (LiveInv(s.c) ==> LiveInv(s'.c)) && s'.c.keepPayloads == s.c.keepPayloads
    decreases |events|
  {
    if events != [] {
      DeliverLive(cb, s, events[0]);
      hide Deliver, Sane, LiveInv;
      AlwaysLive(cb, Deliver(cb, s, events[0]), events[1..]);
    }
  }

  lemma DeliverLive(cb: Codebook, s: DirState, e: Event)
    requires Sane(s.c)
    ensures var s' := Deliver(cb, s, e);
            Sane(s'.c) && (LiveInv(s.c) ==> LiveInv(s'.c)) && s'.c.keepPayloads == s.c.keepPayloads
  {
    hide Sane, LiveInv, Parse, Core.OnGap, ReasmState.Push, ReasmState.CheckTimeout, DecState.ApplyPeerCapacity;
    GapLive(s.c);
    assert s.c.OnGap().keepPayloads == s.c.keepPayloads by { GapKeeps(s.c); }
    match e
    case Syn(_) =>
    case PeerCapacity(n) => CapacityLive(s.c, n);
    case Segment(q, data, now) =>
      var (r', gap) := s.r.Push(q, data, now);
      ParseLive(cb, if gap then s.c.OnGap() else s.c, r'.win);
      ParseKeeps(cb, if gap then s.c.OnGap() else s.c, r'.win);
    case Tick(now) =>
      var (r', gap) := s.r.CheckTimeout(now);
      ParseLive(cb, s.c.OnGap(), r'.win);
      ParseKeeps(cb, s.c.OnGap(), r'.win);
  }

  lemma GapKeeps(c: Core)
    ensures c.OnGap().keepPayloads == c.keepPayloads
  {
  }

  lemma {:induction false} ParseKeeps(cb: Codebook, c: Core, w: Window)
    ensures Parse(cb, c, w).0.keepPayloads == c.keepPayloads
    decreases |w.avail|, Rank(c)
  {
    hide ParseStep;
    StepProgress(cb, c, w);
    match ParseStep(cb, c, w)
    case Stop(_, _) =>
    case Go(c', w', _) => ParseKeeps(cb, c', w');
  }

  // ----- the handoff -----------------------------------------------------------------------

  lemma CleanEntries(t: seq<Field>)
    requires CleanTable(t)
    ensures SnapshotEntries(t) == t
  {
    forall i | 0 <= i < |t| ensures SnapshotEntries(t)[i] == t[i] {
      assert t[i] in t;
    }
  }

  /** What the rebuilder starts from: it sets no limit of its own. */
  function Seeded(live: Core, nextFrameSeq: u32): Core {
    JoinedMidstream(true).SeedFromSnapshot(SnapshotEntries(live.dec.table), live.dec.maxSize, nextFrameSeq)
  }

  /** May a snapshot be taken here? `IsSnapshottable` is the code's test; the rest is what
      it leaves out. */
  predicate SafePoint(c: Core) {
    c.IsSnapshottable() && c.discard == 0 && !c.expectPreface
  }

  lemma SeededIsTwin(live: Core, nextFrameSeq: u32)
    requires Sane(live) && SafePoint(live) && CleanTable(live.dec.table)
    ensures Twin(Seeded(live, nextFrameSeq).(pendingStartSeq := None), Lift(live)) && Liftable(live)
  {
    CleanEntries(live.dec.table);
  }

  /** Seeding forgets: whatever a direction went through before, seeded it decodes and frames as
      a new one would under the same limit. */
  lemma SeedForgets(c: Core, keepPayloads: bool, entries: seq<Field>, maxSize: nat, nextFrameSeq: u32)
    ensures var blank := JoinedMidstream(keepPayloads).SetTableTrackLimit(c.tableTrackLimit);
            Twin(c.SeedFromSnapshot(entries, maxSize, nextFrameSeq), blank.SeedFromSnapshot(entries, maxSize, nextFrameSeq))
  {
  }

  /** So it shows the same blocks from then on. */
  lemma SeededReadsAsNew(cb: Codebook, c: Core, entries: seq<Field>, maxSize: nat, nextFrameSeq: u32, w: Window)
    requires c.keepPayloads
    ensures var blank := JoinedMidstream(false).SetTableTrackLimit(c.tableTrackLimit);
            var (t, wt, ft) := Parse(cb, c.SeedFromSnapshot(entries, maxSize, nextFrameSeq), w);
            var (f, wf, ff) := Parse(cb, blank.SeedFromSnapshot(entries, maxSize, nextFrameSeq), w);
            FramedAlike(t, wt, w.off, ft, f, wf, w.off, ff) && Blocks(Views(ft, w.off)) == Blocks(Views(ff, w.off))
  {
    hide Parse, Twin, FramedAlike, Views, Blocks;
    var blank := JoinedMidstream(false).SetTableTrackLimit(c.tableTrackLimit);
    var a, b := c.SeedFromSnapshot(entries, maxSize, nextFrameSeq), blank.SeedFromSnapshot(entries, maxSize, nextFrameSeq);
    SeedForgets(c, false, entries, maxSize, nextFrameSeq);
    assert a.keepPayloads && !b.keepPayloads;
    FramedIdentically(cb, a, w, w.off, b, w, w.off);
    var (t, wt, ft) := Parse(cb, a, w);
    var (f, wf, ff) := Parse(cb, b, w);
    AlikeBlocks(t, wt, w.off, ft, f, wf, w.off, ff);
  }

  /** A turn that emits nothing. */
  lemma SilentStep(cb: Codebook, c: Core, w: Window, c': Core, w': Window)
    requires ParseStep(cb, c, w) == Go(c', w', [])
    ensures Parse(cb, c, w) == Parse(cb, c', w')
  {
    hide ParseStep;
    ParseOf(cb, c, w);
    var r := Parse(cb, c', w');
    assert [] + r.2 == r.2;
  }

  lemma SeekStops(cb: Codebook, c: Core, w: Window)
    requires c.discard == 0 && c.pendingStartSeq == Some(w.NextSeq())
    ensures Parse(cb, c, w) == Parse(cb, c.(pendingStartSeq := None), w)
  {
    SignedDiffOfShift(w.NextSeq(), 0);
    hide SignedDiff, Window.NextSeq;
    assert SeekStep(c, w, w.NextSeq()) == Go(c.(pendingStartSeq := None), w, []);
    hide SeekStep;
    SilentStep(cb, c, w, c.(pendingStartSeq := None), w);
  }

  lemma SeekRuns(cb: Codebook, c: Core, w: Window, target: u32, delta: nat)
    requires c.discard == 0 && c.pendingStartSeq == Some(target)
    requires SignedDiff(target, w.NextSeq()) == delta && 0 < delta <= |w.avail|
    ensures Parse(cb, c, w) == Parse(cb, c.(preSnapshotSkipped := c.preSnapshotSkipped + delta), w.Consume(delta))
  {
    hide SignedDiff, Window.NextSeq, Window.Consume, SeekStep;
    SeekSkips(c, w, target, delta);
    SilentStep(cb, c, w, c.(preSnapshotSkipped := c.preSnapshotSkipped + delta), w.Consume(delta));
  }

  /** Seeking to the snapshot point leaves exactly the bytes after it. */
  lemma SeekArrives(cb: Codebook, c: Core, base: u32, x: seq<byte>, rest: seq<byte>)
    requires c.discard == 0 && |x| < TWO31 && c.pendingStartSeq == Some(WrappingAdd(base, |x|))
    ensures var c' := c.(pendingStartSeq := None, preSnapshotSkipped := c.preSnapshotSkipped + |x|);
            Parse(cb, c, Window(base, 0, x + rest)) == Parse(cb, c', Window(base, |x|, rest))
  {
    var w, w' := Window(base, 0, x + rest), Window(base, |x|, rest);
    var c1 := c.(preSnapshotSkipped := c.preSnapshotSkipped + |x|);
    SignedDiffOfShift(base, |x|);
    assert w.NextSeq() == base;
    assert (x + rest)[|x|..] == rest;
    assert w.Consume(|x|) == w';
    assert w'.NextSeq() == WrappingAdd(base, |x|);
    hide Parse, SignedDiff, WrappingAdd, Window.Consume, Window.NextSeq;
    if x == [] {
      assert w == w' && c1 == c;
    } else {
      SeekRuns(cb, c, w, WrappingAdd(base, |x|), |x|);
      assert Parse(cb, c, w) == Parse(cb, c1, w');
    }
    SeekStops(cb, c1, w');
    assert c1.(pendingStartSeq := None) == c.(pendingStartSeq := None, preSnapshotSkipped := c.preSnapshotSkipped + |x|);
  }

  /** The daemon's own continuation: the table limit is not exceeded, and a table whose
      capacity was only assumed is not shaken by a bad block. */
  predicate GoesOn(cb: Codebook, live: Core, w: Window) {
    Unshaken(live, Parse(cb, live, w).0)
  }

  /** The rebuilder reading `x` and then what the daemon reads from `pending` on, and the daemon
      itself, emit the same frames with the same decoded blocks, place for place. */
  predicate ContinuesAlike(cb: Codebook, live: Core, pending: Window, base: u32, x: seq<byte>, cont: seq<byte>) {
    var (t, wt, ft) := Parse(cb, Seeded(live, pending.NextSeq()), Window(base, 0, x + (pending.avail + cont)));
    var (f, wf, ff) := Parse(cb, live, pending.Append(cont));
    && FramedAlike(t, wt, |x|, ft, Lift(f), wf, pending.off, ff)
    && Blocks(Views(ft, |x|)) == Blocks(Views(ff, pending.off))
  }

  /** Snapshot handoff. For a direction the daemon followed from its first byte, at a point
      where it is snapshottable with nothing left to discard and the preface behind it: a
      direction seeded from that snapshot and fed the stream from any byte at or before that
      point continues exactly as the daemon's, for every continuation in which the daemon
      does not give the table up as too large. */
  lemma SnapshotHandoff(cb: Codebook, preface: bool, limit: nat, events: seq<Event>, base: u32, x: seq<byte>, cont: seq<byte>)
    requires var live := DeliverAll(cb, Followed(preface, limit), events);
             && SafePoint(live.c) && |x| < TWO31 && WrappingAdd(base, |x|) == live.r.win.NextSeq()
             && limit <= USIZE_MAX && !Parse(cb, live.c, live.r.win.Append(cont)).0.dec.overLimit
    ensures var live := DeliverAll(cb, Followed(preface, limit), events);
            ContinuesAlike(cb, live.c, live.r.win, base, x, cont)
  {
    var live := DeliverAll(cb, Followed(preface, limit), events);
    AlwaysLive(cb, Followed(preface, limit), events);
    hide Parse, DeliverAll;
    HandoffFrom(cb, live.c, live.r.win, base, x, cont);
  }

  /** The same for any direction, joined midway too: what a snapshot needs beyond being
      taken at a safe point is that no entry is flagged unknown. */
  lemma SnapshotHandoffMidway(cb: Codebook, limit: nat, events: seq<Event>, base: u32, x: seq<byte>, cont: seq<byte>)
    requires var live := DeliverAll(cb, Joined(limit), events);
             && SafePoint(live.c) && CleanTable(live.c.dec.table)
             && |x| < TWO31 && WrappingAdd(base, |x|) == live.r.win.NextSeq()
             && limit <= USIZE_MAX && GoesOn(cb, live.c, live.r.win.Append(cont))
    ensures var live := DeliverAll(cb, Joined(limit), events);
            ContinuesAlike(cb, live.c, live.r.win, base, x, cont)
  {
    var live := DeliverAll(cb, Joined(limit), events);
    AlwaysLive(cb, Joined(limit), events);
    hide Parse, DeliverAll;
    HandoffFrom(cb, live.c, live.r.win, base, x, cont);
  }

  lemma HandoffFrom(cb: Codebook, live: Core, pending: Window, base: u32, x: seq<byte>, cont: seq<byte>)
    requires Sane(live) && SafePoint(live) && CleanTable(live.dec.table) && !live.keepPayloads
    requires |x| < TWO31 && WrappingAdd(base, |x|) == pending.NextSeq()
    requires GoesOn(cb, live, pending.Append(cont))
    ensures ContinuesAlike(cb, live, pending, base, x, cont)
  {
    hide Sane, Parse, FramedAlike, OneBehind, CleanTable;
    var rest := pending.avail + cont;
    var c := Seeded(live, pending.NextSeq());
    SeekArrives(cb, c, base, x, rest);
    var c' := c.(pendingStartSeq := None, preSnapshotSkipped := c.preSnapshotSkipped + |x|);
    SeededIsTwin(live, pending.NextSeq());
    ParseLifts(cb, live, pending.Append(cont));
    FramedIdentically(cb, c', Window(base, |x|, rest), |x|, Lift(live), pending.Append(cont), pending.off);
    var (t, wt, ft) := Parse(cb, c', Window(base, |x|, rest));
    var (f, wf, ff) := Parse(cb, live, pending.Append(cont));
    AlikeBlocks(t, wt, |x|, ft, Lift(f), wf, pending.off, ff);
  }
}
