/** The daemon, which throws payloads away, and the rebuilder, which keeps them, frame the
    same bytes identically. */
module ConnTwins {
  import opened Basics
  import opened HpackInt
  import opened HpackTable
  import HpackSpec
  import opened ReassemblySpec
  import opened Frame
  import opened ConnSpec
  import opened ConnSegmentation

  // ----- what is compared ------------------------------------------------------

  /** A decoded block without the first-or-trailers distinction, which depends on history
      older than a snapshot. */
  function BlockView(b: DecodedBlock): DecodedBlock {
    b.(kind := if b.kind == PushPromise then PushPromise else Headers)
  }

  datatype View = View(
    hdr: FrameHeader,
    startOff: int,
    startSeq: u32,
    decoded: Option<DecodedBlock>,
    isHeaderFrame: bool,
    settingsTableSize: Option<u32>)

  /** A frame as both programs must see it, with offsets counted from `origin`. */
  function ViewOf(f: ProcessedFrame, origin: int): View {
    View(f.hdr, f.startOff - origin, f.startSeq,
         if f.decoded.Some? then Some(BlockView(f.decoded.value)) else None,
         f.isHeaderFrame, f.settingsTableSize)
  }

  function Views(fs: seq<ProcessedFrame>, origin: int): seq<View> {
    if fs == [] then [] else [ViewOf(fs[0], origin)] + Views(fs[1..], origin)
  }

  lemma {:induction false} ViewsConcat(a: seq<ProcessedFrame>, b: seq<ProcessedFrame>, origin: int)
    ensures Views(a + b, origin) == Views(a, origin) + Views(b, origin)
  {
    if a == [] {
      assert a + b == b;
    } else {
      assert (a + b)[1..] == a[1..] + b;
      ViewsConcat(a[1..], b, origin);
    }
  }

  lemma ViewsOne(f: ProcessedFrame, origin: int)
    ensures Views([f], origin) == [ViewOf(f, origin)]
  {
    assert [f][1..] == [];
  }

  /** Two cores that agree on everything decoding depends on. */
  predicate Twin(t: Core, f: Core) {
    && f.dec == t.dec.(unresolved := f.dec.unresolved)
    && t.poisoned == f.poisoned && t.desynced == f.desynced
    && t.expectPreface == f.expectPreface && t.discard == f.discard
    && t.pendingStartSeq == f.pendingStartSeq
    && t.block == f.block && t.blockHdr == f.blockHdr && t.blockPromised == f.blockPromised
  }

  /** Two windows on the same bytes at the same place in the stream. */
  predicate SameBytes(wt: Window, ot: int, wf: Window, of_: int) {
    wt.avail == wf.avail && wt.NextSeq() == wf.NextSeq() && wt.off - ot == wf.off - of_
  }

  // ----- decoding does not depend on the reference counter -----------------------------

  /** The same state with another count of unresolved references. */
  function Recount(d: HpackSpec.DecState, u: nat): HpackSpec.DecState {
    d.(unresolved := u)
  }

  lemma TableUnresolved(d: HpackSpec.DecState, u: nat, f: Field, n: nat)
    ensures Recount(d, u).Insert(f) == Recount(d.Insert(f), u) && d.Insert(f).unresolved == d.unresolved
    ensures Recount(d, u).Resize(n) == Recount(d.Resize(n), u) && d.Resize(n).unresolved == d.unresolved
  {
  }

  lemma LiteralUnresolved(cb: Codebook, d: HpackSpec.DecState, u: nat, b: seq<byte>, prefix: nat)
    ensures var (d1, r1) := HpackSpec.ReadLiteral(cb, d, b, prefix);
            d1.unresolved >= d.unresolved
            && HpackSpec.ReadLiteral(cb, Recount(d, u), b, prefix) == (Recount(d1, u + (d1.unresolved - d.unresolved)), r1)
  {
    hide ReadInt, ReadString;
  }

  lemma StepUnresolved(cb: Codebook, d: HpackSpec.DecState, u: nat, b: seq<byte>)
    requires b != []
    ensures var (d1, r1) := HpackSpec.DecodeStep(cb, d, b);
            d1.unresolved >= d.unresolved
            && HpackSpec.DecodeStep(cb, Recount(d, u), b) == (Recount(d1, u + (d1.unresolved - d.unresolved)), r1)
  {
    hide ReadInt, ReadString, HpackSpec.ReadLiteral, HpackSpec.DecState.Insert, HpackSpec.DecState.Resize;
    if b[0] >= 0x80 {
    } else if b[0] >= 0x40 {
      LiteralUnresolved(cb, d, u, b, 6);
      var (d1, r1) := HpackSpec.ReadLiteral(cb, d, b, 6);
      if r1.Ok? { TableUnresolved(d1, u + (d1.unresolved - d.unresolved), r1.value.0, 0); }
    } else if b[0] >= 0x20 {
      var r := ReadInt(b, 5);
      if r.Ok? { TableUnresolved(d, u, Field([], [], false, false), r.value.0); }
    } else {
      LiteralUnresolved(cb, d, u, b, 4);
    }
  }

  lemma {:induction false} DecodeUnresolved(cb: Codebook, d: HpackSpec.DecState, u: nat, b: seq<byte>)
    ensures var (d1, r1) := HpackSpec.Decode(cb, d, b);
            d1.unresolved >= d.unresolved
            && HpackSpec.Decode(cb, Recount(d, u), b) == (Recount(d1, u + (d1.unresolved - d.unresolved)), r1)
    decreases |b|
  {
    hide HpackSpec.DecodeStep;
    if b != [] {
      StepUnresolved(cb, d, u, b);
      var (d1, r1) := HpackSpec.DecodeStep(cb, d, b);
      if r1.Ok? {
        DecodeUnresolved(cb, d1, u + (d1.unresolved - d.unresolved), r1.value.1);
      }
    }
  }

  /** Same outcome for the decoder: nothing, or blocks that look the same. */
  predicate SameBlocks(bt: Option<DecodedBlock>, bf: Option<DecodedBlock>) {
    bt.Some? == bf.Some? && (bt.Some? ==> BlockView(bt.value) == BlockView(bf.value))
  }

  lemma SettleTwins(t: Core, f: Core, h: FrameHeader, d1: HpackSpec.DecState, r: Result<seq<Field>>)
    requires Twin(t, f) && d1.unresolved >= t.dec.unresolved
    ensures var d2 := Recount(d1, f.dec.unresolved + (d1.unresolved - t.dec.unresolved));
            && Twin(t.Settle(h, d1, r).0, f.Settle(h, d2, r).0)
            && SameBlocks(t.Settle(h, d1, r).1, f.Settle(h, d2, r).1)
  {
    hide StreamsAfter;
    match r
    case Ok(_) =>
    case Err(_) =>
  }

  lemma FinishTwins(cb: Codebook, t: Core, f: Core)
    requires Twin(t, f)
    ensures Twin(t.FinishBlock(cb).0, f.FinishBlock(cb).0)
    ensures SameBlocks(t.FinishBlock(cb).1, f.FinishBlock(cb).1)
  {
    hide HpackSpec.Decode, Core.Settle;
    if t.blockHdr.Some? {
      DecodeUnresolved(cb, t.dec, f.dec.unresolved, t.block);
      var (d1, r1) := HpackSpec.Decode(cb, t.dec, t.block);
      assert Recount(t.dec, f.dec.unresolved) == f.dec;
      SettleTwins(t, f, t.blockHdr.value, d1, r1);
    }
  }

  lemma PrepareTwins(t: Core, f: Core, h: FrameHeader, payload: seq<byte>)
    requires Twin(t, f)
    ensures Twin(t.Prepare(h, payload), f.Prepare(h, payload))
  {
    hide PromisedId;
  }

  lemma OpenTwins(cb: Codebook, t: Core, f: Core, h: FrameHeader, payload: seq<byte>)
    requires Twin(t, f)
    ensures Twin(t.OpenBlock(cb, h, payload).0, f.OpenBlock(cb, h, payload).0)
    ensures SameBlocks(t.OpenBlock(cb, h, payload).1, f.OpenBlock(cb, h, payload).1)
  {
    hide Core.FinishBlock, HeaderBlockFragment, BlockView, Core.Prepare;
    PrepareTwins(t, f, h, payload);
    var (t0, f0) := (t.Prepare(h, payload), f.Prepare(h, payload));
    match HeaderBlockFragment(h, payload)
    case None =>
    case Some(frag) =>
      FinishTwins(cb, t0.(block := t0.block + frag, blockHdr := Some(h)), f0.(block := f0.block + frag, blockHdr := Some(h)));
  }

  lemma ContinueTwins(cb: Codebook, t: Core, f: Core, h: FrameHeader, payload: seq<byte>)
    requires Twin(t, f)
    ensures Twin(t.ContinueBlock(cb, h, payload).0, f.ContinueBlock(cb, h, payload).0)
    ensures SameBlocks(t.ContinueBlock(cb, h, payload).1, f.ContinueBlock(cb, h, payload).1)
  {
    hide Core.FinishBlock, BlockView;
    FinishTwins(cb, t.(block := t.block + payload), f.(block := f.block + payload));
  }

  lemma HandleTwins(cb: Codebook, t: Core, f: Core, h: FrameHeader, payload: seq<byte>, wt: Window, ot: int, wf: Window, of_: int)
    requires Twin(t, f) && SameBytes(wt, ot, wf, of_)
    ensures Twin(t.HandleFrame(cb, h, payload, wt).0, f.HandleFrame(cb, h, payload, wf).0)
    ensures ViewOf(t.HandleFrame(cb, h, payload, wt).1, ot) == ViewOf(f.HandleFrame(cb, h, payload, wf).1, of_)
  {
    hide Core.OpenBlock, Core.ContinueBlock, BlockView, SettingsTableSize;
    OpenTwins(cb, t, f, h, payload);
    ContinueTwins(cb, t, f, h, payload);
  }

  // ----- one turn of the two loops -------------------------------------------------------

  /** The only frames the two treat differently. */
  predicate Passthrough(h: FrameHeader) {
    !h.IsHeaderFrame() && h.typ != SETTINGS && h.len <= MAX_BUFFERED_FRAME
  }

  predicate AtFrame(c: Core) {
    c.discard == 0 && c.pendingStartSeq.None? && !c.desynced && !c.expectPreface
  }

  /** Do the two take the same branch here? */
  predicate SameBranch(t: Core, f: Core, w: Window) {
    AtFrame(t) && |w.avail| >= FRAME_HEADER_LEN ==>
      t.WantsPayload(ParseHeader(w.avail).value) == f.WantsPayload(ParseHeader(w.avail).value)
  }

  predicate StepsMatch(st: Step, ot: int, sf: Step, of_: int) {
    && Twin(st.c, sf.c) && SameBytes(st.w, ot, sf.w, of_) && st.Go? == sf.Go?
    && (st.Go? ==> Views(st.out, ot) == Views(sf.out, of_))
  }

  lemma ConsumeSame(wt: Window, ot: int, wf: Window, of_: int, n: nat)
    requires SameBytes(wt, ot, wf, of_)
    ensures SameBytes(wt.Consume(n), ot, wf.Consume(n), of_)
  {
    var k := if n <= |wt.avail| then n else |wt.avail|;
    WrappingAddAssoc(wt.base, wt.off, k);
    WrappingAddAssoc(wf.base, wf.off, k);
  }

  function HeaderOf(a: seq<byte>): (h: FrameHeader)
    requires |a| >= FRAME_HEADER_LEN
    ensures ParseHeader(a) == Some(h)
  {
    ParseHeader(a).value
  }

  /** What is emitted for a frame whose payload is not buffered. */
  function Dropped(h: FrameHeader, w: Window): ProcessedFrame {
    ProcessedFrame(h, [], w.off, w.NextSeq(), None, h.IsHeaderFrame(), true, None)
  }

  lemma DroppedTwins(h: FrameHeader, wt: Window, ot: int, wf: Window, of_: int)
    requires SameBytes(wt, ot, wf, of_)
    ensures ViewOf(Dropped(h, wt), ot) == ViewOf(Dropped(h, wf), of_)
  {
  }

  lemma FrameStepTwins(cb: Codebook, t: Core, wt: Window, ot: int, f: Core, wf: Window, of_: int)
    requires Twin(t, f) && SameBytes(wt, ot, wf, of_) && AtFrame(t) && SameBranch(t, f, wt)
    ensures StepsMatch(FrameStep(cb, t, wt), ot, FrameStep(cb, f, wf), of_)
  {
    hide Core.HandleFrame, Window.Consume, Window.NextSeq, ViewOf;
    if |wt.avail| >= FRAME_HEADER_LEN {
      var h := HeaderOf(wt.avail);
      ConsumeSame(wt, ot, wf, of_, FRAME_HEADER_LEN);
      ConsumeSame(wt, ot, wf, of_, h.TotalLen());
      if t.WantsPayload(h) && |wt.avail| >= h.TotalLen() {
        var payload := wt.avail[FRAME_HEADER_LEN..h.TotalLen()];
        var (t1, f1) := (t.(frames := t.frames + 1), f.(frames := f.frames + 1));
        HandleTwins(cb, t1, f1, h, payload, wt, ot, wf, of_);
        ViewsOne(t1.HandleFrame(cb, h, payload, wt).1, ot);
        ViewsOne(f1.HandleFrame(cb, h, payload, wf).1, of_);
      } else if !t.WantsPayload(h) {
        ViewsOne(Dropped(h, wt), ot);
        ViewsOne(Dropped(h, wf), of_);
        DroppedTwins(h, wt, ot, wf, of_);
      }
    }
  }

  lemma DiscardTwins(t: Core, wt: Window, ot: int, f: Core, wf: Window, of_: int)
    requires Twin(t, f) && SameBytes(wt, ot, wf, of_)
    ensures StepsMatch(DiscardStep(t, wt), ot, DiscardStep(f, wf), of_)
  {
    hide Window.Consume, Window.NextSeq;
    ConsumeSame(wt, ot, wf, of_, if t.discard < |wt.avail| then t.discard else |wt.avail|);
  }

  lemma SeekTwins(t: Core, wt: Window, ot: int, f: Core, wf: Window, of_: int, target: u32)
    requires Twin(t, f) && SameBytes(wt, ot, wf, of_)
    ensures StepsMatch(SeekStep(t, wt, target), ot, SeekStep(f, wf, target), of_)
  {
    hide SeekStep;
    var delta := SignedDiff(target, wt.NextSeq());
    if delta > 0 && wt.avail != [] {
      SeekAheadTwins(t, wt, ot, f, wf, of_, target, delta);
    } else {
      SeekOtherwiseTwins(t, wt, ot, f, wf, of_, target);
    }
  }

  lemma SeekDoneTwins(t: Core, f: Core, misaligned: bool)
    requires Twin(t, f)
    ensures Twin(SeekDone(t, misaligned), SeekDone(f, misaligned))
  {
  }

  lemma SeekOtherwiseTwins(t: Core, wt: Window, ot: int, f: Core, wf: Window, of_: int, target: u32)
    requires Twin(t, f) && SameBytes(wt, ot, wf, of_)
    requires SignedDiff(target, wt.NextSeq()) <= 0 || wt.avail == []
    ensures StepsMatch(SeekStep(t, wt, target), ot, SeekStep(f, wf, target), of_)
  {
    hide Window.Consume, Window.NextSeq, SignedDiff, SeekDone, Twin;
    var delta := SignedDiff(target, wt.NextSeq());
    SeekDoneTwins(t, f, delta < 0);
    if delta > 0 {
      assert SeekStep(t, wt, target) == Stop(t, wt) && SeekStep(f, wf, target) == Stop(f, wf);
    } else {
      assert SeekStep(t, wt, target) == Go(SeekDone(t, delta < 0), wt, []);
      assert SeekStep(f, wf, target) == Go(SeekDone(f, delta < 0), wf, []);
    }
  }

  lemma SeekAheadTwins(t: Core, wt: Window, ot: int, f: Core, wf: Window, of_: int, target: u32, delta: nat)
    requires Twin(t, f) && SameBytes(wt, ot, wf, of_)
    requires SignedDiff(target, wt.NextSeq()) == delta > 0 && wt.avail != []
    ensures StepsMatch(SeekStep(t, wt, target), ot, SeekStep(f, wf, target), of_)
  {
    hide Window.Consume, Window.NextSeq, SignedDiff, SeekStep;
    ConsumeSame(wt, ot, wf, of_, if delta < |wt.avail| then delta else |wt.avail|);
    SeekSkips(t, wt, target, delta);
    SeekSkips(f, wf, target, delta);
  }

  lemma ResyncTwins(cb: Codebook, t: Core, wt: Window, ot: int, f: Core, wf: Window, of_: int)
    requires Twin(t, f) && SameBytes(wt, ot, wf, of_)
    ensures var (t', wt', a) := TryResync(t, wt);
            var (f', wf', b) := TryResync(f, wf);
            a == b && Twin(t', f') && SameBytes(wt', ot, wf', of_)
  {
    hide Window.Consume, Window.NextSeq;
    match Scan(wt.avail, 0)
    case Some((off, _)) => ConsumeSame(wt, ot, wf, of_, off);
    case None =>
      if |wt.avail| > RESYNC_WINDOW { ConsumeSame(wt, ot, wf, of_, |wt.avail| - RESYNC_WINDOW); }
  }

  lemma SkipTwins(cb: Codebook, t: Core, wt: Window, ot: int, f: Core, wf: Window, of_: int)
    requires Twin(t, f) && SameBytes(wt, ot, wf, of_) && !AtFrame(t)
    ensures StepsMatch(ParseStep(cb, t, wt), ot, ParseStep(cb, f, wf), of_)
  {
    hide Window.Consume, Window.NextSeq, DiscardStep, SeekStep, FrameStep, TryResync;
    if t.discard > 0 {
      DiscardTwins(t, wt, ot, f, wf, of_);
    } else if t.pendingStartSeq.Some? {
      SeekTwins(t, wt, ot, f, wf, of_, t.pendingStartSeq.value);
    } else if t.desynced {
      ResyncTwins(cb, t, wt, ot, f, wf, of_);
    } else {
      ConsumeSame(wt, ot, wf, of_, |PREFACE|);
    }
  }

  lemma StepTwins(cb: Codebook, t: Core, wt: Window, ot: int, f: Core, wf: Window, of_: int)
    requires Twin(t, f) && SameBytes(wt, ot, wf, of_) && SameBranch(t, f, wt)
    ensures StepsMatch(ParseStep(cb, t, wt), ot, ParseStep(cb, f, wf), of_)
  {
    hide FrameStep, Window.NextSeq;
    if AtFrame(t) {
      FrameStepTwins(cb, t, wt, ot, f, wf, of_);
    } else {
      SkipTwins(cb, t, wt, ot, f, wf, of_);
    }
  }

  // ----- whole parses ----------------------------------------------------------------------

  /** The daemon is inside a payload that the rebuilder is still waiting for. */
  predicate OneBehind(t: Core, wt: Window, ot: int, f: Core, wf: Window, of_: int) {
    && AtFrame(t) && |wt.avail| >= FRAME_HEADER_LEN
    && var h := ParseHeader(wt.avail).value;
    && Passthrough(h) && |wt.avail| < h.TotalLen()
    && Twin(t, f.(discard := 0)) && f.discard == h.TotalLen() - |wt.avail|
    && wf.avail == [] && wf.off - of_ == wt.off - ot + |wt.avail|
    && wf.NextSeq() == WrappingAdd(wt.NextSeq(), |wt.avail|) && wf.off >= |wt.avail| && f.frames > 0
  }

  /** How the two outcomes of a parse relate: in step, or the daemon one frame ahead. */
  predicate FramedAlike(t: Core, wt: Window, ot: int, ft: seq<ProcessedFrame>,
                        f: Core, wf: Window, of_: int, ff: seq<ProcessedFrame>) {
    || (Twin(t, f) && SameBytes(wt, ot, wf, of_) && Views(ft, ot) == Views(ff, of_))
    || (OneBehind(t, wt, ot, f, wf, of_)
        && Views(ff, of_) == Views(ft, ot)
           + [View(ParseHeader(wt.avail).value, wt.off - ot, wt.NextSeq(), None, false, None)])
  }

  /** The whole of a discard, in one go. */
  lemma DiscardRun(cb: Codebook, c: Core, w: Window)
    requires c.discard > 0
    ensures Parse(cb, c, w) ==
            if |w.avail| < c.discard then (c.(discard := c.discard - |w.avail|), w.Consume(|w.avail|), [])
            else Parse(cb, c.(discard := 0), w.Consume(c.discard))
  {
    hide SeekStep, TryResync, PrefaceStep, FrameStep;
    ParseOf(cb, c, w);
    if w.avail == [] {
      assert w.Consume(0) == w;
    } else if |w.avail| < c.discard {
      var c', w' := c.(discard := c.discard - |w.avail|), w.Consume(|w.avail|);
      assert ParseStep(cb, c, w) == Go(c', w', []);
      assert ParseStep(cb, c', w') == Stop(c', w');
      ParseOf(cb, c', w');
      var none: seq<ProcessedFrame> := [];
      assert none + none == none;
    } else {
      var r := Parse(cb, c.(discard := 0), w.Consume(c.discard));
      assert [] + r.2 == r.2;
    }
  }

  /** A frame whose payload is kept. */
  lemma TakenFrame(cb: Codebook, c: Core, w: Window) returns (c': Core, f: ProcessedFrame)
    requires AtFrame(c) && |w.avail| >= FRAME_HEADER_LEN && c.WantsPayload(HeaderOf(w.avail)) && |w.avail| >= HeaderOf(w.avail).TotalLen()
    ensures var h := HeaderOf(w.avail);
            var (c2, w2, out) := Parse(cb, c', w.Consume(h.TotalLen()));
            && (c', f) == c.(frames := c.frames + 1).HandleFrame(cb, h, w.avail[FRAME_HEADER_LEN..h.TotalLen()], w)
            && Parse(cb, c, w) == (c2, w2, [f] + out)
  {
    hide Core.HandleFrame, Window.NextSeq, Parse;
    var h := HeaderOf(w.avail);
    var r := c.(frames := c.frames + 1).HandleFrame(cb, h, w.avail[FRAME_HEADER_LEN..h.TotalLen()], w);
    c', f := r.0, r.1;
    assert ParseStep(cb, c, w) == Go(c', w.Consume(h.TotalLen()), [f]);
    hide ParseStep, FrameStep;
    ParseOf(cb, c, w);
  }

  /** A frame whose payload is thrown away, and is all there. */
  lemma SkippedFrame(cb: Codebook, c: Core, w: Window)
    requires AtFrame(c) && |w.avail| >= FRAME_HEADER_LEN && !c.WantsPayload(HeaderOf(w.avail)) && |w.avail| >= HeaderOf(w.avail).TotalLen()
    ensures var h := HeaderOf(w.avail);
            var (c2, w2, out) := Parse(cb, c.(frames := c.frames + 1), w.Consume(h.TotalLen()));
            Parse(cb, c, w) == (c2, w2, [Dropped(h, w)] + out)
  {
    hide Core.HandleFrame, Window.NextSeq, Parse;
    var h := HeaderOf(w.avail);
    var c0, n := c.(frames := c.frames + 1), h.TotalLen();
    var c1, w1 := c0.(discard := h.len), w.Consume(FRAME_HEADER_LEN);
    assert ParseStep(cb, c, w) == Go(c1, w1, [Dropped(h, w)]);
    hide ParseStep, FrameStep;
    ParseOf(cb, c, w);
    assert w1.Consume(h.len) == w.Consume(n) by { assert w.avail[FRAME_HEADER_LEN..][h.len..] == w.avail[n..]; }
    if h.len > 0 { DiscardRun(cb, c1, w1); }
    assert c1.(discard := 0) == c0;
  }

  /** A payload the rebuilder has and the daemon throws away. */
  lemma PassthroughWhole(cb: Codebook, t: Core, wt: Window, ot: int, f: Core, wf: Window, of_: int)
    returns (pt: ProcessedFrame, pf: ProcessedFrame)
    requires Twin(t, f) && SameBytes(wt, ot, wf, of_) && AtFrame(t) && t.keepPayloads && !f.keepPayloads
    requires |wt.avail| >= FRAME_HEADER_LEN && Passthrough(HeaderOf(wt.avail))
    requires |wt.avail| >= HeaderOf(wt.avail).TotalLen()
    ensures var n := HeaderOf(wt.avail).TotalLen();
            var (f', wf', ff) := Parse(cb, f.(frames := f.frames + 1), wf.Consume(n));
            && ParseStep(cb, t, wt) == Go(t.(frames := t.frames + 1), wt.Consume(n), [pt])
            && Parse(cb, f, wf) == (f', wf', [pf] + ff)
            && ViewOf(pt, ot) == ViewOf(pf, of_)
  {
    hide Core.OpenBlock, Core.ContinueBlock, SettingsTableSize, Window.NextSeq;
    var h := HeaderOf(wt.avail);
    var f1, wf1 := f.(frames := f.frames + 1, discard := h.len), wf.Consume(FRAME_HEADER_LEN);
    pf := Dropped(h, wf);
    pt := t.(frames := t.frames + 1).HandleFrame(cb, h, wt.avail[FRAME_HEADER_LEN..h.TotalLen()], wt).1;
    NoTableSize(h, pt.payload);
    assert ParseStep(cb, t, wt) == Go(t.(frames := t.frames + 1), wt.Consume(h.TotalLen()), [pt]);
    assert ParseStep(cb, f, wf) == Go(f1, wf1, [pf]);
    ParseOf(cb, f, wf);
    assert wf1.Consume(h.len) == wf.Consume(h.TotalLen()) by {
      assert wf.avail[FRAME_HEADER_LEN..][h.len..] == wf.avail[h.TotalLen()..];
    }
    if h.len > 0 { DiscardRun(cb, f1, wf1); }
    assert f1.(discard := 0) == f.(frames := f.frames + 1);
  }

  lemma NoTableSize(h: FrameHeader, payload: seq<byte>)
    requires h.typ != SETTINGS
    ensures SettingsTableSize(h, payload) == None
  {
  }

  /** A payload still arriving: the rebuilder waits, the daemon is one frame ahead. */
  lemma PassthroughPartial(cb: Codebook, t: Core, wt: Window, ot: int, f: Core, wf: Window, of_: int)
    requires Twin(t, f) && SameBytes(wt, ot, wf, of_) && AtFrame(t) && t.keepPayloads && !f.keepPayloads
    requires |wt.avail| >= FRAME_HEADER_LEN && Passthrough(HeaderOf(wt.avail))
    requires |wt.avail| < HeaderOf(wt.avail).TotalLen()
    ensures Parse(cb, t, wt) == (t, wt, [])
    ensures var (f', wf', ff) := Parse(cb, f, wf);
            OneBehind(t, wt, ot, f', wf', of_)
            && Views(ff, of_) == [View(HeaderOf(wt.avail), wt.off - ot, wt.NextSeq(), None, false, None)]
  {
    hide Window.NextSeq, Parse, Window.Consume;
    KeeperWaits(cb, t, wt);
    var h, pf := HeaderOf(wt.avail), Dropped(HeaderOf(wt.avail), wf);
    DropperGoesOn(cb, f, wf);
    ViewsOne(pf, of_);
    hide Views;
    var f1, n := f.(frames := f.frames + 1), |wf.avail| - FRAME_HEADER_LEN;
    assert Parse(cb, f, wf) == (f1.(discard := h.len - n), wf.Consume(|wf.avail|), [pf]);
    ConsumeAll(wf);
  }

  lemma ConsumeAll(w: Window)
    ensures w.Consume(|w.avail|) == w.(off := w.off + |w.avail|, avail := [])
    ensures w.Consume(|w.avail|).NextSeq() == WrappingAdd(w.NextSeq(), |w.avail|)
  {
    WrappingAddAssoc(w.base, w.off, |w.avail|);
  }

  /** Whoever keeps the payload waits for all of it. */
  lemma KeeperWaits(cb: Codebook, t: Core, w: Window)
    requires AtFrame(t) && t.keepPayloads
    requires |w.avail| >= FRAME_HEADER_LEN && Passthrough(HeaderOf(w.avail)) && |w.avail| < HeaderOf(w.avail).TotalLen()
    ensures Parse(cb, t, w) == (t, w, [])
  {
    hide Window.NextSeq, Core.HandleFrame;
    assert ParseStep(cb, t, w) == Stop(t, w);
    hide ParseStep, FrameStep;
    ParseOf(cb, t, w);
  }

  /** Whoever throws it away announces the frame and discards what there is. */
  lemma DropperGoesOn(cb: Codebook, f: Core, w: Window)
    requires AtFrame(f) && |w.avail| >= FRAME_HEADER_LEN
    requires !f.WantsPayload(HeaderOf(w.avail)) && |w.avail| < HeaderOf(w.avail).TotalLen()
    ensures var h := HeaderOf(w.avail);
            Parse(cb, f, w) == (f.(frames := f.frames + 1, discard := h.TotalLen() - |w.avail|), w.Consume(|w.avail|), [Dropped(h, w)])
  {
    hide Window.NextSeq, Core.HandleFrame;
    var h := HeaderOf(w.avail);
    var f1, w1 := f.(frames := f.frames + 1, discard := h.len), w.Consume(FRAME_HEADER_LEN);
    assert ParseStep(cb, f, w) == Go(f1, w1, [Dropped(h, w)]);
    hide ParseStep, FrameStep;
    ParseOf(cb, f, w);
    DiscardRun(cb, f1, w1);
    assert w1.Consume(|w1.avail|) == w.Consume(|w.avail|);
    assert [Dropped(h, w)] + [] == [Dropped(h, w)];
  }

  lemma PrefixAlike(t: Core, wt: Window, ot: int, ft: seq<ProcessedFrame>, f: Core, wf: Window, of_: int, ff: seq<ProcessedFrame>,
                    a: seq<ProcessedFrame>, b: seq<ProcessedFrame>)
    requires FramedAlike(t, wt, ot, ft, f, wf, of_, ff) && Views(a, ot) == Views(b, of_)
    ensures FramedAlike(t, wt, ot, a + ft, f, wf, of_, b + ff)
  {
    hide Twin, SameBytes, OneBehind, ViewOf;
    ViewsConcat(a, ft, ot);
    ViewsConcat(b, ff, of_);
  }

  /** From the same state on the same bytes, the program that keeps payloads and the one that
      throws them away emit the same frames at the same places with the same decoded blocks;
      the latter may be one frame ahead, in which case its position plus `discard` is the end
      of the frame the former is waiting for. */
  lemma {:induction false} FramedIdentically(cb: Codebook, t: Core, wt: Window, ot: int, f: Core, wf: Window, of_: int)
    requires Twin(t, f) && SameBytes(wt, ot, wf, of_) && t.keepPayloads && !f.keepPayloads
    ensures var (t', wt', ft) := Parse(cb, t, wt);
            var (f', wf', ff) := Parse(cb, f, wf);
            FramedAlike(t', wt', ot, ft, f', wf', of_, ff)
    decreases |wt.avail|, Rank(t)
  {
    hide ParseStep, OneBehind, Window.Consume, Window.NextSeq;
    ParseOf(cb, t, wt);
    ParseOf(cb, f, wf);
    StepProgress(cb, t, wt);
    StepProgress(cb, f, wf);
    if AtFrame(t) && !SameBranch(t, f, wt) {
      var n := HeaderOf(wt.avail).TotalLen();
      if |wt.avail| < n {
        PassthroughPartial(cb, t, wt, ot, f, wf, of_);
      } else {
        var pt, pf := PassthroughWhole(cb, t, wt, ot, f, wf, of_);
        var (t', f') := (t.(frames := t.frames + 1), f.(frames := f.frames + 1));
        ConsumeSame(wt, ot, wf, of_, n);
        FramedIdentically(cb, t', wt.Consume(n), ot, f', wf.Consume(n), of_);
        var (t2, wt2, ft) := Parse(cb, t', wt.Consume(n));
        var (f2, wf2, ff) := Parse(cb, f', wf.Consume(n));
        ViewsOne(pt, ot);
        ViewsOne(pf, of_);
        PrefixAlike(t2, wt2, ot, ft, f2, wf2, of_, ff, [pt], [pf]);
      }
    } else {
      StepTwins(cb, t, wt, ot, f, wf, of_);
      var st, sf := ParseStep(cb, t, wt), ParseStep(cb, f, wf);
      if st.Go? {
        FramedIdentically(cb, st.c, st.w, ot, sf.c, sf.w, of_);
        var (t2, wt2, ft) := Parse(cb, st.c, st.w);
        var (f2, wf2, ff) := Parse(cb, sf.c, sf.w);
        PrefixAlike(t2, wt2, ot, ft, f2, wf2, of_, ff, st.out, sf.out);
      }
    }
  }

  /** The decoded blocks among what is seen, in order. */
  function Blocks(vs: seq<View>): seq<DecodedBlock> {
    if vs == [] then []
    else (if vs[0].decoded.Some? then [vs[0].decoded.value] else []) + Blocks(vs[1..])
  }

  lemma {:induction false} BlocksConcat(a: seq<View>, b: seq<View>)
    ensures Blocks(a + b) == Blocks(a) + Blocks(b)
  {
    if a == [] {
      assert a + b == b;
    } else {
      assert (a + b)[1..] == a[1..] + b;
      BlocksConcat(a[1..], b);
    }
  }

  /** Being one payload frame ahead never means being a header block ahead. */
  lemma AlikeBlocks(t: Core, wt: Window, ot: int, ft: seq<ProcessedFrame>, f: Core, wf: Window, of_: int, ff: seq<ProcessedFrame>)
    requires FramedAlike(t, wt, ot, ft, f, wf, of_, ff)
    ensures Blocks(Views(ft, ot)) == Blocks(Views(ff, of_))
  {
    if OneBehind(t, wt, ot, f, wf, of_) && Views(ft, ot) != Views(ff, of_) {
      var v := View(ParseHeader(wt.avail).value, wt.off - ot, wt.NextSeq(), None, false, None);
      BlocksConcat(Views(ft, ot), [v]);
      assert [v][1..] == [];
      assert Blocks([v]) == [];
    }
  }
}
