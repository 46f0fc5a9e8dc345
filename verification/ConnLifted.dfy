/** A direction with its table limit lifted and its capacity taken as observed goes on exactly as
    before, as long as the limit is not exceeded and, where the capacity was only assumed,
    nothing shakes the table. It is what a seeded direction is compared with. */
module ConnLifted {
  import opened Basics
  import opened HpackInt
  import opened HpackTable
  import opened HpackSpec
  import HpackExact
  import opened ReassemblySpec
  import opened Frame
  import opened ConnSpec
  import opened ConnSegmentation

  function LiftDec(d: DecState): DecState {
    d.(trackLimit := USIZE_MAX, capacityObserved := true)
  }

  function Lift(c: Core): Core {
    c.(dec := LiftDec(c.dec), tableTrackLimit := USIZE_MAX)
  }

  /** The table is tracked, and either its capacity is known or it is exact anyway. */
  predicate LiftableDec(d: DecState) {
    !d.overLimit && d.maxSize <= d.trackLimit <= USIZE_MAX && (d.capacityObserved || d.exact)
  }

  // ----- decoding -------------------------------------------------------------------------

  lemma ResizeLifts(d: DecState, n: nat)
    requires LiftableDec(d) && !d.Resize(n).overLimit
    ensures LiftDec(d).Resize(n) == LiftDec(d.Resize(n)) && LiftableDec(d.Resize(n))
  {
    hide Total, Fit;
  }

  lemma InsertLifts(d: DecState, f: Field)
    requires LiftableDec(d)
    ensures LiftDec(d).Insert(f) == LiftDec(d.Insert(f)) && LiftableDec(d.Insert(f))
  {
    hide Total, Fit;
  }

  lemma LiteralLifts(cb: Codebook, d: DecState, b: seq<byte>, prefix: nat)
    requires LiftableDec(d)
    ensures var (d', r) := ReadLiteral(cb, d, b, prefix);
            ReadLiteral(cb, LiftDec(d), b, prefix) == (LiftDec(d'), r) && LiftableDec(d') && d'.capacityObserved == d.capacityObserved
  {
    hide ReadInt, ReadString;
  }

  lemma StepDecLifts(cb: Codebook, d: DecState, b: seq<byte>)
    requires b != [] && LiftableDec(d) && !DecodeStep(cb, d, b).0.overLimit
    ensures var (d', r) := DecodeStep(cb, d, b);
            && DecodeStep(cb, LiftDec(d), b) == (LiftDec(d'), r) && LiftableDec(d')
            && (d.capacityObserved ==> d'.capacityObserved)
  {
    hide ReadInt, ReadLiteral, DecState.Resize, DecState.Insert;
    LiteralLifts(cb, d, b, 6);
    LiteralLifts(cb, d, b, 4);
    var n := ReadInt(b, 5);
    if 0x20 <= b[0] < 0x40 && n.Ok? {
      ResizeLifts(d, n.value.0);
      ResizeObserves(d, n.value.0);
    }
    var (d', r) := ReadLiteral(cb, d, b, 6);
    InsertLifts(d', if r.Ok? then r.value.0 else Field([], [], false, false));
    InsertObserves(d', if r.Ok? then r.value.0 else Field([], [], false, false));
  }

  lemma ResizeObserves(d: DecState, n: nat)
    ensures d.Resize(n).capacityObserved && (d.overLimit ==> d.Resize(n).overLimit)
  {
    hide Total, Fit;
  }

  lemma InsertObserves(d: DecState, f: Field)
    ensures d.Insert(f).capacityObserved == d.capacityObserved && d.Insert(f).overLimit == d.overLimit
  {
    hide Total, Fit;
  }

  lemma {:induction false} DecodeLifts(cb: Codebook, d: DecState, b: seq<byte>)
    requires LiftableDec(d) && !Decode(cb, d, b).0.overLimit
    ensures var (d', r) := Decode(cb, d, b);
            && Decode(cb, LiftDec(d), b) == (LiftDec(d'), r) && LiftableDec(d')
            && (d.capacityObserved ==> d'.capacityObserved)
    decreases |b|
  {
    hide DecodeStep, LiftDec, LiftableDec;
    if b != [] {
      var (d', r) := DecodeStep(cb, d, b);
      if r.Ok? && d'.overLimit { HpackExact.OverLimitStays(cb, d', r.value.1); }
      StepDecLifts(cb, d, b);
      if r.Ok? { DecodeLifts(cb, d', r.value.1); }
    }
  }

  // ----- one turn of the parser ---------------------------------------------------------------

  predicate Liftable(c: Core) {
    LiftableDec(c.dec) && c.pendingStartSeq.None?
  }

  /** The outcome does not exceed the limit, nor shake a table whose capacity was assumed. */
  predicate Unshaken(c: Core, c': Core) {
    !c'.dec.overLimit && (c.dec.capacityObserved || !c'.poisoned)
  }

  predicate Lifts(c: Core, c': Core, lifted: Core) {
    lifted == Lift(c') && Liftable(c') && (c.dec.capacityObserved ==> c'.dec.capacityObserved)
  }

  lemma FinishLifts(cb: Codebook, c: Core)
    requires Liftable(c) && Unshaken(c, c.FinishBlock(cb).0)
    ensures Lifts(c, c.FinishBlock(cb).0, Lift(c).FinishBlock(cb).0) && Lift(c).FinishBlock(cb).1 == c.FinishBlock(cb).1
  {
    hide Decode, Core.Settle, LiftDec, LiftableDec;
    if c.blockHdr.Some? {
      var (d, r) := Decode(cb, c.dec, c.block);
      SettleKeepsLimit(c, c.blockHdr.value, d, r);
      DecodeLifts(cb, c.dec, c.block);
      SettleLifts(c, c.blockHdr.value, d, r);
    }
  }

  lemma SettleKeepsLimit(c: Core, h: FrameHeader, d: DecState, r: Result<seq<Field>>)
    ensures c.Settle(h, d, r).0.dec.overLimit == d.overLimit
  {
  }

  lemma SettleLifts(c: Core, h: FrameHeader, d: DecState, r: Result<seq<Field>>)
    requires c.pendingStartSeq.None? && LiftableDec(d) && (c.dec.capacityObserved ==> d.capacityObserved)
    requires Unshaken(c, c.Settle(h, d, r).0)
    ensures var (c', out), (l, out') := c.Settle(h, d, r), Lift(c).Settle(h, LiftDec(d), r);
            Lifts(c, c', l) && out == out'
  {
    hide StreamsAfter, KindOf;
  }

  lemma MarkBadLifts(c: Core)
    requires Liftable(c) && Unshaken(c, c.MarkBadBlock())
    ensures Lifts(c, c.MarkBadBlock(), Lift(c).MarkBadBlock())
  {
  }

  lemma OpenLifts(cb: Codebook, c: Core, h: FrameHeader, payload: seq<byte>)
    requires Liftable(c) && Unshaken(c, c.OpenBlock(cb, h, payload).0)
    ensures var (c', out), (l, out') := c.OpenBlock(cb, h, payload), Lift(c).OpenBlock(cb, h, payload);
            Lifts(c, c', l) && out == out'
  {
    hide Core.FinishBlock, HeaderBlockFragment, PromisedId, Core.MarkBadBlock, LiftDec, LiftableDec;
    var ready := c.Prepare(h, payload);
    assert Lift(c).Prepare(h, payload) == Lift(ready);
    match HeaderBlockFragment(h, payload)
    case None => MarkBadLifts(ready);
    case Some(frag) =>
      if h.Has(END_HEADERS) { FinishLifts(cb, ready.(block := ready.block + frag, blockHdr := Some(h))); }
  }

  lemma ContinueLifts(cb: Codebook, c: Core, h: FrameHeader, payload: seq<byte>)
    requires Liftable(c) && Unshaken(c, c.ContinueBlock(cb, h, payload).0)
    ensures var (c', out), (l, out') := c.ContinueBlock(cb, h, payload), Lift(c).ContinueBlock(cb, h, payload);
            Lifts(c, c', l) && out == out'
  {
    hide Core.FinishBlock, Core.MarkBadBlock, LiftDec, LiftableDec;
    if c.blockHdr.None? {
      MarkBadLifts(c);
    } else if h.Has(END_HEADERS) {
      FinishLifts(cb, c.(block := c.block + payload));
    }
  }

  lemma HandleLifts(cb: Codebook, c: Core, h: FrameHeader, payload: seq<byte>, w: Window)
    requires Liftable(c) && Unshaken(c, c.HandleFrame(cb, h, payload, w).0)
    ensures var (c', f), (l, f') := c.HandleFrame(cb, h, payload, w), Lift(c).HandleFrame(cb, h, payload, w);
            Lifts(c, c', l) && f == f'
  {
    hide Core.OpenBlock, Core.ContinueBlock, SettingsTableSize, LiftDec, LiftableDec, Window.NextSeq;
    if h.typ == HEADERS || h.typ == PUSH_PROMISE {
      OpenLifts(cb, c, h, payload);
    } else if h.typ == CONTINUATION {
      ContinueLifts(cb, c, h, payload);
    }
  }

  function LiftStep(r: Step): Step {
    match r
    case Stop(c, w) => Stop(Lift(c), w)
    case Go(c, w, out) => Go(Lift(c), w, out)
  }

  lemma FrameLifts(cb: Codebook, c: Core, w: Window)
    requires Liftable(c) && Unshaken(c, FrameStep(cb, c, w).c)
    ensures var r := FrameStep(cb, c, w);
            FrameStep(cb, Lift(c), w) == LiftStep(r) && Lifts(c, r.c, Lift(r.c))
  {
    hide Core.HandleFrame, LiftDec, LiftableDec, Window.NextSeq, Window.Consume;
    var h := ParseHeader(w.avail);
    if h.Some? && c.WantsPayload(h.value) && |w.avail| >= h.value.TotalLen() {
      HandleLifts(cb, c.(frames := c.frames + 1), h.value, w.avail[FRAME_HEADER_LEN..h.value.TotalLen()], w);
    }
  }

  lemma StepLifts(cb: Codebook, c: Core, w: Window)
    requires Liftable(c) && Unshaken(c, ParseStep(cb, c, w).c)
    ensures var r := ParseStep(cb, c, w);
            ParseStep(cb, Lift(c), w) == LiftStep(r) && Lifts(c, r.c, Lift(r.c))
  {
    hide FrameStep, Scan, LiftDec, LiftableDec, Window.Consume;
    if c.discard == 0 && !c.desynced && !c.expectPreface { FrameLifts(cb, c, w); }
  }

  // ----- whole parses ---------------------------------------------------------------------------

  lemma FinishSticks(cb: Codebook, c: Core)
    ensures var c' := c.FinishBlock(cb).0; (c.dec.overLimit ==> c'.dec.overLimit) && (c.poisoned ==> c'.poisoned)
  {
    hide Decode, StreamsAfter, KindOf, Total;
    if c.dec.overLimit { HpackExact.OverLimitStays(cb, c.dec, c.block); }
  }

  lemma HandleSticks(cb: Codebook, c: Core, h: FrameHeader, payload: seq<byte>, w: Window)
    ensures var c' := c.HandleFrame(cb, h, payload, w).0; (c.dec.overLimit ==> c'.dec.overLimit) && (c.poisoned ==> c'.poisoned)
  {
    hide Core.FinishBlock, HeaderBlockFragment, PromisedId, SettingsTableSize, Window.NextSeq;
    if h.typ == HEADERS || h.typ == PUSH_PROMISE {
      var frag := HeaderBlockFragment(h, payload);
      var ready := c.Prepare(h, payload);
      if frag.Some? { FinishSticks(cb, ready.(block := ready.block + frag.value, blockHdr := Some(h))); }
    } else if h.typ == CONTINUATION {
      FinishSticks(cb, c.(block := c.block + payload));
    }
  }

  /** A lost trust, or a table given up, is never regained by parsing. */
  lemma StepSticks(cb: Codebook, c: Core, w: Window)
    ensures var c' := ParseStep(cb, c, w).c; (c.dec.overLimit ==> c'.dec.overLimit) && (c.poisoned ==> c'.poisoned)
  {
    hide Core.HandleFrame, Scan, Window.Consume, Window.NextSeq, SignedDiff;
    var h := ParseHeader(w.avail);
    if h.Some? && |w.avail| >= h.value.TotalLen() {
      HandleSticks(cb, c.(frames := c.frames + 1), h.value, w.avail[FRAME_HEADER_LEN..h.value.TotalLen()], w);
    }
  }

  lemma {:induction false} ParseSticks(cb: Codebook, c: Core, w: Window)
    ensures var c' := Parse(cb, c, w).0; (c.dec.overLimit ==> c'.dec.overLimit) && (c.poisoned ==> c'.poisoned)
    decreases |w.avail|, Rank(c)
  {
    hide ParseStep;
    StepSticks(cb, c, w);
    StepProgress(cb, c, w);
    match ParseStep(cb, c, w)
    case Stop(_, _) =>
    case Go(c', w', _) => ParseSticks(cb, c', w');
  }

  /** With the limit lifted and the capacity taken as observed, the same frames come out and the
      same state is left. */
  lemma {:induction false} ParseLifts(cb: Codebook, c: Core, w: Window)
    requires Liftable(c) && Unshaken(c, Parse(cb, c, w).0)
    ensures var (c', w', out) := Parse(cb, c, w);
            && Parse(cb, Lift(c), w) == (Lift(c'), w', out) && Liftable(c')
            && (c.dec.capacityObserved ==> c'.dec.capacityObserved)
    decreases |w.avail|, Rank(c)
  {
    hide ParseStep, Lift, Liftable;
    ParseOf(cb, c, w);
    ParseOf(cb, Lift(c), w);
    StepProgress(cb, c, w);
    match ParseStep(cb, c, w)
    case Stop(_, _) =>
      StepLifts(cb, c, w);
    case Go(c', w', _) =>
      ParseSticks(cb, c', w');
      StepLifts(cb, c, w);
      ParseLifts(cb, c', w');
  }
}
