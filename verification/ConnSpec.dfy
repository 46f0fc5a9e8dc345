/** The per-direction state machine as a value: framing, header-block assembly, poisoning,
    resynchronisation and seeding, on top of a window of in-order bytes. */
module ConnSpec {
  import opened Basics
  import opened HpackInt
  import opened HpackTable
  import HpackSpec
  import opened ReassemblySpec
  import opened Frame

  const MAX_BUFFERED_FRAME := 0x10_0000
  const RESYNC_WINDOW := 0x1_0000
  const MAX_OPEN_STREAMS := 65_536

  datatype BlockKind = Headers | Trailers | PushPromise

  datatype DecodedBlock = DecodedBlock(
    streamId: u32,
    fields: seq<Field>,
    endStream: bool,
    kind: BlockKind,
    promised: Option<u32>,
    exact: bool,
    unresolved: nat)

  datatype ProcessedFrame = ProcessedFrame(
    hdr: FrameHeader,
    payload: seq<byte>,
    startOff: nat,
    startSeq: u32,
    decoded: Option<DecodedBlock>,
    isHeaderFrame: bool,
    truncated: bool,
    settingsTableSize: Option<u32>)

  /** The bookkeeping of which streams have had their first header block. */
  function StreamsAfter(open: set<u32>, h: FrameHeader): set<u32> {
    if h.typ == PUSH_PROMISE then open
    else if h.Has(END_STREAM) then open - {h.streamId}
    else (if |open| > MAX_OPEN_STREAMS then {} else open) + {h.streamId}
  }

  function KindOf(open: set<u32>, h: FrameHeader): BlockKind {
    if h.typ == PUSH_PROMISE then PushPromise else if h.streamId in open then Trailers else Headers
  }

  /** Everything a direction remembers besides the reassembler. */
  datatype Core = Core(
    dec: HpackSpec.DecState,
    poisoned: bool,
    desynced: bool,
    frames: nat,
    blocks: nat,
    decodeErrors: nat,
    resyncs: nat,
    keepPayloads: bool,
    expectPreface: bool,
    discard: nat,                   // payload bytes still to throw away
    pendingStartSeq: Option<u32>,   // where a snapshot says framing restarts
    snapshotMisaligned: bool,
    preSnapshotSkipped: nat,
    tableTrackLimit: nat,
    block: seq<byte>,
    blockHdr: Option<FrameHeader>,
    blockPromised: Option<u32>,
    openStreams: set<u32>)
  {
    function SetTableTrackLimit(n: nat): Core {
      this.(tableTrackLimit := n, dec := dec.SetTrackLimit(n))
    }

    function SeedFromSnapshot(entries: seq<Field>, maxSize: nat, nextFrameSeq: u32): Core {
      this.(dec := HpackSpec.FromEntries(entries, maxSize).SetTrackLimit(tableTrackLimit),
            desynced := false, poisoned := false, expectPreface := false,
            block := [], blockHdr := None, blockPromised := None,
            discard := 0, pendingStartSeq := Some(nextFrameSeq))
    }

    predicate IsSnapshottable() {
      !poisoned && !desynced && dec.IsExact() && blockHdr.None?
    }

    function MarkBadBlock(): Core {
      this.(block := [], blockHdr := None, blockPromised := None,
            poisoned := true, desynced := true, dec := dec.ResetPartial())
    }

    function OnGap(): Core {
      MarkBadBlock().(discard := 0)
    }

    /** The outcome of decoding the block that header frame `h` opened. */
    function Settle(h: FrameHeader, dec': HpackSpec.DecState, r: Result<seq<Field>>): (Core, Option<DecodedBlock>) {
      var taken := this.(block := [], blockHdr := None, blockPromised := None, blocks := blocks + 1);
      match r
      case Err(_) =>
        (taken.(decodeErrors := decodeErrors + 1, poisoned := true, dec := dec'.ResetPartial()), None)
      case Ok(fields) =>
        var unresolved := if dec'.unresolved >= dec.unresolved then dec'.unresolved - dec.unresolved else 0;
        (taken.(dec := dec', openStreams := StreamsAfter(openStreams, h)),
         Some(DecodedBlock(h.streamId, fields, h.Has(END_STREAM), KindOf(openStreams, h), blockPromised,
                           dec'.IsExact() && unresolved == 0, unresolved)))
    }

    function FinishBlock(cb: Codebook): (r: (Core, Option<DecodedBlock>))
      ensures r.0.keepPayloads == keepPayloads && r.0.resyncs == resyncs
    {
      if blockHdr.None? then (this, None)
      else
        var (dec', r) := HpackSpec.Decode(cb, dec, block);
        Settle(blockHdr.value, dec', r)
    }

    /** Ready for a new block: one left open is discarded, a promised id is noted. */
    function Prepare(h: FrameHeader, payload: seq<byte>): Core {
      this.(block := if blockHdr.Some? then [] else block,
            blockPromised := if h.typ == PUSH_PROMISE && PromisedId(h, payload).Some?
                             then PromisedId(h, payload) else blockPromised)
    }

    /** A HEADERS or PUSH_PROMISE frame. */
    function OpenBlock(cb: Codebook, h: FrameHeader, payload: seq<byte>): (r: (Core, Option<DecodedBlock>))
      ensures r.0.keepPayloads == keepPayloads && r.0.resyncs == resyncs
    {
      var ready := Prepare(h, payload);
      match HeaderBlockFragment(h, payload)
      case None => (ready.MarkBadBlock(), None)
      case Some(frag) =>
        var begun := ready.(block := ready.block + frag, blockHdr := Some(h));
        if h.Has(END_HEADERS) then begun.FinishBlock(cb) else (begun, None)
    }

    function ContinueBlock(cb: Codebook, h: FrameHeader, payload: seq<byte>): (r: (Core, Option<DecodedBlock>))
      ensures r.0.keepPayloads == keepPayloads && r.0.resyncs == resyncs
    {
      if blockHdr.None? then (MarkBadBlock(), None)
      else
        var longer := this.(block := block + payload);
        if h.Has(END_HEADERS) then longer.FinishBlock(cb) else (longer, None)
    }

    function HandleFrame(cb: Codebook, h: FrameHeader, payload: seq<byte>, w: Window): (r: (Core, ProcessedFrame))
      ensures r.0.keepPayloads == keepPayloads && r.0.resyncs == resyncs
    {
      var (c, decoded) :=
        if h.typ == HEADERS || h.typ == PUSH_PROMISE then OpenBlock(cb, h, payload)
        else if h.typ == CONTINUATION then ContinueBlock(cb, h, payload)
        else (this, None);
      (c, ProcessedFrame(h, payload, w.off, w.NextSeq(), decoded, h.IsHeaderFrame(), false, SettingsTableSize(h, payload)))
    }

    predicate WantsPayload(h: FrameHeader) {
      (keepPayloads || h.IsHeaderFrame() || h.typ == SETTINGS) && h.len <= MAX_BUFFERED_FRAME
    }
  }

  function JoinedMidstream(keepPayloads: bool): Core {
    Core(HpackSpec.NewPartial(), false, true, 0, 0, 0, 0, keepPayloads, false, 0, None, false, 0, USIZE_MAX, [], None, None, {})
  }

  function FromConnectionStart(keepPayloads: bool, expectPreface: bool): Core {
    JoinedMidstream(keepPayloads).(dec := HpackSpec.NewExact(), desynced := false, expectPreface := expectPreface)
  }

  // ----- hunting for a frame boundary --------------------------------------------

  /** The least offset from `off` on that the chain check does not reject, with its verdict. */
  function Scan(a: seq<byte>, off: nat): Option<(nat, ChainCheck)>
    decreases |a| - off
  {
    if off + FRAME_HEADER_LEN > |a| then None
    else
      var r := CheckFrameChain(a[off..], 4, 2);
      if r.ChainBad? then Scan(a, off + 1) else Some((off, r))
  }

  function TryResync(c: Core, w: Window): (Core, Window, bool) {
    match Scan(w.avail, 0)
    case Some((off, ChainOk)) => (c.(desynced := false, resyncs := c.resyncs + 1), w.Consume(off), true)
    case Some(_) => (c, w, false)
    case None => (c, if |w.avail| > RESYNC_WINDOW then w.Consume(|w.avail| - RESYNC_WINDOW) else w, false)
  }

  // ----- the parse loop -------------------------------------------------------------

  datatype Step =
    | Stop(c: Core, w: Window)
    | Go(c: Core, w: Window, out: seq<ProcessedFrame>)

  /** What shrinks: bytes, then a pending seek, then an expected preface, then a lost boundary. */
  function Rank(c: Core): nat {
    (if c.pendingStartSeq.Some? then 4 else 0) + (if c.expectPreface then 2 else 0) + (if c.desynced then 1 else 0)
  }

  /** A turn that goes on makes progress in bytes or, failing that, in `Rank`. */
  predicate Progress(c: Core, w: Window, r: Step) {
    && r.c.keepPayloads == c.keepPayloads
    && (r.Go? ==> |r.w.avail| < |w.avail| || (|r.w.avail| == |w.avail| && Rank(r.c) < Rank(c)))
  }

  function DiscardStep(c: Core, w: Window): Step {
    var n := if c.discard < |w.avail| then c.discard else |w.avail|;
    if n == 0 then Stop(c, w) else Go(c.(discard := c.discard - n), w.Consume(n), [])
  }

  function SeekStep(c: Core, w: Window, target: u32): Step {
    var delta := SignedDiff(target, w.NextSeq());
    if delta > 0 then
      var n := if delta < |w.avail| then delta else |w.avail|;
      if n == 0 then Stop(c, w)
      else Go(c.(preSnapshotSkipped := c.preSnapshotSkipped + n), w.Consume(n), [])
    else Go(SeekDone(c, delta < 0), w, [])
  }

  /** The seek is over; past its target, the capture is missing bytes the table accounts for. */
  function SeekDone(c: Core, misaligned: bool): Core {
    if misaligned then
      c.(snapshotMisaligned := true, dec := c.dec.ResetPartial(), desynced := true, pendingStartSeq := None)
    else c.(pendingStartSeq := None)
  }

  function PrefaceStep(c: Core, w: Window): Step {
    if |w.avail| < |PREFACE| then Stop(c, w)
    else Go(c.(expectPreface := false), if PREFACE <= w.avail then w.Consume(|PREFACE|) else w, [])
  }

  function FrameStep(cb: Codebook, c: Core, w: Window): (r: Step)
    ensures r.c.keepPayloads == c.keepPayloads && r.c.resyncs == c.resyncs
  {
    match ParseHeader(w.avail)
    case None => Stop(c, w)
    case Some(h) =>
      if !c.WantsPayload(h) then
        Go(c.(discard := h.len, frames := c.frames + 1), w.Consume(FRAME_HEADER_LEN),
           [ProcessedFrame(h, [], w.off, w.NextSeq(), None, h.IsHeaderFrame(), true, None)])
      else if |w.avail| < h.TotalLen() then Stop(c, w)
      else
        var (c', f) := c.(frames := c.frames + 1).HandleFrame(cb, h, w.avail[FRAME_HEADER_LEN..h.TotalLen()], w);
        Go(c', w.Consume(h.TotalLen()), [f])
  }

  /** One turn of the loop in `parse`. */
  function ParseStep(cb: Codebook, c: Core, w: Window): Step {
    if c.discard > 0 then DiscardStep(c, w)
    else if c.pendingStartSeq.Some? then SeekStep(c, w, c.pendingStartSeq.value)
    else if c.desynced then
      var (c', w', found) := TryResync(c, w);
      if found then Go(c', w', []) else Stop(c', w')
    else if c.expectPreface then PrefaceStep(c, w)
    else FrameStep(cb, c, w)
  }

  lemma FrameStepProgress(cb: Codebook, c: Core, w: Window)
    ensures Progress(c, w, FrameStep(cb, c, w))
  {
    hide Core.HandleFrame;
  }

  lemma StepProgress(cb: Codebook, c: Core, w: Window)
    ensures Progress(c, w, ParseStep(cb, c, w))
  {
    hide FrameStep, Scan, SignedDiff;
    if c.discard > 0 {
    } else if c.pendingStartSeq.Some? {
    } else if c.desynced {
    } else if c.expectPreface {
    } else {
      FrameStepProgress(cb, c, w);
    }
  }

  function Parse(cb: Codebook, c: Core, w: Window): (Core, Window, seq<ProcessedFrame>)
    decreases |w.avail|, Rank(c)
  {
    StepProgress(cb, c, w);
    match ParseStep(cb, c, w)
    case Stop(c', w') => (c', w', [])
    case Go(c', w', out) =>
      var (c'', w'', out') := Parse(cb, c', w');
      (c'', w'', out + out')
  }

  // ----- a direction: core and reassembler together ------------------------------------

  datatype DirState = DirState(c: Core, r: ReasmState) {
    function Parsed(cb: Codebook): (DirState, seq<ProcessedFrame>) {
      var (c', w', out) := Parse(cb, c, r.win);
      (DirState(c', r.(win := w')), out)
    }

    function Feed(cb: Codebook, seq_: u32, data: seq<byte>, now: nat): (DirState, seq<ProcessedFrame>) {
      var (r', gap) := r.Push(seq_, data, now);
      DirState(if gap then c.OnGap() else c, r').Parsed(cb)
    }

    function Tick(cb: Codebook, now: nat): (DirState, seq<ProcessedFrame>) {
      var (r', gap) := r.CheckTimeout(now);
      if gap then DirState(c.OnGap(), r').Parsed(cb) else (this, [])
    }
  }
}
