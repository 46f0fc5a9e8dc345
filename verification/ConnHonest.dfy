/** Never a wrong header, at the level of a direction: beside our parser, the peer reading the
    same bytes with its full table and its own open block. */
module ConnHonest {
  import opened Basics
  import opened HpackInt
  import opened HpackTable
  import HpackSpec
  import opened HpackReference
  import opened HpackNeverWrong
  import opened HpackExact
  import opened ReassemblySpec
  import opened Frame
  import opened ConnSpec
  import opened ConnSegmentation
  import opened ConnTwins
  import opened ConnLifted

  // ----- the peer ---------------------------------------------------------------------------

  /** A conforming reader of the same direction: its table, and the block it is collecting. */
  datatype PeerDir = PeerDir(peer: Peer, open: Option<FrameHeader>, block: seq<byte>)

  /** After a fragment: the block is complete, or goes on. */
  function Collect(cb: Codebook, q: PeerDir, h: FrameHeader): Option<(PeerDir, Option<seq<Field>>)> {
    if !h.Has(END_HEADERS) then Some((q, None))
    else match q.peer.Decode(cb, q.block)
      case None => None
      case Some((p, fields)) => Some((PeerDir(p, None, []), Some(fields)))
  }

  /** One frame, and the header list it completes; `None` if no conforming peer sends it. */
  function PeerFrame(cb: Codebook, q: PeerDir, h: FrameHeader, payload: seq<byte>): Option<(PeerDir, Option<seq<Field>>)> {
    if h.typ == HEADERS || h.typ == PUSH_PROMISE then
      if q.open.Some? then None
      else match HeaderBlockFragment(h, payload)
        case None => None
        case Some(frag) => Collect(cb, PeerDir(q.peer, Some(h), frag), h)
    else if h.typ == CONTINUATION then
      if q.open.None? then None else Collect(cb, q.(block := q.block + payload), h)
    else Some((q, None))
  }

  /** All whole frames at the front of `b`: the header lists completed, and the bytes left. */
  function PeerReads(cb: Codebook, q: PeerDir, b: seq<byte>): Option<(PeerDir, seq<byte>, seq<seq<Field>>)>
    decreases |b|
  {
    if |b| < FRAME_HEADER_LEN || |b| < HeaderOf(b).TotalLen() then Some((q, b, []))
    else
      var n := HeaderOf(b).TotalLen();
      match PeerFrame(cb, q, HeaderOf(b), b[FRAME_HEADER_LEN..n])
      case None => None
      case Some((q', done)) =>
        match PeerReads(cb, q', b[n..])
        case None => None
        case Some((q'', tail, lists)) => Some((q'', tail, (if done.Some? then [done.value] else []) + lists))
  }

  /** The guard: no frame that carries part of a header block is too long to buffer. */
  predicate SmallHeaders(b: seq<byte>)
    decreases |b|
  {
    |b| >= FRAME_HEADER_LEN ==>
      var h := HeaderOf(b);
      (h.IsHeaderFrame() ==> h.len <= MAX_BUFFERED_FRAME) && (|b| >= h.TotalLen() ==> SmallHeaders(b[h.TotalLen()..]))
  }

  // ----- how the two are tied -----------------------------------------------------------------

  /** The tables agree on every index both hold; strictly, ours is exact and holds all of theirs. */
  predicate TableTie(d: HpackSpec.DecState, p: Peer, strict: bool) {
    if strict then Coupled(d, p, false) && d.IsExact()
    else Agree(d.table, p.table) && (d.overLimit ==> d.table == [])
  }

  /** The same block is open on both sides, and the tables are tied. */
  predicate Tied(c: Core, q: PeerDir, strict: bool) {
    c.blockHdr == q.open && c.block == q.block && (q.open.None? ==> q.block == []) && TableTie(c.dec, q.peer, strict)
  }

  /** What we show for a header list of the peer's: nothing if it would not decode, or a list of
      the same length, every field the peer's or flagged unknown; strictly, the same list,
      marked exact. */
  predicate Right(shown: Option<DecodedBlock>, theirs: seq<Field>, strict: bool) {
    match shown
    case None => !strict
    case Some(b) => if strict then b.fields == theirs && b.exact else FieldsAgree(b.fields, theirs)
  }

  /** What is shown for the frames that complete a block. */
  function Completed(fs: seq<ProcessedFrame>): seq<Option<DecodedBlock>> {
    if fs == [] then []
    else (if fs[0].isHeaderFrame && fs[0].hdr.Has(END_HEADERS) then [fs[0].decoded] else []) + Completed(fs[1..])
  }

  predicate AllRight(shown: seq<Option<DecodedBlock>>, theirs: seq<seq<Field>>, strict: bool) {
    |shown| == |theirs| && forall i :: 0 <= i < |shown| ==> Right(shown[i], theirs[i], strict)
  }

  /** The parser is between frames or throwing a payload away, and `tail` is what the peer has
      yet to make a whole frame of. */
  predicate Mirrors(c: Core, w: Window, tail: seq<byte>) {
    && c.pendingStartSeq.None? && !c.desynced && !c.expectPreface
    && if c.discard == 0 then w.avail == tail
       else w.avail == [] && |tail| >= FRAME_HEADER_LEN && !HeaderOf(tail).IsHeaderFrame()
            && |tail| < HeaderOf(tail).TotalLen() && c.discard == HeaderOf(tail).TotalLen() - |tail|
  }

  // ----- one block, one frame --------------------------------------------------------------------

  lemma DecodeTie(cb: Codebook, d: HpackSpec.DecState, p: Peer, b: seq<byte>, strict: bool)
    requires TableTie(d, p, strict) && p.Decode(cb, b).Some?
    requires strict ==> !HpackSpec.Decode(cb, d, b).0.overLimit
    ensures var (p', theirs) := p.Decode(cb, b).value;
            var (d', r) := HpackSpec.Decode(cb, d, b);
            match r
            case Err(_) => !strict && TableTie(d'.ResetPartial(), p', false)
            case Ok(ours) =>
              TableTie(d', p', strict)
              && if strict then ours == theirs && d'.unresolved == d.unresolved else FieldsAgree(ours, theirs)
  {
    hide HpackSpec.Decode, Peer.Decode, Coupled;
    if strict {
      ExactBlock(cb, d, p, b, false);
    } else {
      NeverWrongBlock(cb, d, p, b);
    }
  }

  lemma FinishTie(cb: Codebook, c: Core, q: PeerDir, h: FrameHeader, strict: bool)
    requires Tied(c, q, strict) && q.open.Some? && h.Has(END_HEADERS) && Collect(cb, q, h).Some?
    requires strict ==> !c.FinishBlock(cb).0.dec.overLimit
    ensures var (c', shown) := c.FinishBlock(cb);
            var (q', done) := Collect(cb, q, h).value;
            && Tied(c', q', strict) && done.Some? && Right(shown, done.value, strict) && SameCourse(c, c')
  {
    DecodeTie(cb, c.dec, q.peer, c.block, strict) by {
      if strict { SettleKeepsLimit(c, c.blockHdr.value, HpackSpec.Decode(cb, c.dec, c.block).0, HpackSpec.Decode(cb, c.dec, c.block).1); }
    }
    hide HpackSpec.Decode, Peer.Decode, StreamsAfter, KindOf, TableTie, FieldsAgree;
    if strict { TieIsExact(HpackSpec.Decode(cb, c.dec, c.block).0, Collect(cb, q, h).value.0.peer); }
  }

  lemma TieIsExact(d: HpackSpec.DecState, p: Peer)
    ensures TableTie(d, p, true) ==> d.IsExact()
  {
  }

  /** Nothing but the block and the decoder changes. */
  predicate SameCourse(c: Core, c': Core) {
    && c'.discard == c.discard && c'.pendingStartSeq == c.pendingStartSeq && c'.desynced == c.desynced
    && c'.expectPreface == c.expectPreface && c'.keepPayloads == c.keepPayloads
  }

  lemma FrameTie(cb: Codebook, c: Core, q: PeerDir, h: FrameHeader, payload: seq<byte>, w: Window, strict: bool)
    requires Tied(c, q, strict) && PeerFrame(cb, q, h, payload).Some?
    requires strict ==> !c.HandleFrame(cb, h, payload, w).0.dec.overLimit
    ensures var (c', f) := c.HandleFrame(cb, h, payload, w);
            var (q', done) := PeerFrame(cb, q, h, payload).value;
            && Tied(c', q', strict) && SameCourse(c, c') && f.hdr == h && f.isHeaderFrame == h.IsHeaderFrame()
            && (done.Some? <==> h.IsHeaderFrame() && h.Has(END_HEADERS))
            && (done.Some? ==> Right(f.decoded, done.value, strict))
  {
    hide Core.FinishBlock, HeaderBlockFragment, PromisedId, SettingsTableSize, TableTie, Right, Window.NextSeq, Peer.Decode;
    if h.typ == HEADERS || h.typ == PUSH_PROMISE {
      var frag := HeaderBlockFragment(h, payload).value;
      var begun := c.Prepare(h, payload).(block := c.block + frag, blockHdr := Some(h));
      assert [] + frag == frag;
      if h.Has(END_HEADERS) { FinishTie(cb, begun, PeerDir(q.peer, Some(h), frag), h, strict); }
    } else if h.typ == CONTINUATION {
      if h.Has(END_HEADERS) { FinishTie(cb, c.(block := c.block + payload), q.(block := q.block + payload), h, strict); }
    }
  }

  // ----- a parse -----------------------------------------------------------------------------------

  lemma CompletedOne(f: ProcessedFrame, rest: seq<ProcessedFrame>)
    ensures Completed([f] + rest)
         == (if f.isHeaderFrame && f.hdr.Has(END_HEADERS) then [f.decoded] else []) + Completed(rest)
  {
    assert ([f] + rest)[1..] == rest;
  }

  lemma {:induction false} CompletedConcat(a: seq<ProcessedFrame>, b: seq<ProcessedFrame>)
    ensures Completed(a + b) == Completed(a) + Completed(b)
  {
    if a == [] {
      assert a + b == b;
    } else {
      assert (a + b)[1..] == a[1..] + b;
      CompletedConcat(a[1..], b);
    }
  }

  lemma AllRightConcat(a: seq<Option<DecodedBlock>>, b: seq<Option<DecodedBlock>>, x: seq<seq<Field>>, y: seq<seq<Field>>, strict: bool)
    requires AllRight(a, x, strict) && AllRight(b, y, strict)
    ensures AllRight(a + b, x + y, strict)
  {
    hide Right;
  }

  lemma OneRight(shown: Option<DecodedBlock>, theirs: seq<Field>, strict: bool)
    requires Right(shown, theirs, strict)
    ensures AllRight([shown], [theirs], strict)
  {
  }

  /** The outcome of both readings, tied again. */
  predicate Outcome(c: Core, w: Window, out: seq<ProcessedFrame>, q: PeerDir, tail: seq<byte>, lists: seq<seq<Field>>, strict: bool) {
    Tied(c, q, strict) && Mirrors(c, w, tail) && AllRight(Completed(out), lists, strict)
  }

  /** A frame both take whole. */
  lemma WholeFrame(cb: Codebook, c: Core, q: PeerDir, w: Window, strict: bool) returns (c': Core, f: ProcessedFrame)
    requires AtFrame(c) && Tied(c, q, strict) && |w.avail| >= FRAME_HEADER_LEN
    requires var h := HeaderOf(w.avail);
             && (h.IsHeaderFrame() ==> h.len <= MAX_BUFFERED_FRAME) && |w.avail| >= h.TotalLen()
             && PeerFrame(cb, q, h, w.avail[FRAME_HEADER_LEN..h.TotalLen()]).Some?
    requires strict ==> !Parse(cb, c, w).0.dec.overLimit
    ensures var h := HeaderOf(w.avail);
            var (q', done) := PeerFrame(cb, q, h, w.avail[FRAME_HEADER_LEN..h.TotalLen()]).value;
            var (c2, w2, out) := Parse(cb, c', w.Consume(h.TotalLen()));
            && AtFrame(c') && Tied(c', q', strict) && Parse(cb, c, w) == (c2, w2, [f] + out)
            && (done.Some? <==> f.isHeaderFrame && f.hdr.Has(END_HEADERS)) && (done.Some? ==> Right(f.decoded, done.value, strict))
  {
    hide Core.HandleFrame, Window.NextSeq, Window.Consume, Tied, Right, Parse, PeerFrame, ParseHeader, FrameHeader.IsHeaderFrame;
    var h := HeaderOf(w.avail);
    TieCounts(c, q, strict);
    if c.WantsPayload(h) {
      c', f := TakenFrame(cb, c, w);
      ParseSticks(cb, c', w.Consume(h.TotalLen()));
      FrameTie(cb, c.(frames := c.frames + 1), q, h, w.avail[FRAME_HEADER_LEN..h.TotalLen()], w, strict);
    } else {
      c', f := c.(frames := c.frames + 1), Dropped(h, w);
      SkippedFrame(cb, c, w);
      OtherFrame(cb, q, h, w.avail[FRAME_HEADER_LEN..h.TotalLen()]);
    }
  }

  lemma OtherFrame(cb: Codebook, q: PeerDir, h: FrameHeader, payload: seq<byte>)
    requires !h.IsHeaderFrame()
    ensures PeerFrame(cb, q, h, payload) == Some((q, None))
  {
  }

  lemma TieCounts(c: Core, q: PeerDir, strict: bool)
    requires Tied(c, q, strict)
    ensures Tied(c.(frames := c.frames + 1), q, strict)
  {
  }

  /** A frame still arriving: wait, or announce it and throw away what there is. */
  lemma PartialFrame(cb: Codebook, c: Core, q: PeerDir, w: Window, strict: bool)
    requires AtFrame(c) && Tied(c, q, strict)
    requires |w.avail| >= FRAME_HEADER_LEN ==>
               var h := HeaderOf(w.avail);
               (h.IsHeaderFrame() ==> h.len <= MAX_BUFFERED_FRAME) && |w.avail| < h.TotalLen()
    ensures var (c', w', out) := Parse(cb, c, w); Outcome(c', w', out, q, w.avail, [], strict)
  {
    hide Core.HandleFrame, Window.NextSeq, TableTie, Parse;
    ParseOf(cb, c, w);
    if |w.avail| >= FRAME_HEADER_LEN && !c.WantsPayload(HeaderOf(w.avail)) {
      var h := HeaderOf(w.avail);
      var c1, w1 := c.(frames := c.frames + 1, discard := h.len), w.Consume(FRAME_HEADER_LEN);
      assert ParseStep(cb, c, w) == Go(c1, w1, [Dropped(h, w)]);
      hide ParseStep, FrameStep;
      DiscardRun(cb, c1, w1);
      CompletedOne(Dropped(h, w), []);
    } else {
      assert ParseStep(cb, c, w) == Stop(c, w);
    }
  }

  /** From a true boundary, on bytes a conforming peer sends, every header block is shown right,
      or not at all, and the parser never loses its place. */
  lemma {:induction false} ParseTie(cb: Codebook, c: Core, q: PeerDir, w: Window, strict: bool)
    requires AtFrame(c) && Tied(c, q, strict) && SmallHeaders(w.avail) && PeerReads(cb, q, w.avail).Some?
    requires strict ==> !Parse(cb, c, w).0.dec.overLimit
    ensures var (c', w', out) := Parse(cb, c, w);
            var (q', tail, lists) := PeerReads(cb, q, w.avail).value;
            Outcome(c', w', out, q', tail, lists, strict)
    decreases |w.avail|
  {
    hide Parse, Tied, Right, PeerFrame, Outcome, AtFrame;
    if |w.avail| >= FRAME_HEADER_LEN && |w.avail| >= HeaderOf(w.avail).TotalLen() {
      var h := HeaderOf(w.avail);
      var n := h.TotalLen();
      var (q1, done) := PeerFrame(cb, q, h, w.avail[FRAME_HEADER_LEN..n]).value;
      var c1, f := WholeFrame(cb, c, q, w, strict);
      ParseTie(cb, c1, q1, w.Consume(n), strict);
      var (c', w', out) := Parse(cb, c1, w.Consume(n));
      var (q', tail, lists) := PeerReads(cb, q1, w.avail[n..]).value;
      Prepend(c', w', f, out, q', tail, done, lists, strict);
    } else {
      PartialFrame(cb, c, q, w, strict);
    }
  }

  lemma Prepend(c: Core, w: Window, f: ProcessedFrame, out: seq<ProcessedFrame>, q: PeerDir, tail: seq<byte>,
                done: Option<seq<Field>>, lists: seq<seq<Field>>, strict: bool)
    requires Outcome(c, w, out, q, tail, lists, strict)
    requires done.Some? <==> f.isHeaderFrame && f.hdr.Has(END_HEADERS)
    requires done.Some? ==> Right(f.decoded, done.value, strict)
    ensures Outcome(c, w, [f] + out, q, tail, (if done.Some? then [done.value] else []) + lists, strict)
  {
    hide Tied, Mirrors, Right;
    CompletedOne(f, out);
    if done.Some? {
      OneRight(f.decoded, done.value, strict);
      AllRightConcat([f.decoded], Completed(out), [done.value], lists, strict);
    } else {
      assert [] + Completed(out) == Completed(out) && [] + lists == lists;
    }
  }

  // ----- the next bytes ------------------------------------------------------------------------------

  lemma HeaderStays(t: seq<byte>, b: seq<byte>)
    requires |t| >= FRAME_HEADER_LEN
    ensures HeaderOf(t + b) == HeaderOf(t)
  {
    Be32Append(t, b, 5);
  }

  /** However the bytes are cut: the next piece, on both sides. */
  lemma PieceTie(cb: Codebook, c: Core, w: Window, q: PeerDir, tail: seq<byte>, b: seq<byte>, strict: bool)
    requires Tied(c, q, strict) && Mirrors(c, w, tail)
    requires SmallHeaders(tail + b) && PeerReads(cb, q, tail + b).Some?
    requires strict ==> !Parse(cb, c, w.Append(b)).0.dec.overLimit
    ensures var (c', w', out) := Parse(cb, c, w.Append(b));
            var (q', tail', lists) := PeerReads(cb, q, tail + b).value;
            Outcome(c', w', out, q', tail', lists, strict)
  {
    hide Parse, Tied, AllRight;
    if c.discard == 0 {
      ParseTie(cb, c, q, w.Append(b), strict);
    } else {
      HeaderStays(tail, b);
      var h := HeaderOf(tail);
      var n, all := h.TotalLen(), tail + b;
      assert w.Append(b).avail == b;
      DiscardRun(cb, c, w.Append(b));
      DiscardTie(c, q, strict);
      if |b| < c.discard {
        NothingShown(strict);
      } else {
        var c1, w1 := c.(discard := 0), w.Append(b).Consume(c.discard);
        assert w1.avail == all[n..];
        ParseTie(cb, c1, q, w1, strict);
        var r := PeerReads(cb, q, all[n..]).value;
        assert [] + r.2 == r.2;
      }
    }
  }

  lemma NothingShown(strict: bool)
    ensures Completed([]) == [] && AllRight([], [], strict)
  {
  }

  lemma DiscardTie(c: Core, q: PeerDir, strict: bool)
    requires Tied(c, q, strict)
    ensures forall k: nat :: Tied(c.(discard := k), q, strict)
  {
  }

  // ----- after a loss ----------------------------------------------------------------------------------

  /** Resync adopts offset `k`, where the peer is between blocks as `q` says, and both read on. */
  lemma RegainTie(cb: Codebook, c: Core, w: Window, k: nat, q: PeerDir)
    requires c.pendingStartSeq.None? && !c.expectPreface && Adopts(w, k) && q.open.None? && q.block == []
    requires SmallHeaders(w.avail[k..]) && PeerReads(cb, q, w.avail[k..]).Some?
    ensures var (c', w', out) := Parse(cb, c.OnGap(), w);
            var (q', tail, lists) := PeerReads(cb, q, w.avail[k..]).value;
            Outcome(c', w', out, q', tail, lists, false)
  {
    hide Parse, Outcome;
    var c1, w1 := c.OnGap().(desynced := false, resyncs := c.resyncs + 1), w.Consume(k);
    assert TryResync(c.OnGap(), w) == (c1, w1, true);
    assert ParseStep(cb, c.OnGap(), w) == Go(c1, w1, []);
    hide ParseStep, Scan;
    ParseOf(cb, c.OnGap(), w);
    ParseTie(cb, c1, q, w1, false);
    var r := Parse(cb, c1, w1);
    assert [] + r.2 == r.2;
  }

  /** The scan stops at `k` with enough frames behind it. */
  predicate Adopts(w: Window, k: nat) {
    k <= |w.avail| && Scan(w.avail, 0) == Some((k, ChainOk))
  }

  // ----- whole runs ------------------------------------------------------------------------------------

  /** Our direction and the peer's, and the bytes the peer has no whole frame of yet. */
  datatype Both = Both(c: Core, w: Window, q: PeerDir, tail: seq<byte>)

  /** What happens to a direction: bytes in order, however cut; capacities applied by either side;
      a new memory limit; or a loss, after which the boundary is found again at `k` of the bytes
      then at hand, where the peer is as `q` says. */
  datatype Event =
    | Bytes(b: seq<byte>)
    | Capacity(ours: Option<nat>, peers: Option<nat>)
    | Limit(n: nat)
    | Loss(w: Window, k: nat, q: PeerDir)

  /** The guards: frames that carry header blocks are short enough to buffer, a boundary found
      again is one of the peer's, between blocks; strictly, no loss, the table within our
      limit, and the capacities agree. */
  predicate Guarded(cb: Codebook, s: Both, e: Event, strict: bool) {
    match e
    case Bytes(b) => SmallHeaders(s.tail + b) && (strict ==> !Parse(cb, s.c, s.w.Append(b)).0.dec.overLimit)
    case Capacity(o, p) =>
      strict ==>
        var d := ApplyOptional(s.c.dec, o);
        !d.overLimit && d.maxSize == if p.Some? then p.value else s.q.peer.maxSize
    case Limit(n) => strict ==> s.c.dec.maxSize <= n
    case Loss(w, k, q) => !strict && Adopts(w, k) && q.open.None? && q.block == [] && SmallHeaders(w.avail[k..])
  }

  /** One event on both sides, with what is shown and what the peer completed; `None` if no
      conforming peer sends such bytes. */
  function Next(cb: Codebook, s: Both, e: Event): Option<(Both, seq<Option<DecodedBlock>>, seq<seq<Field>>)> {
    match e
    case Bytes(b) =>
      (match PeerReads(cb, s.q, s.tail + b)
       case None => None
       case Some((q, tail, lists)) =>
         var (c, w, out) := Parse(cb, s.c, s.w.Append(b));
         Some((Both(c, w, q, tail), Completed(out), lists)))
    case Capacity(o, p) =>
      Some((s.(c := s.c.(dec := ApplyOptional(s.c.dec, o)),
               q := if p.Some? then s.q.(peer := s.q.peer.Resize(p.value)) else s.q), [], []))
    case Limit(n) => Some((s.(c := s.c.SetTableTrackLimit(n)), [], []))
    case Loss(w, k, q) =>
      if k > |w.avail| then None
      else match PeerReads(cb, q, w.avail[k..])
        case None => None
        case Some((q', tail, lists)) =>
          var (c', w', out) := Parse(cb, s.c.OnGap(), w);
          Some((Both(c', w', q', tail), Completed(out), lists))
  }

  predicate GuardedRun(cb: Codebook, s: Both, events: seq<Event>, strict: bool)
    decreases |events|
  {
    events == [] ||
    (Guarded(cb, s, events[0], strict) && Next(cb, s, events[0]).Some?
     && GuardedRun(cb, Next(cb, s, events[0]).value.0, events[1..], strict))
  }

  function Run(cb: Codebook, s: Both, events: seq<Event>): (Both, seq<Option<DecodedBlock>>, seq<seq<Field>>)
    decreases |events|
  {
    if events == [] || Next(cb, s, events[0]).None? then (s, [], [])
    else
      var (s1, shown1, lists1) := Next(cb, s, events[0]).value;
      var (s2, shown2, lists2) := Run(cb, s1, events[1..]);
      (s2, shown1 + shown2, lists1 + lists2)
  }

  predicate Sound(s: Both, strict: bool) {
    Tied(s.c, s.q, strict) && Mirrors(s.c, s.w, s.tail)
  }

  lemma CapacityTie(d: HpackSpec.DecState, p: Peer, o: Option<nat>, n: Option<nat>, strict: bool)
    requires TableTie(d, p, strict)
    requires strict ==> !ApplyOptional(d, o).overLimit && ApplyOptional(d, o).maxSize == if n.Some? then n.value else p.maxSize
    ensures TableTie(ApplyOptional(d, o), if n.Some? then p.Resize(n.value) else p, strict)
  {
    if strict {
      FitAll(p.table, p.maxSize);
      var m := if n.Some? then n.value else p.maxSize;
      CapacityCoupled(d, p, o, m, false);
      assert p.Resize(p.maxSize) == p;
      if o.Some? && o.value < d.maxSize { ResizeCoupled(d, p, m, false); }
    }
  }

  lemma LimitTie(d: HpackSpec.DecState, p: Peer, n: nat, strict: bool)
    requires TableTie(d, p, strict) && (strict ==> d.maxSize <= n)
    ensures TableTie(d.SetTrackLimit(n), p, strict)
  {
  }

  lemma NextTie(cb: Codebook, s: Both, e: Event, strict: bool)
    requires Sound(s, strict) && Guarded(cb, s, e, strict) && Next(cb, s, e).Some?
    ensures var (s', shown, lists) := Next(cb, s, e).value;
            Sound(s', strict) && AllRight(shown, lists, strict)
  {
    hide Parse, TableTie, AllRight, ApplyOptional, HpackSpec.DecState.SetTrackLimit, Adopts, SmallHeaders, PeerReads, Right;
    NothingShown(strict);
    match e
    case Bytes(b) => PieceTie(cb, s.c, s.w, s.q, s.tail, b, strict);
    case Capacity(o, p) => CapacityTie(s.c.dec, s.q.peer, o, p, strict);
    case Limit(n) => LimitTie(s.c.dec, s.q.peer, n, strict);
    case Loss(w, k, q) => RegainTie(cb, s.c, w, k, q);
  }

  /** Never a wrong header, for a direction: over every guarded run of bytes, capacities, limits and
      losses, for each header list the peer completes we show nothing, or a list of the same
      length in which every field is the peer's or flagged unknown. Strictly, for an exact
      direction, the same list, marked exact. */
  lemma {:induction false} NeverWrongAlong(cb: Codebook, s: Both, events: seq<Event>, strict: bool)
    requires Sound(s, strict) && GuardedRun(cb, s, events, strict)
    ensures var (s', shown, lists) := Run(cb, s, events);
            Sound(s', strict) && AllRight(shown, lists, strict)
    decreases |events|
  {
    hide Sound, Guarded, Next, AllRight;
    if events == [] {
      NothingShown(strict);
    } else {
      NextTie(cb, s, events[0], strict);
      var (s1, shown1, lists1) := Next(cb, s, events[0]).value;
      NeverWrongAlong(cb, s1, events[1..], strict);
      var (s2, shown2, lists2) := Run(cb, s1, events[1..]);
      AllRightConcat(shown1, shown2, lists1, lists2, strict);
    }
  }

  /** A direction from its first byte, the preface behind it if there is one, against a peer
      with an empty table. */
  function FromStart(keepPayloads: bool, w: Window): Both {
    Both(FromConnectionStart(keepPayloads, false), w, PeerDir(Peer([], DEFAULT_TABLE_SIZE), None, []), [])
  }

  /** A direction joined midway that has found a boundary of the peer's, between blocks. */
  function FromBoundary(keepPayloads: bool, limit: nat, w: Window, p: Peer): Both {
    Both(JoinedMidstream(keepPayloads).SetTableTrackLimit(limit).(desynced := false), w, PeerDir(p, None, []), [])
  }

  lemma Starts(keepPayloads: bool, limit: nat, w: Window, p: Peer)
    requires w.avail == []
    ensures Sound(FromStart(keepPayloads, w), true) && Sound(FromStart(keepPayloads, w), false)
    ensures Sound(FromBoundary(keepPayloads, limit, w, p), false)
  {
    FitAll([], DEFAULT_TABLE_SIZE);
  }

  /** The headline: from the first byte or from a boundary found midway, over every guarded run,
      what is shown for each of the peer's header lists is right. */
  lemma NeverAWrongHeaderShown(cb: Codebook, keepPayloads: bool, limit: nat, w: Window, p: Peer, events: seq<Event>)
    requires w.avail == []
    ensures GuardedRun(cb, FromStart(keepPayloads, w), events, false) ==>
              var (_, shown, lists) := Run(cb, FromStart(keepPayloads, w), events); AllRight(shown, lists, false)
    ensures GuardedRun(cb, FromStart(keepPayloads, w), events, true) ==>
              var (_, shown, lists) := Run(cb, FromStart(keepPayloads, w), events); AllRight(shown, lists, true)
    ensures GuardedRun(cb, FromBoundary(keepPayloads, limit, w, p), events, false) ==>
              var (_, shown, lists) := Run(cb, FromBoundary(keepPayloads, limit, w, p), events); AllRight(shown, lists, false)
  {
    hide GuardedRun, Run, AllRight, Sound, FromStart, FromBoundary;
    Starts(keepPayloads, limit, w, p);
    var s, m := FromStart(keepPayloads, w), FromBoundary(keepPayloads, limit, w, p);
    if GuardedRun(cb, s, events, false) { NeverWrongAlong(cb, s, events, false); }
    if GuardedRun(cb, s, events, true) { NeverWrongAlong(cb, s, events, true); }
    if GuardedRun(cb, m, events, false) { NeverWrongAlong(cb, m, events, false); }
  }
}
