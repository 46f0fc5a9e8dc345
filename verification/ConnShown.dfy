/** What the marks of a decoded block say: when it claims to be exact, how many references it
    could not follow, and whether it opens a stream or closes it with trailers. */
module ConnShown {
  import opened Basics
  import opened HpackInt
  import opened HpackTable
  import HpackSpec
  import opened HpackReference
  import opened HpackNeverWrong
  import opened HpackUnresolved
  import opened ReassemblySpec
  import opened Frame
  import opened FrameWire
  import opened ConnSpec
  import opened ConnSegmentation
  import opened ConnTwins
  import H = ConnHandoff

  // ----- exact, and unresolved ----------------------------------------------------------------

  /** The marks of a block shown: its frame's stream and end, the number of references it could
      not follow, and exactness, which claims that there were none and that the table behind it
      is complete. */
  lemma MarksAre(cb: Codebook, c: Core)
    requires c.blockHdr.Some? && c.FinishBlock(cb).1.Some?
    ensures var (c', shown) := c.FinishBlock(cb);
            var h, b := c.blockHdr.value, shown.value;
            && b.streamId == h.streamId && (b.endStream <==> h.Has(END_STREAM)) && b.promised == c.blockPromised
            && b.unresolved == Misses(cb, c.dec, c.block)
            && (b.exact <==> c'.dec.IsExact() && Misses(cb, c.dec, c.block) == 0)
  {
    hide HpackSpec.Decode, Misses, StreamsAfter, KindOf, Bit;
    UnresolvedCounts(cb, c.dec, c.block);
  }

  /** A block shown as exact is the peer's, field for field, if the tables agreed before it and
      ours held nothing flagged; and that still holds after it. */
  lemma ExactIsRight(cb: Codebook, c: Core, p: Peer)
    requires c.blockHdr.Some? && c.FinishBlock(cb).1.Some? && c.FinishBlock(cb).1.value.exact
    requires Agree(c.dec.table, p.table) && Unflagged(c.dec.table) && (c.dec.overLimit ==> c.dec.table == [])
    requires p.Decode(cb, c.block).Some?
    ensures var (c', shown) := c.FinishBlock(cb);
            && shown.value.fields == p.Decode(cb, c.block).value.1
            && Unflagged(c'.dec.table) && Agree(c'.dec.table, p.Decode(cb, c.block).value.0.table)
  {
    MarksAre(cb, c);
    hide HpackSpec.Decode, Misses, StreamsAfter, KindOf, Peer.Decode, Agree, Unflagged, HpackSpec.DecState.IsExact;
    NoMissIsRight(cb, c.dec, p, c.block);
  }

  /** The promised stream of a block in one frame: a promise's own, read whatever its padding and
      reserved bit; and for a HEADERS frame none, unless it breaks into an open promise, whose id
      it then shows. */
  lemma PromisedMark(cb: Codebook, c: Core, h: FrameHeader, parts: Parts)
    requires |parts.padding| < 256 && h.Has(END_HEADERS) && (h.typ == HEADERS || h.typ == PUSH_PROMISE)
    requires c.OpenBlock(cb, h, WritePayload(h, parts)).1.Some?
    ensures var shown := c.OpenBlock(cb, h, WritePayload(h, parts)).1.value;
            shown.promised == if h.typ == PUSH_PROMISE then Some(parts.promised % TWO31) else c.blockPromised
    ensures h.typ == HEADERS && H.Sane(c) && c.blockHdr.None? ==> c.OpenBlock(cb, h, WritePayload(h, parts)).1.value.promised.None?
  {
    hide HpackSpec.Decode, HeaderBlockFragment, WritePayload, StreamsAfter, KindOf, Bit, PromisedId;
    FragmentRoundTrip(h, parts);
    if h.typ == PUSH_PROMISE { PromisedRoundTrip(h, parts); }
  }

  /** A header frame is shown, or leaves its block open, or costs all trust: the table is forgotten
      and no snapshot is usable. Nothing malformed, out of place or undecodable passes quietly. */
  lemma NotShownCostsTrust(cb: Codebook, c: Core, h: FrameHeader, payload: seq<byte>, w: Window)
    requires h.IsHeaderFrame()
    ensures var (c', f) := c.HandleFrame(cb, h, payload, w);
            || (h.Has(END_HEADERS) && f.decoded.Some? && c'.blockHdr.None?)
            || (!h.Has(END_HEADERS) && f.decoded.None? && c'.blockHdr.Some?)
            || (f.decoded.None? && c'.poisoned && c'.dec.table == [] && !c'.dec.exact && c'.blockHdr.None? && !c'.IsSnapshottable())
  {
    hide HpackSpec.Decode, HeaderBlockFragment, PromisedId, SettingsTableSize, StreamsAfter, KindOf, Bit, Window.NextSeq;
  }

  /** A frame that breaks into an open block starts a new one: nothing of the old block is left. */
  lemma OpenStartsAfresh(cb: Codebook, c: Core, h: FrameHeader, payload: seq<byte>)
    requires H.Sane(c)
    ensures c.OpenBlock(cb, h, payload) == c.(block := [], blockHdr := None).OpenBlock(cb, h, payload)
  {
    hide Core.FinishBlock, HeaderBlockFragment, PromisedId, Bit;
  }

  /** The preface is skipped where it stands, and costs nothing where it does not: either way the
      direction reads on as one that expects none, from behind it or from the first byte. */
  lemma PrefaceIsOptional(cb: Codebook, c: Core, w: Window)
    requires AtFrame(c.(expectPreface := false)) && c.expectPreface && |w.avail| >= |PREFACE|
    ensures Parse(cb, c, w) == Parse(cb, c.(expectPreface := false), if PREFACE <= w.avail then w.Consume(|PREFACE|) else w)
  {
    hide Parse;
    var c' := c.(expectPreface := false);
    var w' := if PREFACE <= w.avail then w.Consume(|PREFACE|) else w;
    assert ParseStep(cb, c, w) == Go(c', w', []);
    H.SilentStep(cb, c, w, c', w');
  }

  // ----- headers or trailers ---------------------------------------------------------------------

  /** The blocks shown, in order. */
  function Shown(fs: seq<ProcessedFrame>): seq<DecodedBlock> {
    if fs == [] then [] else (if fs[0].decoded.Some? then [fs[0].decoded.value] else []) + Shown(fs[1..])
  }

  predicate OnStream(b: DecodedBlock, s: u32) {
    b.streamId == s && !b.kind.PushPromise?
  }

  /** The last block of stream `s` was not its end. */
  ghost predicate LeftOpen(blocks: seq<DecodedBlock>, s: u32) {
    exists i :: 0 <= i < |blocks| && OnStream(blocks[i], s) && !blocks[i].endStream && NoneAfter(blocks, s, i)
  }

  predicate NoneAfter(blocks: seq<DecodedBlock>, s: u32, i: nat) {
    forall j :: i < j < |blocks| ==> !OnStream(blocks[j], s)
  }

  ghost function OpenSet(blocks: seq<DecodedBlock>): set<u32> {
    set b | b in blocks && LeftOpen(blocks, b.streamId) :: b.streamId
  }

  /** Never more streams left open than the code keeps track of. */
  ghost predicate FewOpen(blocks: seq<DecodedBlock>) {
    forall k :: 0 <= k <= |blocks| ==> |OpenSet(blocks[..k])| <= MAX_OPEN_STREAMS
  }

  /** The first block of a stream is its headers and a later one, until the stream's end, its trailers. */
  ghost predicate KindsRight(blocks: seq<DecodedBlock>) {
    forall k :: 0 <= k < |blocks| && !blocks[k].kind.PushPromise? ==> (blocks[k].kind.Trailers? <==> LeftOpen(blocks[..k], blocks[k].streamId))
  }

  ghost predicate Knows(c: Core, blocks: seq<DecodedBlock>) {
    forall s: u32 :: s in c.openStreams <==> LeftOpen(blocks, s)
  }

  ghost predicate SoFar(c: Core, blocks: seq<DecodedBlock>) {
    Knows(c, blocks) && KindsRight(blocks)
  }

  lemma OneMoreOpen(blocks: seq<DecodedBlock>, b: DecodedBlock, s: u32)
    ensures LeftOpen(blocks + [b], s) <==> if OnStream(b, s) then !b.endStream else LeftOpen(blocks, s)
  {
    var all, n := blocks + [b], |blocks|;
    if OnStream(b, s) {
      assert all[n] == b;
      if !b.endStream { assert NoneAfter(all, s, n); }
    } else {
      if LeftOpen(blocks, s) {
        var i :| 0 <= i < n && OnStream(blocks[i], s) && !blocks[i].endStream && NoneAfter(blocks, s, i);
        assert all[i] == blocks[i] && NoneAfter(all, s, i);
      }
      if LeftOpen(all, s) {
        var i :| 0 <= i <= n && OnStream(all[i], s) && !all[i].endStream && NoneAfter(all, s, i);
        assert forall j :: i < j < n ==> blocks[j] == all[j];
        assert NoneAfter(blocks, s, i);
      }
    }
  }

  lemma KnownSet(c: Core, blocks: seq<DecodedBlock>)
    requires Knows(c, blocks)
    ensures c.openStreams == OpenSet(blocks)
  {
    forall s: u32 | LeftOpen(blocks, s) ensures s in OpenSet(blocks) {
      var i :| 0 <= i < |blocks| && OnStream(blocks[i], s) && !blocks[i].endStream && NoneAfter(blocks, s, i);
      assert blocks[i] in blocks;
    }
  }

  lemma KindsOneMore(blocks: seq<DecodedBlock>, b: DecodedBlock)
    requires KindsRight(blocks)
    requires !b.kind.PushPromise? ==> (b.kind.Trailers? <==> LeftOpen(blocks, b.streamId))
    ensures KindsRight(blocks + [b])
  {
    hide LeftOpen;
    var all := blocks + [b];
    forall k | 0 <= k < |all| && !all[k].kind.PushPromise?
      ensures all[k].kind.Trailers? <==> LeftOpen(all[..k], all[k].streamId)
    {
      assert all[..k] == blocks[..k];
      assert k == |blocks| ==> blocks[..k] == blocks;
    }
  }

  /** One block, shown or not. */
  lemma FinishKinds(cb: Codebook, c: Core, blocks: seq<DecodedBlock>)
    requires SoFar(c, blocks) && |OpenSet(blocks)| <= MAX_OPEN_STREAMS
    ensures var (c', shown) := c.FinishBlock(cb);
            SoFar(c', blocks + if shown.Some? then [shown.value] else [])
  {
    hide HpackSpec.Decode, LeftOpen, KindsRight, OpenSet, Bit;
    var (c', shown) := c.FinishBlock(cb);
    if shown.None? {
      assert blocks + [] == blocks;
    } else {
      var b := shown.value;
      KnownSet(c, blocks);
      KindsOneMore(blocks, b);
      forall s: u32 ensures s in c'.openStreams <==> LeftOpen(blocks + [b], s) {
        OneMoreOpen(blocks, b, s);
      }
    }
  }

  lemma ShownOne(f: ProcessedFrame, fs: seq<ProcessedFrame>)
    ensures Shown([f]) == if f.decoded.Some? then [f.decoded.value] else []
    ensures Shown([f] + fs) == Shown([f]) + Shown(fs)
  {
    assert ([f] + fs)[1..] == fs;
    assert [f][1..] == [];
  }

  lemma SameStreams(c: Core, c': Core, blocks: seq<DecodedBlock>)
    requires SoFar(c, blocks) && c'.openStreams == c.openStreams
    ensures SoFar(c', blocks)
  {
  }

  lemma OpenKinds(cb: Codebook, c: Core, h: FrameHeader, payload: seq<byte>, blocks: seq<DecodedBlock>)
    requires SoFar(c, blocks) && |OpenSet(blocks)| <= MAX_OPEN_STREAMS
    ensures var (c', shown) := c.OpenBlock(cb, h, payload); SoFar(c', blocks + if shown.Some? then [shown.value] else [])
  {
    hide Core.FinishBlock, HeaderBlockFragment, PromisedId, SoFar, OpenSet, Bit;
    assert blocks + [] == blocks;
    var ready, frag := c.Prepare(h, payload), HeaderBlockFragment(h, payload);
    if frag.Some? {
      var begun := ready.(block := ready.block + frag.value, blockHdr := Some(h));
      SameStreams(c, begun, blocks);
      if h.Has(END_HEADERS) { FinishKinds(cb, begun, blocks); }
    } else {
      SameStreams(c, ready.MarkBadBlock(), blocks);
    }
  }

  lemma ContinueKinds(cb: Codebook, c: Core, h: FrameHeader, payload: seq<byte>, blocks: seq<DecodedBlock>)
    requires SoFar(c, blocks) && |OpenSet(blocks)| <= MAX_OPEN_STREAMS
    ensures var (c', shown) := c.ContinueBlock(cb, h, payload); SoFar(c', blocks + if shown.Some? then [shown.value] else [])
  {
    hide Core.FinishBlock, SoFar, OpenSet, Bit;
    assert blocks + [] == blocks;
    var longer := c.(block := c.block + payload);
    SameStreams(c, longer, blocks);
    SameStreams(c, c.MarkBadBlock(), blocks);
    if h.Has(END_HEADERS) { FinishKinds(cb, longer, blocks); }
  }

  lemma HandleKinds(cb: Codebook, c: Core, h: FrameHeader, payload: seq<byte>, w: Window, blocks: seq<DecodedBlock>)
    requires SoFar(c, blocks) && |OpenSet(blocks)| <= MAX_OPEN_STREAMS
    ensures var (c', f) := c.HandleFrame(cb, h, payload, w); SoFar(c', blocks + Shown([f]))
  {
    hide Core.OpenBlock, Core.ContinueBlock, SettingsTableSize, SoFar, OpenSet, Shown, Window.NextSeq;
    var (c', f) := c.HandleFrame(cb, h, payload, w);
    ShownOne(f, []);
    assert blocks + [] == blocks;
    if h.typ == HEADERS || h.typ == PUSH_PROMISE {
      OpenKinds(cb, c, h, payload, blocks);
    } else if h.typ == CONTINUATION {
      ContinueKinds(cb, c, h, payload, blocks);
    }
  }

  lemma StepKinds(cb: Codebook, c: Core, w: Window, blocks: seq<DecodedBlock>)
    requires SoFar(c, blocks) && |OpenSet(blocks)| <= MAX_OPEN_STREAMS
    ensures var r := ParseStep(cb, c, w); SoFar(r.c, blocks + if r.Go? then Shown(r.out) else [])
  {
    hide Core.HandleFrame, Scan, SoFar, OpenSet, Window.NextSeq, SignedDiff, Shown, Window.Consume;
    NoneShown();
    assert blocks + [] == blocks;
    var r := ParseStep(cb, c, w);
    if AtFrame(c) && r.Go? {
      var h := HeaderOf(w.avail);
      ShownOne(Dropped(h, w), []);
      var counted := c.(frames := c.frames + 1);
      SameStreams(c, counted, blocks);
      if c.WantsPayload(h) {
        HandleKinds(cb, counted, h, w.avail[FRAME_HEADER_LEN..h.TotalLen()], w, blocks);
      } else {
        SameStreams(c, r.c, blocks);
      }
    } else {
      SameStreams(c, r.c, blocks);
    }
  }

  lemma NoneShown()
    ensures Shown([]) == []
  {
  }

  lemma FewPrefix(a: seq<DecodedBlock>, b: seq<DecodedBlock>)
    requires FewOpen(a + b)
    ensures FewOpen(a) && |OpenSet(a)| <= MAX_OPEN_STREAMS
  {
    hide OpenSet;
    assert forall k :: 0 <= k <= |a| ==> (a + b)[..k] == a[..k];
    assert a[..|a|] == a;
  }

  lemma {:induction false} ShownConcat(a: seq<ProcessedFrame>, b: seq<ProcessedFrame>)
    ensures Shown(a + b) == Shown(a) + Shown(b)
  {
    hide Shown;
    NoneShown();
    if a == [] {
      assert a + b == b && [] + Shown(b) == Shown(b);
    } else {
      ShownConcat(a[1..], b);
      assert a == [a[0]] + a[1..] && a + b == [a[0]] + (a[1..] + b);
      ShownOne(a[0], a[1..]);
      ShownOne(a[0], a[1..] + b);
      Regroup(Shown([a[0]]), Shown(a[1..]), Shown(b));
    }
  }

  lemma Regroup(a: seq<DecodedBlock>, b: seq<DecodedBlock>, c: seq<DecodedBlock>)
    ensures a + (b + c) == a + b + c
  {
  }

  lemma {:induction false} ParseKinds(cb: Codebook, c: Core, w: Window, blocks: seq<DecodedBlock>)
    requires SoFar(c, blocks) && FewOpen(blocks + Shown(Parse(cb, c, w).2))
    ensures var (c', _, out) := Parse(cb, c, w); SoFar(c', blocks + Shown(out))
    decreases |w.avail|, Rank(c)
  {
    StepProgress(cb, c, w);
    FewPrefix(blocks, Shown(Parse(cb, c, w).2));
    StepKinds(cb, c, w, blocks);
    hide ParseStep, SoFar, FewOpen, OpenSet, Shown;
    match ParseStep(cb, c, w)
    case Stop(_, _) =>
      NoneShown();
    case Go(c', w', out) =>
      var out' := Parse(cb, c', w').2;
      ShownConcat(out, out');
      Regroup(blocks, Shown(out), Shown(out'));
      ParseKinds(cb, c', w', blocks + Shown(out));
  }

  // ----- whole runs ----------------------------------------------------------------------------------

  /** The frames one event brings out. */
  function FramesOf(cb: Codebook, s: DirState, e: H.Event): seq<ProcessedFrame> {
    match e
    case Segment(q, data, now) => s.Feed(cb, q, data, now).1
    case Tick(now) => s.Tick(cb, now).1
    case Syn(_) => []
    case PeerCapacity(_) => []
  }

  function AllFrames(cb: Codebook, s: DirState, events: seq<H.Event>): seq<ProcessedFrame>
    decreases |events|
  {
    if events == [] then [] else FramesOf(cb, s, events[0]) + AllFrames(cb, H.Deliver(cb, s, events[0]), events[1..])
  }

  lemma EventKinds(cb: Codebook, s: DirState, e: H.Event, blocks: seq<DecodedBlock>)
    requires SoFar(s.c, blocks) && FewOpen(blocks + Shown(FramesOf(cb, s, e)))
    ensures SoFar(H.Deliver(cb, s, e).c, blocks + Shown(FramesOf(cb, s, e)))
  {
    hide Parse, KindsRight, LeftOpen, FewOpen, ReasmState.Push, ReasmState.ForceGap;
    assert blocks + [] == blocks;
    match e
    case Segment(q, data, now) =>
      var (r', gap) := s.r.Push(q, data, now);
      ParseKinds(cb, if gap then s.c.OnGap() else s.c, r'.win, blocks);
    case Tick(now) =>
      if s.r.CheckTimeout(now).1 { ParseKinds(cb, s.c.OnGap(), s.r.CheckTimeout(now).0.win, blocks); }
    case Syn(_) =>
    case PeerCapacity(_) =>
  }

  lemma {:induction false} KindsAlong(cb: Codebook, s: DirState, events: seq<H.Event>, blocks: seq<DecodedBlock>)
    requires SoFar(s.c, blocks) && FewOpen(blocks + Shown(AllFrames(cb, s, events)))
    ensures KindsRight(blocks + Shown(AllFrames(cb, s, events)))
    decreases |events|
  {
    hide H.Deliver, FramesOf, KindsRight, Knows, FewOpen;
    if events == [] {
      assert blocks + Shown([]) == blocks;
    } else {
      var s', fs := H.Deliver(cb, s, events[0]), FramesOf(cb, s, events[0]);
      var rest := AllFrames(cb, s', events[1..]);
      ShownConcat(fs, rest);
      Regroup(blocks, Shown(fs), Shown(rest));
      FewPrefix(blocks + Shown(fs), Shown(rest));
      EventKinds(cb, s, events[0], blocks);
      KindsAlong(cb, s', events[1..], blocks + Shown(fs));
    }
  }

  /** Over every run of a direction from its start, gaps and resynchronisation included: of the
      blocks shown, the first of each stream is marked as its headers and every later one, until
      one ends the stream, as trailers; as long as no more than 65 536 streams are left open. */
  lemma KindsAreRight(cb: Codebook, s: DirState, events: seq<H.Event>)
    requires s.c.openStreams == {}
    requires FewOpen(Shown(AllFrames(cb, s, events)))
    ensures KindsRight(Shown(AllFrames(cb, s, events)))
  {
    hide AllFrames, FewOpen;
    var all := Shown(AllFrames(cb, s, events));
    assert [] + all == all;
    assert SoFar(s.c, []);
    KindsAlong(cb, s, events, []);
  }
}
