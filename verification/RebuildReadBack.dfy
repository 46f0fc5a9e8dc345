/** Reading the rebuilt frames back gives the same messages and touches no dynamic table. */
module RebuildReadBack {
  import opened Basics
  import opened HpackInt
  import opened HpackTable
  import HpackSpec
  import opened HpackEncode
  import opened ReassemblySpec
  import opened Frame
  import opened ConnSpec
  import opened ConnSegmentation
  import opened ConnTwins
  import opened RebuildSpec

  /** A block the rebuilder can carry: legal stream ids, encodable strings, and a promised id
      on every PUSH_PROMISE. */
  predicate Carriable(blk: DecodedBlock) {
    && blk.streamId < TWO31 && AllEncodable(blk.fields)
    && (blk.kind == PushPromise ==> blk.promised.Some? && blk.promised.value < TWO31)
  }

  predicate CarriableFrame(f: ProcessedFrame) {
    f.truncated ||
    if f.isHeaderFrame then f.decoded.Some? ==> Carriable(f.decoded.value)
    else !f.hdr.IsHeaderFrame() && f.hdr.len == |f.payload| <= MAX_BUFFERED_FRAME && f.hdr.streamId < TWO31
  }

  /** A reader between messages: it keeps payloads, and no block is open. */
  predicate Ready(c: Core) {
    AtFrame(c) && c.keepPayloads && c.blockHdr.None? && c.block == [] && c.blockPromised.None?
  }

  /** A reader inside a block opened by `h` for the message `blk`. */
  predicate Reading(c: Core, h: FrameHeader, sofar: seq<byte>, promised: Option<u32>) {
    AtFrame(c) && c.keepPayloads && c.blockHdr == Some(h) && c.block == sofar && c.blockPromised == promised
  }

  // ----- one frame off the wire -----------------------------------------------------------

  lemma FrameOffTheWire(cb: Codebook, c: Core, w: Window, typ: byte, flags: byte, sid: u32, payload: seq<byte>, rest: seq<byte>)
    returns (h: FrameHeader)
    requires AtFrame(c) && (c.keepPayloads || typ == HEADERS) && |payload| <= MAX_BUFFERED_FRAME && sid < TWO31
    requires w.avail == BuildFrame(typ, flags, sid, payload) + rest
    ensures h == FrameHeader(|payload|, typ, flags, sid)
    ensures var (c', f) := c.(frames := c.frames + 1).HandleFrame(cb, h, payload, w);
            && ParseStep(cb, c, w) == Go(c', w.Consume(FRAME_HEADER_LEN + |payload|), [f])
            && w.Consume(FRAME_HEADER_LEN + |payload|).avail == rest
  {
    hide Core.HandleFrame, Window.NextSeq, ParseHeader, FrameHeader.Write;
    h := FrameHeader(|payload|, typ, flags, sid);
    assert w.avail == h.Write() + (payload + rest);
    HeaderRoundTrip(h, payload + rest);
    assert w.avail[FRAME_HEADER_LEN..h.TotalLen()] == payload;
    assert w.avail[h.TotalLen()..] == rest;
  }

  /** Parsing from `(c, w)` emits `out` and carries on from `(c', w')`. */
  predicate Reads(cb: Codebook, c: Core, w: Window, out: seq<ProcessedFrame>, c': Core, w': Window) {
    var (c2, w2, more) := Parse(cb, c', w');
    Parse(cb, c, w) == (c2, w2, out + more) && c'.resyncs == c.resyncs && c'.dec == c.dec
  }

  lemma ReadsOne(cb: Codebook, c: Core, w: Window, f: ProcessedFrame, c': Core, w': Window)
    requires ParseStep(cb, c, w) == Go(c', w', [f]) && c'.resyncs == c.resyncs && c'.dec == c.dec
    ensures Reads(cb, c, w, [f], c', w')
  {
    hide ParseStep;
    ParseOf(cb, c, w);
  }

  lemma ReadsThen(cb: Codebook, c: Core, w: Window, a: seq<ProcessedFrame>, c1: Core, w1: Window, b: seq<ProcessedFrame>, c2: Core, w2: Window)
    requires Reads(cb, c, w, a, c1, w1) && Reads(cb, c1, w1, b, c2, w2)
    ensures Reads(cb, c, w, a + b, c2, w2)
  {
    hide Parse;
    var more := Parse(cb, c2, w2).2;
    assert a + (b + more) == a + b + more;
  }

  // ----- reading a block ------------------------------------------------------------------

  /** The flag bits the rebuilder can set. */
  lemma FlagBits(base: byte, last: bool)
    requires base == 0 || base == END_STREAM
    ensures var h := FrameHeader(0, HEADERS, base + (if last then END_HEADERS else 0), 0);
            !h.Has(PADDED) && !h.Has(HAS_PRIORITY) && (h.Has(END_HEADERS) <==> last) && (h.Has(END_STREAM) <==> base == END_STREAM)
  {
  }

  /** The message of a block with opening header `h`. */
  function Announced(h: FrameHeader, fields: seq<Field>, promised: Option<u32>): Message {
    if h.typ == PUSH_PROMISE then Promise(h.streamId, ShownAll(fields), promised)
    else HeaderList(h.streamId, ShownAll(fields), h.Has(END_STREAM))
  }

  lemma FinishReads(cb: Codebook, c: Core, h: FrameHeader, block: seq<byte>, promised: Option<u32>, fields: seq<Field>)
    requires Reading(c, h, block, promised)
    requires HpackSpec.Decode(cb, c.dec, block) == (c.dec, Ok(fields))
    ensures var (c', blk) := c.FinishBlock(cb);
            && Ready(c') && c'.resyncs == c.resyncs && c'.dec == c.dec
            && blk.Some? && MessageOf(blk.value) == Announced(h, fields, promised)
  {
    hide HpackSpec.Decode, StreamsAfter;
  }

  lemma ContinueReads(cb: Codebook, c: Core, w: Window, h: FrameHeader, sofar: seq<byte>, promised: Option<u32>,
                      fields: seq<Field>, chunk: seq<byte>, last: bool, k: FrameHeader)
    requires Reading(c, h, sofar, promised)
    requires k.typ == CONTINUATION && k.flags == if last then END_HEADERS else 0
    requires last ==> HpackSpec.Decode(cb, c.dec, sofar + chunk) == (c.dec, Ok(fields))
    ensures var (c', f) := c.HandleFrame(cb, k, chunk, w);
            && c'.resyncs == c.resyncs && c'.dec == c.dec
            && if last then Ready(c') && Messages([f]) == [Announced(h, fields, promised)]
               else Reading(c', h, sofar + chunk, promised) && Messages([f]) == []
  {
    hide HpackSpec.Decode, Core.FinishBlock, ShownAll;
    FlagBits(0, last);
    if last { FinishReads(cb, c.(block := sofar + chunk), h, sofar + chunk, promised, fields); }
    var f := c.HandleFrame(cb, k, chunk, w).1;
    MessagesOne(f);
  }

  lemma MessagesOne(f: ProcessedFrame)
    ensures Messages([f]) == FrameMessages(f)
  {
    assert [f][1..] == [];
    assert FrameMessages(f) + [] == FrameMessages(f);
  }

  /** The CONTINUATION frames of a block: nothing until the last, which completes the message. */
  lemma {:induction false} ReadContinuations(cb: Codebook, c: Core, w: Window, h: FrameHeader, sofar: seq<byte>, promised: Option<u32>,
                                             fields: seq<Field>, tail: seq<byte>, max: nat, rest: seq<byte>)
    returns (out: seq<ProcessedFrame>, c': Core, w': Window)
    requires Reading(c, h, sofar, promised) && 0 < max <= MAX_BUFFERED_FRAME && h.streamId < TWO31
    requires HpackSpec.Decode(cb, c.dec, sofar + tail) == (c.dec, Ok(fields))
    requires w.avail == Flatten(SplitFrames(tail, CONTINUATION, 0, h.streamId, max)) + rest
    ensures Reads(cb, c, w, out, c', w') && Ready(c') && w'.avail == rest
    ensures Messages(out) == [Announced(h, fields, promised)]
    decreases |tail|
  {
    hide HpackSpec.Decode, ParseStep, Core.HandleFrame, Announced, BuildFrame, Reads, Window.Consume, Messages, FrameMessages;
    var n := Min(|tail|, max);
    var chunk, left := tail[..n], tail[n..];
    var last := n == |tail|;
    var flags: byte := if last then END_HEADERS else 0;
    var next := if last then [] else SplitFrames(left, CONTINUATION, 0, h.streamId, max);
    assert last ==> chunk == tail;
    assert SplitFrames(tail, CONTINUATION, 0, h.streamId, max) == [BuildFrame(CONTINUATION, flags, h.streamId, chunk)] + next;
    assert w.avail == BuildFrame(CONTINUATION, flags, h.streamId, chunk) + (Flatten(next) + rest);
    var k := FrameOffTheWire(cb, c, w, CONTINUATION, flags, h.streamId, chunk, Flatten(next) + rest);
    var c0 := c.(frames := c.frames + 1);
    ContinueReads(cb, c0, w, h, sofar, promised, fields, chunk, last, k);
    var (c1, f) := c0.HandleFrame(cb, k, chunk, w);
    var w1 := w.Consume(FRAME_HEADER_LEN + |chunk|);
    ReadsOne(cb, c, w, f, c1, w1);
    if last {
      out, c', w' := [f], c1, w1;
      assert Flatten(next) + rest == rest;
    } else {
      assert sofar + chunk + left == sofar + tail;
      var more, c2, w2 := ReadContinuations(cb, c1, w1, h, sofar + chunk, promised, fields, left, max, rest);
      ReadsThen(cb, c, w, [f], c1, w1, more, c2, w2);
      MessagesConcat([f], more);
      assert [] + Messages(more) == Messages(more);
      out, c', w' := [f] + more, c2, w2;
    }
  }

  /** The promised stream id in front of a PUSH_PROMISE block. */
  function Prefix(blk: DecodedBlock): seq<byte> {
    if blk.kind == PushPromise && blk.promised.Some? then Enc32(blk.promised.value % TWO31) else []
  }

  function AnnouncedId(blk: DecodedBlock): Option<u32> {
    if blk.kind == PushPromise then blk.promised else None
  }

  lemma FragmentOf(blk: DecodedBlock, k: FrameHeader, frag: seq<byte>)
    requires Carriable(blk) && k.typ == BlockType(blk) && !k.Has(PADDED) && !k.Has(HAS_PRIORITY)
    ensures HeaderBlockFragment(k, Prefix(blk) + frag) == Some(frag)
    ensures blk.kind == PushPromise ==> PromisedId(k, Prefix(blk) + frag) == blk.promised
  {
    hide AllEncodable, Enc32, FrameHeader.Has, Be32;
    var p := Prefix(blk) + frag;
    assert p[|Prefix(blk)|..] == frag;
    assert frag[..|frag| - 0] == frag;
    assert HeaderBlockFragment(k, p) == StripPadding(p[|Prefix(blk)|..], 0);
    if blk.kind == PushPromise {
      Be32Append(Enc32(blk.promised.value), frag, 0);
    }
  }

  lemma OpeningReads(cb: Codebook, c: Core, w: Window, blk: DecodedBlock, frag: seq<byte>, last: bool, k: FrameHeader)
    requires Ready(c) && Carriable(blk)
    requires k.typ == BlockType(blk) && k.flags == BaseFlags(blk) + (if last then END_HEADERS else 0)
    requires last ==> HpackSpec.Decode(cb, c.dec, frag) == (c.dec, Ok(ShownAll(blk.fields)))
    ensures var (c', f) := c.HandleFrame(cb, k, Prefix(blk) + frag, w);
            && c'.resyncs == c.resyncs && c'.dec == c.dec
            && if last then Ready(c') && Messages([f]) == [Announced(k, ShownAll(blk.fields), AnnouncedId(blk))]
               else Reading(c', k, frag, AnnouncedId(blk)) && Messages([f]) == []
  {
    FlagBits(BaseFlags(blk), last);
    FragmentOf(blk, k, frag);
    hide HpackSpec.Decode, Core.FinishBlock, ShownAll, HeaderBlockFragment, PromisedId, AllEncodable, Prefix;
    assert [] + frag == frag;
    var ready := c.Prepare(k, Prefix(blk) + frag);
    var begun := ready.(block := frag, blockHdr := Some(k));
    assert ready.block == [] && begun == ready.(block := ready.block + frag, blockHdr := Some(k));
    if last { FinishReads(cb, begun, k, frag, AnnouncedId(blk), ShownAll(blk.fields)); }
    MessagesOne(c.HandleFrame(cb, k, Prefix(blk) + frag, w).1);
  }

  lemma AnnouncedIsMessage(blk: DecodedBlock, k: FrameHeader)
    requires Carriable(blk) && k.typ == BlockType(blk) && k.streamId == blk.streamId
    requires k.Has(END_STREAM) <==> BaseFlags(blk) == END_STREAM
    ensures Announced(k, ShownAll(blk.fields), AnnouncedId(blk)) == MessageOf(blk)
  {
    assert ShownAll(ShownAll(blk.fields)) == ShownAll(blk.fields);
  }

  /** The frames after the opening one. */
  function Followers(left: seq<byte>, last: bool, streamId: u32, max: nat): seq<seq<byte>>
    requires max > 0
  {
    if last then [] else SplitFrames(left, CONTINUATION, 0, streamId, max)
  }

  function OpeningFrame(blk: DecodedBlock, frag: seq<byte>, last: bool): seq<byte> {
    BuildFrame(BlockType(blk), BaseFlags(blk) + (if last then END_HEADERS else 0), blk.streamId, Prefix(blk) + frag)
  }

  /** How a block is laid out: an opening frame with the promised id, if any, and the first
      part of the literal encoding; then the rest of it. */
  lemma BlockLayout(blk: DecodedBlock, maxFrame: nat) returns (frag: seq<byte>, left: seq<byte>, last: bool)
    requires Carriable(blk) && 4 <= maxFrame
    ensures EncodeBlock(blk, maxFrame) == [OpeningFrame(blk, frag, last)] + Followers(left, last, blk.streamId, maxFrame)
    ensures frag + left == EncodeLiteral(blk.fields) && (last ==> left == [])
    ensures |Prefix(blk) + frag| <= maxFrame
  {
    hide EncodeLiteral, AllEncodable, BuildFrame;
    var literal := EncodeLiteral(blk.fields);
    var body := BlockBody(blk);
    assert body == Prefix(blk) + literal;
    var n := Min(|body|, maxFrame);
    last := n == |body|;
    frag, left := literal[..n - |Prefix(blk)|], literal[n - |Prefix(blk)|..];
    assert body[..n] == Prefix(blk) + frag && body[n..] == left;
    assert last ==> body[..n] == body;
  }

  lemma OpeningReadsOff(cb: Codebook, c: Core, w: Window, blk: DecodedBlock, frag: seq<byte>, last: bool, after: seq<byte>)
    returns (k: FrameHeader, f: ProcessedFrame, c1: Core, w1: Window)
    requires Ready(c) && Carriable(blk) && |Prefix(blk) + frag| <= MAX_BUFFERED_FRAME
    requires w.avail == OpeningFrame(blk, frag, last) + after
    requires last ==> HpackSpec.Decode(cb, c.dec, frag) == (c.dec, Ok(ShownAll(blk.fields)))
    ensures Reads(cb, c, w, [f], c1, w1) && w1.avail == after && k.streamId == blk.streamId && c1.dec == c.dec
    ensures Announced(k, ShownAll(blk.fields), AnnouncedId(blk)) == MessageOf(blk)
    ensures if last then Ready(c1) && Messages([f]) == [MessageOf(blk)]
            else Reading(c1, k, frag, AnnouncedId(blk)) && Messages([f]) == []
  {
    hide HpackSpec.Decode, ParseStep, Core.HandleFrame, BuildFrame, Reads, Window.Consume, AllEncodable, ShownAll;
    var flags: byte := BaseFlags(blk) + if last then END_HEADERS else 0;
    k := FrameOffTheWire(cb, c, w, BlockType(blk), flags, blk.streamId, Prefix(blk) + frag, after);
    FlagBits(BaseFlags(blk), last);
    AnnouncedIsMessage(blk, k);
    var c0 := c.(frames := c.frames + 1);
    OpeningReads(cb, c0, w, blk, frag, last, k);
    c1, f := c0.HandleFrame(cb, k, Prefix(blk) + frag, w).0, c0.HandleFrame(cb, k, Prefix(blk) + frag, w).1;
    w1 := w.Consume(FRAME_HEADER_LEN + |Prefix(blk) + frag|);
    ReadsOne(cb, c, w, f, c1, w1);
  }

  /** The opening frame has been read; what follows completes the message. */
  lemma AfterOpening(cb: Codebook, c: Core, w: Window, blk: DecodedBlock, k: FrameHeader, f: ProcessedFrame, c1: Core, w1: Window,
                     frag: seq<byte>, left: seq<byte>, last: bool, max: nat, rest: seq<byte>)
    returns (out: seq<ProcessedFrame>, c': Core, w': Window)
    requires Reads(cb, c, w, [f], c1, w1) && 0 < max <= MAX_BUFFERED_FRAME && k.streamId == blk.streamId < TWO31
    requires w1.avail == Flatten(Followers(left, last, blk.streamId, max)) + rest
    requires HpackSpec.Decode(cb, c1.dec, frag + left) == (c1.dec, Ok(ShownAll(blk.fields)))
    requires Announced(k, ShownAll(blk.fields), AnnouncedId(blk)) == MessageOf(blk)
    requires if last then Ready(c1) && Messages([f]) == [MessageOf(blk)]
             else Reading(c1, k, frag, AnnouncedId(blk)) && Messages([f]) == []
    ensures Reads(cb, c, w, out, c', w') && Ready(c') && w'.avail == rest
    ensures Messages(out) == [MessageOf(blk)]
  {
    hide HpackSpec.Decode, ShownAll, SplitFrames, Reads, Announced, MessageOf, Ready, Reading, Messages;
    if last {
      assert Flatten(Followers(left, last, blk.streamId, max)) == [];
      assert [] + rest == rest;
      out, c', w' := [f], c1, w1;
    } else {
      var more, c2, w2 := ReadContinuations(cb, c1, w1, k, frag, AnnouncedId(blk), ShownAll(blk.fields), left, max, rest);
      ReadsThen(cb, c, w, [f], c1, w1, more, c2, w2);
      MessagesConcat([f], more);
      assert [] + Messages(more) == Messages(more);
      out, c', w' := [f] + more, c2, w2;
    }
  }

  /** A re-encoded block, however many frames it takes, reads back as the same message and
      leaves the reader's decoder exactly as it was. */
  lemma BlockReadsBack(cb: Codebook, c: Core, w: Window, blk: DecodedBlock, maxFrame: nat, rest: seq<byte>)
    returns (out: seq<ProcessedFrame>, c': Core, w': Window)
    requires Ready(c) && Carriable(blk) && 4 <= maxFrame <= MAX_BUFFERED_FRAME
    requires w.avail == Flatten(EncodeBlock(blk, maxFrame)) + rest
    ensures Reads(cb, c, w, out, c', w') && Ready(c') && w'.avail == rest
    ensures Messages(out) == [MessageOf(blk)]
  {
    var frag, left, last := BlockLayout(blk, maxFrame);
    LayoutBytes(OpeningFrame(blk, frag, last), Followers(left, last, blk.streamId, maxFrame), rest);
    LayoutDecodes(cb, c.dec, blk, frag, left, last);
    hide HpackSpec.Decode, EncodeLiteral, AllEncodable, ShownAll, OpeningFrame, Reads, Announced, EncodeBlock, MessageOf,
      Ready, Reading, Followers, Messages, Prefix, Flatten, Carriable;
    var k, f, c1, w1 := OpeningReadsOff(cb, c, w, blk, frag, last, Flatten(Followers(left, last, blk.streamId, maxFrame)) + rest);
    out, c', w' := AfterOpening(cb, c, w, blk, k, f, c1, w1, frag, left, last, maxFrame, rest);
  }

  lemma LayoutBytes(first: seq<byte>, next: seq<seq<byte>>, rest: seq<byte>)
    ensures Flatten([first] + next) + rest == first + (Flatten(next) + rest)
  {
    assert ([first] + next)[1..] == next;
  }

  lemma LayoutDecodes(cb: Codebook, d: HpackSpec.DecState, blk: DecodedBlock, frag: seq<byte>, left: seq<byte>, last: bool)
    requires Carriable(blk) && frag + left == EncodeLiteral(blk.fields) && (last ==> left == [])
    ensures HpackSpec.Decode(cb, d, frag + left) == (d, Ok(ShownAll(blk.fields)))
    ensures last ==> frag == frag + left
    ensures blk.streamId < TWO31
  {
    hide HpackSpec.Decode, EncodeLiteral, ShownAll;
    StatelessRoundTrip(cb, d, blk.fields);
  }

  // ----- reading everything ---------------------------------------------------------------

  lemma RawReadsBack(cb: Codebook, c: Core, w: Window, f: ProcessedFrame, rest: seq<byte>)
    returns (out: seq<ProcessedFrame>, c': Core, w': Window)
    requires Ready(c) && CarriableFrame(f) && !f.truncated && !f.isHeaderFrame
    requires w.avail == BuildFrame(f.hdr.typ, f.hdr.flags, f.hdr.streamId, f.payload) + rest
    ensures Reads(cb, c, w, out, c', w') && Ready(c') && w'.avail == rest
    ensures Messages(out) == [Raw(f.hdr, f.payload)]
  {
    hide BuildFrame, ParseStep, SettingsTableSize, Reads, Window.Consume;
    var h := FrameOffTheWire(cb, c, w, f.hdr.typ, f.hdr.flags, f.hdr.streamId, f.payload, rest);
    assert h == f.hdr;
    var c0 := c.(frames := c.frames + 1);
    var (c1, g) := c0.HandleFrame(cb, h, f.payload, w);
    assert c1 == c0;
    MessagesOne(g);
    w' := w.Consume(FRAME_HEADER_LEN + |f.payload|);
    ReadsOne(cb, c, w, g, c1, w');
    out, c' := [g], c1;
  }

  lemma FlattenOne(b: seq<byte>)
    ensures Flatten([b]) == b
  {
    var one := [b];
    assert one[1..] == [];
    assert Flatten(one) == b + [];
  }

  lemma FrameReadsBack(cb: Codebook, c: Core, w: Window, f: ProcessedFrame, rest: seq<byte>)
    returns (out: seq<ProcessedFrame>, c': Core, w': Window)
    requires Ready(c) && CarriableFrame(f) && w.avail == Flatten(EmitFrame(f)) + rest
    ensures Reads(cb, c, w, out, c', w') && Ready(c') && w'.avail == rest
    ensures Messages(out) == FrameMessages(f)
  {
    hide BuildFrame, SplitFrames, Carriable;
    if !f.truncated && f.isHeaderFrame && f.decoded.Some? {
      out, c', w' := BlockReadsBack(cb, c, w, f.decoded.value, DEFAULT_MAX_FRAME_SIZE, rest);
    } else if !f.truncated && !f.isHeaderFrame {
      var b := BuildFrame(f.hdr.typ, f.hdr.flags, f.hdr.streamId, f.payload);
      FlattenOne(b);
      out, c', w' := RawReadsBack(cb, c, w, f, rest);
    } else {
      assert [] + rest == rest;
      out, c', w' := [], c, w;
      var more := Parse(cb, c, w).2;
      assert [] + more == more;
    }
  }

  /** Everything emitted for a list of processed frames reads back as the same messages, in
      order, and the reader's decoder is left exactly as it started. */
  lemma {:induction false} AllReadsBack(cb: Codebook, c: Core, w: Window, fs: seq<ProcessedFrame>, rest: seq<byte>)
    returns (out: seq<ProcessedFrame>, c': Core, w': Window)
    requires Ready(c) && (forall f :: f in fs ==> CarriableFrame(f))
    requires w.avail == Flatten(EmitAll(fs)) + rest
    ensures Reads(cb, c, w, out, c', w') && Ready(c') && w'.avail == rest
    ensures Messages(out) == Messages(fs)
    decreases |fs|
  {
    hide EmitFrame, CarriableFrame, FrameMessages, Ready;
    if fs == [] {
      assert [] + rest == rest;
      out, c', w' := [], c, w;
      var more := Parse(cb, c, w).2;
      assert [] + more == more;
    } else {
      hide Reads;
      FlattenConcat(EmitFrame(fs[0]), EmitAll(fs[1..]));
      assert w.avail == Flatten(EmitFrame(fs[0])) + (Flatten(EmitAll(fs[1..])) + rest);
      var a, c1, w1 := FrameReadsBack(cb, c, w, fs[0], Flatten(EmitAll(fs[1..])) + rest);
      var b, c2, w2 := AllReadsBack(cb, c1, w1, fs[1..], rest);
      ReadsThen(cb, c, w, a, c1, w1, b, c2, w2);
      MessagesConcat(a, b);
      out, c', w' := a + b, c2, w2;
    }
  }
}
