/** The rebuilder's re-encoding: what is emitted for each processed frame, and what counts
    as the message that a frame carries. */
module RebuildSpec {
  import opened Basics
  import opened HpackTable
  import opened HpackEncode
  import opened Frame
  import opened ConnSpec

  // ----- re-encoding ---------------------------------------------------------------

  function BlockType(blk: DecodedBlock): byte {
    if blk.kind == PushPromise then PUSH_PROMISE else HEADERS
  }

  function BlockBody(blk: DecodedBlock): seq<byte> {
    (if blk.kind == PushPromise && blk.promised.Some? then Enc32(blk.promised.value % TWO31) else [])
    + EncodeLiteral(blk.fields)
  }

  function BaseFlags(blk: DecodedBlock): byte {
    if blk.endStream && blk.kind != PushPromise then END_STREAM else 0
  }

  function Min(a: nat, b: nat): nat {
    if a < b then a else b
  }

  /** A header block cut into one opening frame and CONTINUATION frames. */
  function SplitFrames(rest: seq<byte>, typ: byte, flags: byte, streamId: u32, max: nat): seq<seq<byte>>
    requires flags <= END_STREAM && max > 0
    decreases |rest|
  {
    var n := Min(|rest|, max);
    if n == |rest| then [BuildFrame(typ, flags + END_HEADERS, streamId, rest)]
    else [BuildFrame(typ, flags, streamId, rest[..n])] + SplitFrames(rest[n..], CONTINUATION, 0, streamId, max)
  }

  function EncodeBlock(blk: DecodedBlock, maxFrame: nat): seq<seq<byte>> {
    SplitFrames(BlockBody(blk), BlockType(blk), BaseFlags(blk), blk.streamId, if maxFrame > 0 then maxFrame else 1)
  }

  method BlockBodyLoop(blk: DecodedBlock) returns (body: seq<byte>)
    ensures body == BlockBody(blk)
  {
    body := if blk.kind == PushPromise && blk.promised.Some? then Enc32(blk.promised.value % TWO31) else [];
    var literal := EncodeLiteralLoop(blk.fields);
    body := body + literal;
  }

  /** `encode_block` as the source runs it. */
  method EncodeBlockLoop(blk: DecodedBlock, maxFrame: nat) returns (out: seq<seq<byte>>)
    ensures out == EncodeBlock(blk, maxFrame)
  {
    var body := BlockBodyLoop(blk);
    var max: nat := if maxFrame > 0 then maxFrame else 1;
    var typ: byte, flags: byte, rest: seq<byte> := BlockType(blk), BaseFlags(blk), body;
    out := [];
    assert out + SplitFrames(rest, typ, flags, blk.streamId, max) == EncodeBlock(blk, maxFrame);
    hide EncodeBlock, SplitFrames, BuildFrame, BlockBody, BaseFlags;
    while true
      invariant flags <= END_STREAM
      invariant out + SplitFrames(rest, typ, flags, blk.streamId, max) == EncodeBlock(blk, maxFrame)
      decreases |rest|
    {
      var n := Min(|rest|, max);
      var chunk, tail := rest[..n], rest[n..];
      SplitFramesStep(rest, typ, flags, blk.streamId, max);
      if tail == [] {
        out := out + [BuildFrame(typ, flags + END_HEADERS, blk.streamId, chunk)];
        return;
      }
      var frame := BuildFrame(typ, flags, blk.streamId, chunk);
      AppendFrame(out, frame, SplitFrames(tail, CONTINUATION, 0, blk.streamId, max));
      out := out + [frame];
      typ, flags, rest := CONTINUATION, 0, tail;
    }
  }

  lemma AppendFrame(out: seq<seq<byte>>, frame: seq<byte>, rest: seq<seq<byte>>)
    ensures out + ([frame] + rest) == out + [frame] + rest
  {
  }

  lemma SplitFramesStep(rest: seq<byte>, typ: byte, flags: byte, streamId: u32, max: nat)
    requires flags <= END_STREAM && max > 0
    ensures var n := Min(|rest|, max);
            var split := SplitFrames(rest, typ, flags, streamId, max);
            if n == |rest| then split == [BuildFrame(typ, flags + END_HEADERS, streamId, rest[..n])]
            else split == [BuildFrame(typ, flags, streamId, rest[..n])] + SplitFrames(rest[n..], CONTINUATION, 0, streamId, max)
  {
    hide BuildFrame;
    assert rest[..|rest|] == rest;
  }

  /** The normalized frames for one processed frame; a header frame is replaced by its block. */
  function EmitFrame(f: ProcessedFrame): seq<seq<byte>> {
    if f.truncated then []
    else if f.isHeaderFrame then
      (if f.decoded.Some? then EncodeBlock(f.decoded.value, DEFAULT_MAX_FRAME_SIZE) else [])
    else [BuildFrame(f.hdr.typ, f.hdr.flags, f.hdr.streamId, f.payload)]
  }

  function EmitAll(fs: seq<ProcessedFrame>): seq<seq<byte>> {
    if fs == [] then [] else EmitFrame(fs[0]) + EmitAll(fs[1..])
  }

  function Flatten(chunks: seq<seq<byte>>): seq<byte> {
    if chunks == [] then [] else chunks[0] + Flatten(chunks[1..])
  }

  lemma {:induction false} FlattenConcat(a: seq<seq<byte>>, b: seq<seq<byte>>)
    ensures Flatten(a + b) == Flatten(a) + Flatten(b)
  {
    if a == [] {
      assert a + b == b;
    } else {
      assert (a + b)[1..] == a[1..] + b;
      FlattenConcat(a[1..], b);
      assert a[0] + (Flatten(a[1..]) + Flatten(b)) == a[0] + Flatten(a[1..]) + Flatten(b);
    }
  }

  // ----- what a frame says ------------------------------------------------------------

  /** A message as the rebuilt capture must preserve it: a frame passed through whole, or the
      header list of a complete block. END_STREAM means something on HEADERS only, a promised
      id on PUSH_PROMISE only. */
  datatype Message =
    | Raw(hdr: FrameHeader, payload: seq<byte>)
    | HeaderList(streamId: u32, fields: seq<Field>, endStream: bool)
    | Promise(streamId: u32, fields: seq<Field>, promised: Option<u32>)

  function MessageOf(blk: DecodedBlock): Message {
    if blk.kind == PushPromise then Promise(blk.streamId, ShownAll(blk.fields), blk.promised)
    else HeaderList(blk.streamId, ShownAll(blk.fields), blk.endStream)
  }

  function FrameMessages(f: ProcessedFrame): seq<Message> {
    if f.truncated then []
    else if f.isHeaderFrame then (if f.decoded.Some? then [MessageOf(f.decoded.value)] else [])
    else [Raw(f.hdr, f.payload)]
  }

  function Messages(fs: seq<ProcessedFrame>): seq<Message> {
    if fs == [] then [] else FrameMessages(fs[0]) + Messages(fs[1..])
  }

  lemma {:induction false} MessagesConcat(a: seq<ProcessedFrame>, b: seq<ProcessedFrame>)
    ensures Messages(a + b) == Messages(a) + Messages(b)
  {
    if a == [] {
      assert a + b == b;
    } else {
      assert (a + b)[1..] == a[1..] + b;
      MessagesConcat(a[1..], b);
      assert FrameMessages(a[0]) + (Messages(a[1..]) + Messages(b)) == FrameMessages(a[0]) + Messages(a[1..]) + Messages(b);
    }
  }
}
