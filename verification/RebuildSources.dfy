/** Every frame a direction emits is one the rebuilder can carry. */
module RebuildSources {
  import opened Basics
  import opened HpackInt
  import HpackSpec
  import opened HpackEncode
  import opened ReassemblySpec
  import opened Frame
  import opened ConnSpec
  import opened ConnTwins
  import opened RebuildSpec
  import opened RebuildReadBack

  /** An open block was opened by HEADERS or PUSH_PROMISE, and the latter left its promised id. */
  predicate OpenBlockInv(c: Core) {
    && (c.blockPromised.Some? ==> c.blockPromised.value < TWO31)
    && (c.blockHdr.Some? ==>
          && c.blockHdr.value.streamId < TWO31
          && (c.blockHdr.value.typ == PUSH_PROMISE ==> c.blockPromised.Some?))
  }

  /** The strings of the decoded block are within the coder's range. */
  predicate Strings(b: Option<DecodedBlock>) {
    b.Some? ==> AllEncodable(b.value.fields)
  }

  lemma FinishCarriable(cb: Codebook, c: Core)
    requires OpenBlockInv(c)
    ensures var (c', b) := c.FinishBlock(cb);
            OpenBlockInv(c') && (b.Some? && Strings(b) ==> Carriable(b.value))
  {
    hide HpackSpec.Decode, StreamsAfter, AllEncodable;
  }

  lemma OpenCarriable(cb: Codebook, c: Core, h: FrameHeader, payload: seq<byte>)
    requires OpenBlockInv(c) && h.streamId < TWO31
    ensures var (c', b) := c.OpenBlock(cb, h, payload);
            OpenBlockInv(c') && (b.Some? && Strings(b) ==> Carriable(b.value))
  {
    FragmentImpliesPromise(h, payload);
    hide Core.FinishBlock, HeaderBlockFragment, PromisedId, AllEncodable, Carriable;
    var ready := c.Prepare(h, payload);
    var frag := HeaderBlockFragment(h, payload);
    if frag.Some? {
      FinishCarriable(cb, ready.(block := ready.block + frag.value, blockHdr := Some(h)));
    }
  }

  lemma FragmentImpliesPromise(h: FrameHeader, payload: seq<byte>)
    ensures h.typ == PUSH_PROMISE && HeaderBlockFragment(h, payload).Some? ==> PromisedId(h, payload).Some?
    ensures PromisedId(h, payload).Some? ==> PromisedId(h, payload).value < TWO31
  {
  }

  lemma HandleCarriable(cb: Codebook, c: Core, h: FrameHeader, payload: seq<byte>, w: Window)
    requires OpenBlockInv(c) && h.streamId < TWO31 && h.len == |payload| <= MAX_BUFFERED_FRAME
    ensures var (c', f) := c.HandleFrame(cb, h, payload, w);
            OpenBlockInv(c') && (Strings(f.decoded) ==> CarriableFrame(f))
  {
    hide Core.OpenBlock, Core.FinishBlock, SettingsTableSize, Carriable, AllEncodable;
    OpenCarriable(cb, c, h, payload);
    FinishCarriable(cb, c.(block := c.block + payload));
  }

  lemma HeaderStreamId(a: seq<byte>)
    requires |a| >= FRAME_HEADER_LEN
    ensures HeaderOf(a).streamId < TWO31
  {
  }

  lemma StepCarriable(cb: Codebook, c: Core, w: Window)
    requires OpenBlockInv(c)
    ensures var step := ParseStep(cb, c, w);
            && OpenBlockInv(step.c)
            && (step.Go? ==> forall f :: f in step.out && Strings(f.decoded) ==> CarriableFrame(f))
  {
    hide FrameStep, Scan, SignedDiff, Strings, CarriableFrame, Window.Consume;
    if c.discard > 0 {
    } else if c.pendingStartSeq.Some? {
    } else if c.desynced {
    } else if c.expectPreface {
    } else {
      FrameCarriable(cb, c, w);
    }
  }

  lemma FrameCarriable(cb: Codebook, c: Core, w: Window)
    requires OpenBlockInv(c)
    ensures var step := FrameStep(cb, c, w);
            && OpenBlockInv(step.c)
            && (step.Go? ==> forall f :: f in step.out && Strings(f.decoded) ==> CarriableFrame(f))
  {
    hide Core.HandleFrame, Strings, Window.Consume;
    if |w.avail| >= FRAME_HEADER_LEN {
      var h := HeaderOf(w.avail);
      HeaderStreamId(w.avail);
      if c.WantsPayload(h) && |w.avail| >= h.TotalLen() {
        HandleCarriable(cb, c.(frames := c.frames + 1), h, w.avail[FRAME_HEADER_LEN..h.TotalLen()], w);
      }
    }
  }

  lemma {:induction false} ParseCarriable(cb: Codebook, c: Core, w: Window)
    requires OpenBlockInv(c)
    ensures OpenBlockInv(Parse(cb, c, w).0)
    ensures forall f :: f in Parse(cb, c, w).2 && Strings(f.decoded) ==> CarriableFrame(f)
    decreases |w.avail|, Rank(c)
  {
    hide ParseStep, OpenBlockInv, CarriableFrame, Strings;
    StepCarriable(cb, c, w);
    StepProgress(cb, c, w);
    match ParseStep(cb, c, w)
    case Stop(_, _) =>
    case Go(c', w', _) => ParseCarriable(cb, c', w');
  }
}
