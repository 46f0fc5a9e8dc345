/** Where the frames shown stand in the stream: each at the offset and sequence number it
    names, with the bytes that are there, none overlapping another. */
module ConnPlaced {
  import opened Basics
  import opened HpackInt
  import opened ReassemblySpec
  import opened Frame
  import opened ConnSpec
  import opened ConnSegmentation
  import opened ConnTwins
  import opened ConnArrival

  /** The frame is at offset `k` of the bytes, its payload behind it unless that was thrown away. */
  predicate At(f: ProcessedFrame, b: seq<byte>, k: nat) {
    && k + FRAME_HEADER_LEN <= |b|
    && ParseHeader(b[k..]) == Some(f.hdr)
    && if f.truncated then f.payload == []
       else k + f.hdr.TotalLen() <= |b| && f.payload == b[k + FRAME_HEADER_LEN..k + f.hdr.TotalLen()]
  }

  /** `f` stands in the window where it says, and its sequence number is that of its offset. */
  predicate Stands(f: ProcessedFrame, w: Window) {
    f.startOff >= w.off && At(f, w.avail, f.startOff - w.off) && f.startSeq == WrappingAdd(w.base, f.startOff)
  }

  /** From offset `low` on, one after the other. */
  predicate InOrder(fs: seq<ProcessedFrame>, low: nat)
    decreases |fs|
  {
    fs == [] || (fs[0].startOff >= low && InOrder(fs[1..], fs[0].startOff + fs[0].hdr.TotalLen()))
  }

  lemma AtFurther(f: ProcessedFrame, b: seq<byte>, n: nat, k: nat)
    requires n <= |b| && At(f, b[n..], k)
    ensures At(f, b, n + k)
  {
    hide ParseHeader;
    assert b[n..][k..] == b[n + k..];
    if !f.truncated {
      assert b[n..][k + FRAME_HEADER_LEN..k + f.hdr.TotalLen()] == b[n + k + FRAME_HEADER_LEN..n + k + f.hdr.TotalLen()];
    }
  }

  lemma StandsFurther(f: ProcessedFrame, w: Window, n: nat)
    requires n <= |w.avail| && Stands(f, w.Consume(n))
    ensures Stands(f, w)
  {
    hide At, WrappingAdd;
    AtFurther(f, w.avail, n, f.startOff - w.off - n);
  }

  lemma LowerOrder(fs: seq<ProcessedFrame>, low: nat, high: nat)
    requires InOrder(fs, high) && low <= high
    ensures InOrder(fs, low)
  {
  }

  lemma HeaderThere(b: seq<byte>)
    ensures ParseHeader(b).Some? <==> |b| >= FRAME_HEADER_LEN
  {
  }

  lemma Handled(cb: Codebook, c: Core, h: FrameHeader, payload: seq<byte>, w: Window)
    ensures var f := c.HandleFrame(cb, h, payload, w).1;
            f.hdr == h && f.payload == payload && f.startOff == w.off && f.startSeq == w.NextSeq() && !f.truncated
  {
    hide Core.OpenBlock, Core.ContinueBlock, SettingsTableSize, Window.NextSeq;
  }

  lemma AtFront(f: ProcessedFrame, b: seq<byte>)
    requires ParseHeader(b) == Some(f.hdr)
    requires if f.truncated then f.payload == []
             else f.hdr.TotalLen() <= |b| && f.payload == b[FRAME_HEADER_LEN..f.hdr.TotalLen()]
    ensures At(f, b, 0)
  {
    hide ParseHeader;
    HeaderThere(b);
    assert b[0..] == b;
  }

  lemma FrontStands(f: ProcessedFrame, w: Window)
    requires f.startOff == w.off && f.startSeq == w.NextSeq() && ParseHeader(w.avail) == Some(f.hdr)
    requires if f.truncated then f.payload == []
             else f.hdr.TotalLen() <= |w.avail| && f.payload == w.avail[FRAME_HEADER_LEN..f.hdr.TotalLen()]
    ensures Stands(f, w)
  {
    hide At, WrappingAdd, ParseHeader;
    AtFront(f, w.avail);
  }

  /** A frame taken or announced stands at the front of the window. */
  lemma FrameStands(cb: Codebook, c: Core, w: Window)
    requires c.discard == 0 && FrameStep(cb, c, w).Go?
    ensures var r := FrameStep(cb, c, w);
            && |r.out| == 1
            && var f := r.out[0]; f.startOff == w.off && Stands(f, w) && r.w.off + r.c.discard >= w.off + f.hdr.TotalLen()
  {
    hide Stands, ParseHeader, Core.HandleFrame, Window.NextSeq, FrameHeader.IsHeaderFrame, Core.WantsPayload;
    HeaderThere(w.avail);
    var h := ParseHeader(w.avail).value;
    if c.WantsPayload(h) {
      Handled(cb, c.(frames := c.frames + 1), h, w.avail[FRAME_HEADER_LEN..h.TotalLen()], w);
    }
    FrontStands(FrameStep(cb, c, w).out[0], w);
  }

  /** What comes out of a turn, and where the next one starts. */
  ghost predicate TurnStands(c: Core, w: Window, r: Step) {
    r.Go? ==>
      if r.out == [] then r.w.off + r.c.discard >= w.off + c.discard
      else
        var f := r.out[0];
        |r.out| == 1 && c.discard == 0 && Stands(f, w) && f.startOff == w.off && r.w.off + r.c.discard >= w.off + f.hdr.TotalLen()
  }

  lemma SkipStands(c: Core, w: Window, target: u32)
    ensures TurnStands(c, w, DiscardStep(c, w))
    ensures c.discard == 0 ==> TurnStands(c, w, SeekStep(c, w, target)) && TurnStands(c, w, PrefaceStep(c, w))
    ensures c.discard == 0 ==> TryResync(c, w).1.off >= w.off
  {
    hide SignedDiff, Scan, Window.NextSeq, Stands;
  }

  /** One turn brings out at most one frame, at the front of the window; what follows comes
      after it, its payload included where that is still to be thrown away. */
  lemma StepStands(cb: Codebook, c: Core, w: Window)
    ensures TurnStands(c, w, ParseStep(cb, c, w))
  {
    hide FrameStep, DiscardStep, SeekStep, PrefaceStep, Stands;
    SkipStands(c, w, if c.pendingStartSeq.Some? then c.pendingStartSeq.value else 0);
    if AtFrame(c) && FrameStep(cb, c, w).Go? {
      FrameStands(cb, c, w);
    }
  }

  lemma OneThenRest(f: ProcessedFrame, rest: seq<ProcessedFrame>, low: nat, next: nat)
    requires f.startOff >= low && InOrder(rest, next) && f.startOff + f.hdr.TotalLen() <= next
    ensures InOrder([f] + rest, low)
  {
    assert ([f] + rest)[1..] == rest;
    LowerOrder(rest, f.startOff + f.hdr.TotalLen(), next);
  }

  lemma {:induction false} FramesStand(cb: Codebook, c: Core, w: Window)
    ensures var out := Parse(cb, c, w).2;
            InOrder(out, w.off + c.discard) && forall f :: f in out ==> Stands(f, w)
    decreases |w.avail|, Rank(c)
  {
    StepProgress(cb, c, w);
    var n := StepConsumes(cb, c, w);
    StepStands(cb, c, w);
    hide ParseStep, Stands, InOrder, Window.Consume;
    match ParseStep(cb, c, w)
    case Stop(_, _) => NoneInOrder(w.off + c.discard);
    case Go(c', w', out) =>
      FramesStand(cb, c', w');
      var rest := Parse(cb, c', w').2;
      forall f | f in rest ensures Stands(f, w) { StandsFurther(f, w, n); }
      if out == [] {
        assert [] + rest == rest;
        LowerOrder(rest, w.off + c.discard, w'.off + c'.discard);
      } else {
        assert out == [out[0]];
        OneThenRest(out[0], rest, w.off, w'.off + c'.discard);
      }
  }

  lemma NoneInOrder(low: nat)
    ensures InOrder([], low)
  {
  }
}
