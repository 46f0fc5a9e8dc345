/** How the stream is cut into segments does not matter to the frame parser. */
module ConnSegmentation {
  import opened Basics
  import opened HpackInt
  import HpackSpec
  import opened ReassemblySpec
  import opened Frame
  import opened ConnSpec

  lemma FrameStepStops(cb: Codebook, c: Core, w: Window)
    ensures FrameStep(cb, c, w).Stop? ==> FrameStep(cb, c, w) == Stop(c, w)
  {
    hide Core.HandleFrame;
  }

  lemma StepCounts(cb: Codebook, c: Core, w: Window)
    ensures var c' := ParseStep(cb, c, w).c;
            && c'.resyncs >= c.resyncs
            && (c.desynced ==> c'.desynced || c'.resyncs > c.resyncs)
            && (!c.desynced ==> c'.resyncs == c.resyncs)
            && (!c.desynced && ParseStep(cb, c, w).Stop? ==> ParseStep(cb, c, w) == Stop(c, w))
  {
    hide FrameStep, Scan, SignedDiff, WrappingAdd;
    if c.discard > 0 {
    } else if c.pendingStartSeq.Some? {
    } else if c.desynced {
    } else if c.expectPreface {
    } else {
      FrameStepStops(cb, c, w);
    }
  }

  /** Once lost, the boundary is found again only by a resync, which is counted. */
  lemma {:induction false} DesyncIsCounted(cb: Codebook, c: Core, w: Window)
    ensures var c' := Parse(cb, c, w).0;
            c'.resyncs >= c.resyncs && (c.desynced ==> c'.desynced || c'.resyncs > c.resyncs)
    decreases |w.avail|, Rank(c)
  {
    hide ParseStep;
    StepCounts(cb, c, w);
    StepProgress(cb, c, w);
    match ParseStep(cb, c, w)
    case Stop(_, _) =>
    case Go(c', w', _) => DesyncIsCounted(cb, c', w');
  }

  /** Did the parser stay in step throughout? Read off its final state. */
  predicate InStep(c: Core, c': Core) {
    !c.desynced && !c'.desynced && c'.resyncs == c.resyncs
  }

  /** A step that skips bytes and is cut short by the end of the window. */
  predicate CutShort(c: Core, w: Window) {
    && w.avail != []
    && if c.discard > 0 then c.discard > |w.avail|
       else c.pendingStartSeq.Some? && SignedDiff(c.pendingStartSeq.value, w.NextSeq()) > |w.avail|
  }

  lemma ConsumeAppend(w: Window, n: nat, b: seq<byte>)
    requires n <= |w.avail|
    ensures w.Append(b).Consume(n) == w.Consume(n).Append(b)
  {
    assert (w.avail + b)[n..] == w.avail[n..] + b;
  }

  lemma FrameStepAppend(cb: Codebook, c: Core, w: Window, b: seq<byte>)
    requires FrameStep(cb, c, w).Go?
    ensures var step := FrameStep(cb, c, w);
            FrameStep(cb, c, w.Append(b)) == Go(step.c, step.w.Append(b), step.out)
  {
    hide Core.HandleFrame, Be32;
    var wb := w.Append(b);
    var h := ParseHeader(w.avail).value;
    assert ParseHeader(wb.avail) == Some(h) by { Be32Append(w.avail, b, 5); }
    ConsumeAppend(w, FRAME_HEADER_LEN, b);
    if c.WantsPayload(h) {
      ConsumeAppend(w, h.TotalLen(), b);
      assert wb.avail[FRAME_HEADER_LEN..h.TotalLen()] == w.avail[FRAME_HEADER_LEN..h.TotalLen()];
      HandleFrameWindow(cb, c.(frames := c.frames + 1), h, w.avail[FRAME_HEADER_LEN..h.TotalLen()], w, wb);
    }
  }

  lemma Be32Append(a: seq<byte>, b: seq<byte>, i: nat)
    requires i + 4 <= |a|
    ensures Be32(a + b, i) == Be32(a, i)
  {
  }

  /** A frame is handled by where it starts, not by what follows it. */
  lemma HandleFrameWindow(cb: Codebook, c: Core, h: FrameHeader, payload: seq<byte>, w: Window, wb: Window)
    requires wb.base == w.base && wb.off == w.off
    ensures c.HandleFrame(cb, h, payload, wb) == c.HandleFrame(cb, h, payload, w)
  {
    hide Core.OpenBlock, Core.ContinueBlock, SettingsTableSize;
  }

  /** A step that is not cut short does the same thing with more bytes behind it. */
  lemma StepAppend(cb: Codebook, c: Core, w: Window, b: seq<byte>)
    requires !c.desynced && !CutShort(c, w) && ParseStep(cb, c, w).Go?
    ensures var step := ParseStep(cb, c, w);
            ParseStep(cb, c, w.Append(b)) == Go(step.c, step.w.Append(b), step.out)
  {
    hide FrameStep, SignedDiff;
    if c.discard > 0 {
      ConsumeAppend(w, c.discard, b);
    } else if c.pendingStartSeq.Some? {
      var delta := SignedDiff(c.pendingStartSeq.value, w.NextSeq());
      if delta > 0 { ConsumeAppend(w, delta, b); }
    } else if c.expectPreface {
      ConsumeAppend(w, |PREFACE|, b);
      assert PREFACE <= w.avail <==> PREFACE <= w.avail + b;
    } else {
      FrameStepAppend(cb, c, w, b);
    }
  }

  /** Skipping all there is and then some of what comes next is skipping once. */
  lemma ConsumeThrough(w: Window, b: seq<byte>, m: nat)
    requires m <= |b|
    ensures w.Consume(|w.avail|).Append(b).avail == b && w.Append(b).avail == w.avail + b
    ensures w.Append(b).Consume(|w.avail| + m) == w.Consume(|w.avail|).Append(b).Consume(m)
    ensures w.Append(b).NextSeq() == w.NextSeq()
    ensures w.Consume(|w.avail|).Append(b).NextSeq() == w.Consume(|w.avail|).NextSeq()
  {
    assert (w.avail + b)[|w.avail| + m..] == b[m..];
  }

  lemma DiscardResumes(c: Core, w: Window, b: seq<byte>)
    requires w.avail != [] && c.discard > |w.avail| && b != []
    ensures var step := DiscardStep(c, w);
            && step == Go(c.(discard := c.discard - |w.avail|), w.Consume(|w.avail|), [])
            && DiscardStep(c, w.Append(b)) == DiscardStep(step.c, step.w.Append(b))
  {
    var n := |w.avail|;
    var m := if c.discard - n < |b| then c.discard - n else |b|;
    assert w.Consume(n).Append(b).avail == b;
    assert (w.avail + b)[n + m..] == b[m..];
  }

  lemma SeekDistance(w: Window, target: u32)
    requires SignedDiff(target, w.NextSeq()) > |w.avail|
    ensures SignedDiff(target, w.Consume(|w.avail|).NextSeq()) == SignedDiff(target, w.NextSeq()) - |w.avail|
  {
    hide SignedDiff;
    WrappingAddAssoc(w.base, w.off, |w.avail|);
    SignedDiffAdvance(target, w.NextSeq(), |w.avail|);
  }

  lemma SeekSkips(c: Core, w: Window, target: u32, delta: nat)
    requires w.avail != [] && SignedDiff(target, w.NextSeq()) == delta > 0
    ensures var n := if delta < |w.avail| then delta else |w.avail|;
            SeekStep(c, w, target) == Go(c.(preSnapshotSkipped := c.preSnapshotSkipped + n), w.Consume(n), [])
  {
    hide SignedDiff, WrappingAdd;
  }

  lemma SeekResumes(c: Core, w: Window, target: u32, b: seq<byte>)
    requires w.avail != [] && SignedDiff(target, w.NextSeq()) > |w.avail| && b != []
    ensures var step := SeekStep(c, w, target);
            && step == Go(c.(preSnapshotSkipped := c.preSnapshotSkipped + |w.avail|), w.Consume(|w.avail|), [])
            && SignedDiff(target, step.w.NextSeq()) > 0
            && SeekStep(c, w.Append(b), target) == SeekStep(step.c, step.w.Append(b), target)
  {
    hide SignedDiff, WrappingAdd, SeekStep, Window.Consume, Window.Append, Window.NextSeq;
    var n := |w.avail|;
    var rest := w.Consume(n).Append(b);
    var delta := SignedDiff(target, w.NextSeq());
    var m := if delta - n < |b| then delta - n else |b|;
    var c1 := c.(preSnapshotSkipped := c.preSnapshotSkipped + n);
    var c2 := c.(preSnapshotSkipped := c.preSnapshotSkipped + n + m);
    ConsumeThrough(w, b, m);
    SeekDistance(w, target);
    SeekSkips(c, w, target, delta);
    SeekSkips(c, w.Append(b), target, delta);
    SeekSkips(c1, rest, target, delta - n);
    assert SeekStep(c1, rest, target) == Go(c2, rest.Consume(m), []);
    assert (if delta < n + |b| then delta else n + |b|) == n + m;
    assert SeekStep(c, w.Append(b), target) == Go(c2, rest.Consume(m), []);
  }

  /** A step cut short, then resumed, is the step over both pieces. */
  lemma CutShortResumes(cb: Codebook, c: Core, w: Window, b: seq<byte>)
    requires CutShort(c, w) && b != []
    ensures var step := ParseStep(cb, c, w);
            && step.Go? && step.out == [] && step.c.desynced == c.desynced
            && ParseStep(cb, step.c, step.w) == Stop(step.c, step.w)
            && ParseStep(cb, c, w.Append(b)) == ParseStep(cb, step.c, step.w.Append(b))
  {
    assert w.Consume(|w.avail|).avail == [];
    if c.discard > 0 {
      DiscardResumes(c, w, b);
    } else {
      SeekResumes(c, w, c.pendingStartSeq.value, b);
    }
  }

  lemma ParseOf(cb: Codebook, c: Core, w: Window)
    ensures match ParseStep(cb, c, w)
            case Stop(c', w') => Parse(cb, c, w) == (c', w', [])
            case Go(c', w', out) =>
              var (c'', w'', out') := Parse(cb, c', w');
              Parse(cb, c, w) == (c'', w'', out + out')
  {
  }

  /** Any in-order segmentation of a stream gives the same result: parsing `a` and then `b`
      yields the frames, decoded blocks and final state of parsing both at once. */
  lemma {:induction false} ParseAppend(cb: Codebook, c: Core, w: Window, b: seq<byte>)
    requires InStep(c, Parse(cb, c, w).0)
    ensures var (c1, w1, f1) := Parse(cb, c, w);
            var (c2, w2, f2) := Parse(cb, c1, w1.Append(b));
            Parse(cb, c, w.Append(b)) == (c2, w2, f1 + f2)
    decreases |w.avail|, Rank(c)
  {
    hide ParseStep;
    StepCounts(cb, c, w);
    StepProgress(cb, c, w);
    var (c1, w1, f1) := Parse(cb, c, w);
    var (c2, w2, f2) := Parse(cb, c1, w1.Append(b));
    ParseOf(cb, c, w);
    ParseOf(cb, c, w.Append(b));
    match ParseStep(cb, c, w)
    case Stop(_, _) =>
      assert [] + f2 == f2;
    case Go(c', w', out) =>
      DesyncIsCounted(cb, c', w');
      if !CutShort(c, w) {
        StepAppend(cb, c, w, b);
        ParseAppend(cb, c', w', b);
        var f1' := Parse(cb, c', w').2;
        assert out + (f1' + f2) == (out + f1') + f2;
      } else if b == [] {
        assert w.Append([]) == w;
        CutShortResumes(cb, c, w, [0]);
        ParseOf(cb, c', w');
        assert w'.Append([]) == w';
      } else {
        CutShortResumes(cb, c, w, b);
        ParseOf(cb, c', w');
        ParseOf(cb, c', w'.Append(b));
        assert [] + f2 == f2;
      }
  }

  /** A parser that stays in step over more bytes was in step over the first of them. */
  lemma {:induction false} InStepPrefix(cb: Codebook, c: Core, w: Window, b: seq<byte>)
    requires InStep(c, Parse(cb, c, w.Append(b)).0)
    ensures InStep(c, Parse(cb, c, w).0)
    decreases |w.avail|, Rank(c)
  {
    hide ParseStep;
    StepCounts(cb, c, w);
    StepProgress(cb, c, w);
    ParseOf(cb, c, w);
    ParseOf(cb, c, w.Append(b));
    match ParseStep(cb, c, w)
    case Stop(_, _) =>
    case Go(c', w', out) =>
      if !CutShort(c, w) {
        StepAppend(cb, c, w, b);
        DesyncIsCounted(cb, c', w'.Append(b));
        InStepPrefix(cb, c', w', b);
      } else {
        CutShortResumes(cb, c, w, [0]);
        ParseOf(cb, c', w');
      }
  }
}
