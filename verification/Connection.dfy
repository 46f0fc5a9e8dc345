/** One direction of a connection as a mutable object over a reassembler and a decoder,
    proved to have exactly the effects `ConnSpec` gives. */
module Connection {
  import opened Basics
  import opened HpackInt
  import opened HpackTable
  import HpackSpec
  import opened HpackDecoder
  import opened ReassemblySpec
  import opened Reassembly
  import opened Frame
  import opened ConnSpec

  class Direction {
    const cb: Codebook
    const reasm: Reassembler
    const keepPayloads: bool
    var dec: Decoder
    var poisoned: bool
    var desynced: bool
    var frames: nat
    var blocks: nat
    var decodeErrors: nat
    var resyncs: nat
    var expectPreface: bool
    var discard: nat
    var pendingStartSeq: Option<u32>
    var snapshotMisaligned: bool
    var preSnapshotSkipped: nat
    var tableTrackLimit: nat
    var block: seq<byte>
    var blockHdr: Option<FrameHeader>
    var blockPromised: Option<u32>
    var openStreams: set<u32>

    ghost predicate Valid()
      reads this, reasm, dec
    {
      reasm.Valid() && dec.Valid() && dec.cb == cb
    }

    ghost function CoreState(): Core
      reads this, dec
    {
      Core(dec.State(), poisoned, desynced, frames, blocks, decodeErrors, resyncs, keepPayloads, expectPreface,
           discard, pendingStartSeq, snapshotMisaligned, preSnapshotSkipped, tableTrackLimit,
           block, blockHdr, blockPromised, openStreams)
    }

    ghost function State(): DirState
      requires Valid()
      reads this, reasm, dec
    {
      DirState(CoreState(), reasm.State())
    }

    constructor JoinedMidstream(cb: Codebook, keepPayloads: bool)
      ensures Valid() && fresh(reasm) && fresh(dec) && this.cb == cb
      ensures State() == DirState(ConnSpec.JoinedMidstream(keepPayloads), NewReassembler())
    {
      this.cb, this.keepPayloads := cb, keepPayloads;
      reasm := new Reassembler();
      dec := new Decoder.NewPartial(cb);
      poisoned, desynced := false, true;
      frames, blocks, decodeErrors, resyncs := 0, 0, 0, 0;
      expectPreface, discard, pendingStartSeq := false, 0, None;
      snapshotMisaligned, preSnapshotSkipped, tableTrackLimit := false, 0, USIZE_MAX;
      block, blockHdr, blockPromised, openStreams := [], None, None, {};
    }

    constructor FromConnectionStart(cb: Codebook, keepPayloads: bool, expectPreface: bool)
      ensures Valid() && fresh(reasm) && fresh(dec) && this.cb == cb
      ensures State() == DirState(ConnSpec.FromConnectionStart(keepPayloads, expectPreface), NewReassembler())
    {
      this.cb, this.keepPayloads := cb, keepPayloads;
      reasm := new Reassembler();
      dec := new Decoder.NewExact(cb);
      poisoned, desynced := false, false;
      frames, blocks, decodeErrors, resyncs := 0, 0, 0, 0;
      this.expectPreface, discard, pendingStartSeq := expectPreface, 0, None;
      snapshotMisaligned, preSnapshotSkipped, tableTrackLimit := false, 0, USIZE_MAX;
      block, blockHdr, blockPromised, openStreams := [], None, None, {};
    }

    method SetTableTrackLimit(n: nat)
      requires Valid()
      modifies this, dec
      ensures Valid() && dec == old(dec)
      ensures CoreState() == old(CoreState()).SetTableTrackLimit(n)
    {
      tableTrackLimit := n;
      dec.SetTrackLimit(n);
    }

    method SeedFromSnapshot(entries: seq<Field>, maxSize: nat, nextFrameSeq: u32)
      requires Valid()
      modifies this
      ensures Valid() && fresh(dec)
      ensures CoreState() == old(CoreState()).SeedFromSnapshot(entries, maxSize, nextFrameSeq)
    {
      hide HpackSpec.FromEntries, Total, HeldBytes;
      ReplaceDecoder(entries, maxSize);
      RestartFraming(nextFrameSeq);
    }

    method RestartFraming(nextFrameSeq: u32)
      modifies this`desynced, this`poisoned, this`expectPreface, this`discard, this`pendingStartSeq,
               this`block, this`blockHdr, this`blockPromised
      ensures !desynced && !poisoned && !expectPreface && discard == 0 && pendingStartSeq == Some(nextFrameSeq)
      ensures block == [] && blockHdr == None && blockPromised == None
    {
      desynced, poisoned, expectPreface := false, false, false;
      discard, pendingStartSeq := 0, Some(nextFrameSeq);
      ForgetBlock();
    }

    method ForgetBlock()
      modifies this`block, this`blockHdr, this`blockPromised
      ensures block == [] && blockHdr == None && blockPromised == None
    {
      block, blockHdr, blockPromised := [], None, None;
    }

    /** A new decoder holding the snapshot's table, under the limit set on this direction. */
    method ReplaceDecoder(entries: seq<Field>, maxSize: nat)
      requires Valid()
      modifies this`dec
      ensures Valid() && fresh(dec)
      ensures dec.State() == HpackSpec.FromEntries(entries, maxSize).SetTrackLimit(tableTrackLimit)
    {
      dec := new Decoder.FromEntries(cb, entries, maxSize);
      dec.SetTrackLimit(tableTrackLimit);
    }

    predicate IsSnapshottable()
      reads this, dec
      ensures IsSnapshottable() == CoreState().IsSnapshottable()
    {
      !poisoned && !desynced && (dec.exact && !dec.overLimit) && blockHdr.None?
    }

    method MarkBadBlock()
      requires Valid()
      modifies this, dec
      ensures Valid() && dec == old(dec)
      ensures CoreState() == old(CoreState()).MarkBadBlock()
    {
      hide Total, HeldBytes;
      ForgetBlock();
      Distrust();
      dec.ResetPartial();
    }

    method Distrust()
      modifies this`poisoned, this`desynced
      ensures poisoned && desynced
    {
      poisoned, desynced := true, true;
    }

    method OnGap()
      requires Valid()
      modifies this, dec
      ensures Valid() && dec == old(dec)
      ensures CoreState() == old(CoreState()).OnGap()
    {
      MarkBadBlock();
      discard := 0;
    }

    method FinishBlock() returns (decoded: Option<DecodedBlock>)
      requires Valid()
      modifies this, dec
      ensures Valid() && dec == old(dec)
      ensures (CoreState(), decoded) == old(CoreState()).FinishBlock(cb)
    {
      hide HpackSpec.Decode, Total, HeldBytes, Core.Settle;
      if blockHdr.None? {
        return None;
      }
      decoded := FinishOpenBlock();
    }

    method FinishOpenBlock() returns (decoded: Option<DecodedBlock>)
      requires Valid() && blockHdr.Some?
      modifies this, dec
      ensures Valid() && dec == old(dec)
      ensures old(CoreState()).blockHdr.Some?
      ensures (CoreState(), decoded) ==
                var c := old(CoreState()); var (d, r) := HpackSpec.Decode(cb, c.dec, c.block); c.Settle(c.blockHdr.value, d, r)
    {
      hide CoreState, HpackSpec.Decode, Total, HeldBytes, StreamsAfter, KindOf;
      var h, promised, bytes := TakeBlock();
      var r, unresolved := DecodeBlock(bytes);
      decoded := Settle(h, promised, r, unresolved);
    }

    /** Take the collected block, leaving none open. */
    method TakeBlock() returns (h: FrameHeader, promised: Option<u32>, bytes: seq<byte>)
      requires Valid() && blockHdr.Some?
      modifies this`block, this`blockHdr, this`blockPromised, this`blocks
      ensures Valid()
      ensures var c := old(CoreState());
              && c.blockHdr == Some(h) && c.blockPromised == promised && c.block == bytes
              && CoreState() == c.(block := [], blockHdr := None, blockPromised := None, blocks := c.blocks + 1)
    {
      hide Total, HeldBytes;
      h, promised, bytes := blockHdr.value, blockPromised, block;
      ForgetBlock();
      blocks := blocks + 1;
    }

    /** Decode a block, counting the references it could not resolve. */
    method DecodeBlock(bytes: seq<byte>) returns (r: Result<seq<Field>>, unresolved: nat)
      requires Valid()
      modifies dec
      ensures Valid()
      ensures var c := old(CoreState()); var d := HpackSpec.Decode(cb, c.dec, bytes);
              && r == d.1 && CoreState() == c.(dec := d.0)
              && unresolved == if d.0.unresolved >= c.dec.unresolved then d.0.unresolved - c.dec.unresolved else 0
    {
      hide HpackSpec.Decode, Total, HeldBytes;
      var before := dec.unresolved;
      r := dec.Decode(bytes);
      unresolved := if dec.unresolved >= before then dec.unresolved - before else 0;
    }

    /** After a block that does not decode, framing is probably fine but the table is not. */
    method Settle(h: FrameHeader, promised: Option<u32>, r: Result<seq<Field>>, unresolved: nat)
      returns (decoded: Option<DecodedBlock>)
      requires Valid()
      modifies this`decodeErrors, this`poisoned, this`openStreams, dec
      ensures Valid()
      ensures var c := old(CoreState());
              if r.Err? then
                && decoded == None
                && CoreState() == c.(decodeErrors := c.decodeErrors + 1, poisoned := true, dec := c.dec.ResetPartial())
              else
                && decoded == Some(DecodedBlock(h.streamId, r.value, h.Has(END_STREAM), KindOf(c.openStreams, h), promised,
                                                c.dec.IsExact() && unresolved == 0, unresolved))
                && CoreState() == c.(openStreams := StreamsAfter(c.openStreams, h))
    {
      hide Total, HeldBytes, StreamsAfter, KindOf;
      if r.Err? {
        decodeErrors, poisoned := decodeErrors + 1, true;
        dec.ResetPartial();
        return None;
      }
      var kind := NoteStream(h);
      return Some(DecodedBlock(h.streamId, r.value, h.Has(END_STREAM), kind, promised,
                               dec.exact && !dec.overLimit && unresolved == 0, unresolved));
    }

    /** What kind of block `h` opened, and which streams are open after it. */
    method NoteStream(h: FrameHeader) returns (kind: BlockKind)
      modifies this`openStreams
      ensures kind == KindOf(old(openStreams), h) && openStreams == StreamsAfter(old(openStreams), h)
    {
      kind :=
        if h.typ == PUSH_PROMISE then PushPromise else if h.streamId in openStreams then Trailers else Headers;
      if h.typ != PUSH_PROMISE {
        if h.Has(END_STREAM) {
          openStreams := openStreams - {h.streamId};
        } else {
          if |openStreams| > MAX_OPEN_STREAMS {
            openStreams := {};
          }
          openStreams := openStreams + {h.streamId};
        }
      }
    }

    method OpenBlock(h: FrameHeader, payload: seq<byte>) returns (decoded: Option<DecodedBlock>)
      requires Valid()
      modifies this, dec
      ensures Valid() && dec == old(dec)
      ensures (CoreState(), decoded) == old(CoreState()).OpenBlock(cb, h, payload)
    {
      hide Core.FinishBlock, PromisedId, HeaderBlockFragment;
      decoded := None;
      if blockHdr.Some? {
        block := [];
      }
      if h.typ == PUSH_PROMISE && PromisedId(h, payload).Some? {
        blockPromised := PromisedId(h, payload);
      }
      match HeaderBlockFragment(h, payload) {
        case None => MarkBadBlock();
        case Some(frag) =>
          block, blockHdr := block + frag, Some(h);
          if h.Has(END_HEADERS) {
            decoded := FinishBlock();
          }
      }
    }

    method ContinueBlock(h: FrameHeader, payload: seq<byte>) returns (decoded: Option<DecodedBlock>)
      requires Valid()
      modifies this, dec
      ensures Valid() && dec == old(dec)
      ensures (CoreState(), decoded) == old(CoreState()).ContinueBlock(cb, h, payload)
    {
      hide Core.FinishBlock;
      decoded := None;
      if blockHdr.None? {
        MarkBadBlock();
      } else {
        block := block + payload;
        if h.Has(END_HEADERS) {
          decoded := FinishBlock();
        }
      }
    }

    method HandleFrame(h: FrameHeader, payload: seq<byte>, startOff: nat, startSeq: u32) returns (f: ProcessedFrame)
      requires Valid()
      modifies this, dec
      ensures Valid() && dec == old(dec)
      ensures forall w: Window :: w.off == startOff && w.NextSeq() == startSeq ==>
        (CoreState(), f) == old(CoreState()).HandleFrame(cb, h, payload, w)
    {
      hide Core.OpenBlock, Core.ContinueBlock;
      var decoded: Option<DecodedBlock>, size: Option<u32> := None, None;
      if h.typ == SETTINGS {
        size := SettingsTableSizeLoop(h, payload);
      } else if h.typ == HEADERS || h.typ == PUSH_PROMISE {
        decoded := OpenBlock(h, payload);
      } else if h.typ == CONTINUATION {
        decoded := ContinueBlock(h, payload);
      }
      f := ProcessedFrame(h, payload, startOff, startSeq, decoded, h.IsHeaderFrame(), false, size);
    }

    /** The resync scan: the first offset whose chain is not rejected. */
    static method FindBoundary(a: seq<byte>) returns (r: Option<(nat, ChainCheck)>)
      ensures r == Scan(a, 0)
    {
      var off := 0;
      while off + FRAME_HEADER_LEN <= |a|
        invariant Scan(a, off) == Scan(a, 0)
      {
        var check := CheckFrameChainLoop(a[off..], 4, 2);
        if !check.ChainBad? {
          return Some((off, check));
        }
        off := off + 1;
      }
      return None;
    }

    method TryResync() returns (found: bool)
      requires Valid()
      modifies this, reasm
      ensures Valid() && dec == old(dec)
      ensures (CoreState(), reasm.State().win, found) == ConnSpec.TryResync(old(CoreState()), old(reasm.State().win))
      ensures reasm.State() == old(reasm.State()).(win := reasm.State().win)
    {
      hide Scan, Total, HeldBytes;
      var a := reasm.Available();
      var boundary := FindBoundary(a);
      if boundary.Some? && boundary.value.1.ChainOk? {
        reasm.Consume(boundary.value.0);
        desynced := false;
        resyncs := resyncs + 1;
        return true;
      }
      if boundary.None? && |a| > RESYNC_WINDOW {
        reasm.Consume(|a| - RESYNC_WINDOW);
      }
      return false;
    }

    /** One turn of the loop: throw away payload nobody wants. */
    method DiscardTurn() returns (more: bool)
      requires Valid()
      modifies this`discard, reasm
      ensures Valid()
      ensures TurnIs(DiscardStep(old(CoreState()), old(reasm.State().win)), more, [])
      ensures reasm.State() == old(reasm.State()).(win := reasm.State().win)
    {
      var avail := |reasm.Available()|;
      var n := if discard < avail then discard else avail;
      if n == 0 {
        return false;
      }
      reasm.Consume(n);
      discard := discard - n;
      return true;
    }

    method SeekTurn(target: u32) returns (more: bool)
      requires Valid()
      modifies this, reasm, dec
      ensures Valid() && dec == old(dec)
      ensures TurnIs(SeekStep(old(CoreState()), old(reasm.State().win), target), more, [])
      ensures reasm.State() == old(reasm.State()).(win := reasm.State().win)
    {
      hide SignedDiff, SeekDone, Total, HeldBytes;
      var delta := SignedDiff(target, reasm.NextUnparsedSeq());
      if delta > 0 {
        var avail := |reasm.Available()|;
        var n := if delta < avail then delta else avail;
        if n == 0 {
          return false;
        }
        reasm.Consume(n);
        preSnapshotSkipped := preSnapshotSkipped + n;
        return true;
      }
      FinishSeek(delta < 0);
      return true;
    }

    method FinishSeek(misaligned: bool)
      requires Valid()
      modifies this, dec
      ensures Valid() && dec == old(dec)
      ensures CoreState() == SeekDone(old(CoreState()), misaligned)
    {
      hide Total, HeldBytes;
      if misaligned {
        snapshotMisaligned, desynced := true, true;
        dec.ResetPartial();
      }
      pendingStartSeq := None;
    }

    method PrefaceTurn() returns (more: bool)
      requires Valid()
      modifies this`expectPreface, reasm
      ensures Valid()
      ensures TurnIs(PrefaceStep(old(CoreState()), old(reasm.State().win)), more, [])
      ensures reasm.State() == old(reasm.State()).(win := reasm.State().win)
    {
      var a := reasm.Available();
      if |a| < |PREFACE| {
        return false;
      }
      expectPreface := false;
      if PREFACE <= a {
        reasm.Consume(|PREFACE|);
      }
      return true;
    }

    method FrameTurn() returns (more: bool, out: seq<ProcessedFrame>)
      requires Valid()
      modifies this, reasm, dec
      ensures Valid() && dec == old(dec)
      ensures TurnIs(FrameStep(cb, old(CoreState()), old(reasm.State().win)), more, out)
      ensures reasm.State() == old(reasm.State()).(win := reasm.State().win)
    {
      hide Core.HandleFrame, FrameHeader.IsHeaderFrame, Total, HeldBytes;
      var a := reasm.Available();
      if |a| < FRAME_HEADER_LEN {
        return false, [];
      }
      var h := ParseHeader(a).value;
      var wanted := (keepPayloads || h.IsHeaderFrame() || h.typ == SETTINGS) && h.len <= MAX_BUFFERED_FRAME;
      if !wanted {
        var f := DropPayload(h);
        return true, [f];
      }
      if |a| < h.TotalLen() {
        return false, [];
      }
      var f := TakeFrame(h, a[FRAME_HEADER_LEN..h.TotalLen()]);
      return true, [f];
    }

    /** A frame nobody wants: only its header is consumed now. */
    method DropPayload(h: FrameHeader) returns (f: ProcessedFrame)
      requires Valid()
      modifies this`discard, this`frames, reasm
      ensures Valid()
      ensures CoreState() == old(CoreState()).(discard := h.len, frames := old(frames) + 1)
      ensures f == var w := old(reasm.State().win); ProcessedFrame(h, [], w.off, w.NextSeq(), None, h.IsHeaderFrame(), true, None)
      ensures reasm.State() == old(reasm.State()).Consume(FRAME_HEADER_LEN)
    {
      f := ProcessedFrame(h, [], reasm.bufOff, reasm.NextUnparsedSeq(), None, h.IsHeaderFrame(), true, None);
      reasm.Consume(FRAME_HEADER_LEN);
      discard, frames := h.len, frames + 1;
    }

    /** A frame that is here whole. */
    method TakeFrame(h: FrameHeader, payload: seq<byte>) returns (f: ProcessedFrame)
      requires Valid()
      modifies this, reasm, dec
      ensures Valid() && dec == old(dec)
      ensures (CoreState(), f)
           == old(CoreState()).(frames := old(frames) + 1).HandleFrame(cb, h, payload, old(reasm.State().win))
      ensures reasm.State() == old(reasm.State()).Consume(h.TotalLen())
    {
      hide Core.HandleFrame, Total, HeldBytes;
      var startOff, startSeq := reasm.bufOff, reasm.NextUnparsedSeq();
      reasm.Consume(h.TotalLen());
      frames := frames + 1;
      f := HandleFrame(h, payload, startOff, startSeq);
    }

    /** The turn `r` is where we now are. */
    ghost predicate TurnIs(r: Step, more: bool, out: seq<ProcessedFrame>)
      requires Valid()
      reads this, reasm, dec
    {
      if more then r == Go(CoreState(), reasm.State().win, out) else r == Stop(CoreState(), reasm.State().win) && out == []
    }

    method Turn() returns (more: bool, out: seq<ProcessedFrame>)
      requires Valid()
      modifies this, reasm, dec
      ensures Valid() && dec == old(dec)
      ensures TurnIs(ParseStep(cb, old(CoreState()), old(reasm.State().win)), more, out)
      ensures reasm.State() == old(reasm.State()).(win := reasm.State().win)
    {
      hide FrameStep, DiscardStep, SeekStep, PrefaceStep, ConnSpec.TryResync;
      more, out := false, [];
      if discard > 0 {
        more := DiscardTurn();
      } else if pendingStartSeq.Some? {
        more := SeekTurn(pendingStartSeq.value);
      } else if desynced {
        more := TryResync();
      } else if expectPreface {
        more := PrefaceTurn();
      } else {
        more, out := FrameTurn();
      }
    }

    method Parse() returns (out: seq<ProcessedFrame>)
      requires Valid()
      modifies this, reasm, dec
      ensures Valid() && dec == old(dec)
      ensures (State(), out) == old(State()).Parsed(cb)
    {
      hide ParseStep;
      out := [];
      LedByNothing(ConnSpec.Parse(cb, CoreState(), reasm.State().win));
      while true
        invariant Valid() && dec == old(dec)
        invariant LedBy(out, ConnSpec.Parse(cb, CoreState(), reasm.State().win))
               == ConnSpec.Parse(cb, old(CoreState()), old(reasm.State().win))
        invariant reasm.State() == old(reasm.State()).(win := reasm.State().win)
        decreases |reasm.State().win.avail|, Rank(CoreState())
      {
        StepProgress(cb, CoreState(), reasm.State().win);
        ghost var before := out;
        var more, fs := Turn();
        out := out + fs;
        LedTwice(before, fs, ConnSpec.Parse(cb, CoreState(), reasm.State().win));
        if !more {
          break;
        }
      }
    }

    method Feed(s: u32, data: seq<byte>, now: nat) returns (out: seq<ProcessedFrame>)
      requires Valid()
      modifies this, reasm, dec
      ensures Valid() && dec == old(dec)
      ensures (State(), out) == old(State()).Feed(cb, s, data, now)
    {
      var gap := reasm.Push(s, data, now);
      if gap {
        OnGap();
      }
      out := Parse();
    }

    method Tick(now: nat) returns (out: seq<ProcessedFrame>)
      requires Valid()
      modifies this, reasm, dec
      ensures Valid() && dec == old(dec)
      ensures (State(), out) == old(State()).Tick(cb, now)
    {
      var gap := reasm.CheckTimeout(now);
      if gap {
        OnGap();
        out := Parse();
      } else {
        out := [];
      }
    }
  }

  ghost function LedBy(fs: seq<ProcessedFrame>, r: (Core, Window, seq<ProcessedFrame>)): (Core, Window, seq<ProcessedFrame>) {
    (r.0, r.1, fs + r.2)
  }

  lemma LedByNothing(r: (Core, Window, seq<ProcessedFrame>))
    ensures LedBy([], r) == r
  {
    assert [] + r.2 == r.2;
  }

  lemma LedTwice(a: seq<ProcessedFrame>, b: seq<ProcessedFrame>, r: (Core, Window, seq<ProcessedFrame>))
    ensures LedBy(a, LedBy(b, r)) == LedBy(a + b, r)
  {
    assert a + (b + r.2) == a + b + r.2;
  }
}
