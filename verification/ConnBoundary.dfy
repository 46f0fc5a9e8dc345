/** Where the parser stops: its position plus what is left to discard is a frame boundary,
    and its position alone is one exactly when nothing is left to discard. And where it
    resumes after losing the boundary: never past a real one. */
module ConnBoundary {
  import opened Basics
  import opened HpackInt
  import HpackSpec
  import opened ReassemblySpec
  import opened Frame
  import opened ConnSpec
  import opened ConnSegmentation
  import opened ConnTwins

  /** Offset `x` ends a whole number of back-to-back frames that start at the front of `a`;
      the last may extend past what has arrived. */
  predicate OnBoundary(a: seq<byte>, x: nat)
    decreases |a|
  {
    x == 0 ||
    (|a| >= FRAME_HEADER_LEN &&
     var n := HeaderOf(a).TotalLen();
     x >= n && if n <= |a| then OnBoundary(a[n..], x - n) else x == n)
  }

  lemma BoundaryStep(a: seq<byte>)
    ensures OnBoundary(a, 0)
    ensures |a| >= FRAME_HEADER_LEN ==>
              var n := HeaderOf(a).TotalLen();
              if n <= |a| then forall y: nat :: OnBoundary(a, n + y) <==> OnBoundary(a[n..], y)
              else OnBoundary(a, n) && !OnBoundary(a, |a|)
  {
    if |a| >= FRAME_HEADER_LEN && HeaderOf(a).TotalLen() <= |a| {
      var n := HeaderOf(a).TotalLen();
      forall y: nat ensures OnBoundary(a, n + y) <==> OnBoundary(a[n..], y) {
        assert (n + y) - n == y;
      }
    }
  }

  lemma HandleKeepsPlace(cb: Codebook, c: Core, h: FrameHeader, payload: seq<byte>, w: Window)
    ensures var c' := c.HandleFrame(cb, h, payload, w).0;
            c'.discard == c.discard && c'.pendingStartSeq == c.pendingStartSeq && c'.expectPreface == c.expectPreface
  {
    hide HpackSpec.Decode, HeaderBlockFragment, SettingsTableSize, PromisedId, StreamsAfter;
  }

  /** The three ways a frame at the front can go. */
  lemma FrameOutcome(cb: Codebook, c: Core, w: Window) returns (n: nat, c': Core)
    requires AtFrame(c) && |w.avail| >= FRAME_HEADER_LEN && InStep(c, Parse(cb, c, w).0)
    ensures n == HeaderOf(w.avail).TotalLen()
    ensures n <= |w.avail| ==>
              && AtFrame(c') && c'.resyncs == c.resyncs
              && Parse(cb, c, w).0 == Parse(cb, c', w.Consume(n)).0 && Parse(cb, c, w).1 == Parse(cb, c', w.Consume(n)).1
    ensures n > |w.avail| ==>
              var (c2, w2, _) := Parse(cb, c, w);
              (c2.discard == 0 && w2 == w) || (c2.discard == n - |w.avail| && w2.off == w.off + |w.avail|)
  {
    hide Core.HandleFrame, Window.NextSeq, Parse;
    var h := HeaderOf(w.avail);
    n := h.TotalLen();
    c' := c.(frames := c.frames + 1);
    if !c.WantsPayload(h) {
      if n <= |w.avail| {
        SkippedFrame(cb, c, w);
      } else {
        DropperGoesOn(cb, c, w);
      }
    } else if |w.avail| < n {
      assert ParseStep(cb, c, w) == Stop(c, w);
      hide ParseStep;
      ParseOf(cb, c, w);
    } else {
      HandleKeepsPlace(cb, c', h, w.avail[FRAME_HEADER_LEN..n], w);
      var c1, f := TakenFrame(cb, c, w);
      DesyncIsCounted(cb, c1, w.Consume(n));
      HandleKeepsResyncs(cb, c', h, w.avail[FRAME_HEADER_LEN..n], w);
      c' := c1;
    }
  }

  lemma HandleKeepsResyncs(cb: Codebook, c: Core, h: FrameHeader, payload: seq<byte>, w: Window)
    ensures c.HandleFrame(cb, h, payload, w).0.resyncs == c.resyncs
  {
  }

  /** While in step, from a frame boundary on: position plus `discard` is again a boundary,
      and the position itself is one if and only if nothing is left to discard. */
  lemma {:induction false} StopsOnBoundary(cb: Codebook, c: Core, w: Window)
    requires AtFrame(c) && InStep(c, Parse(cb, c, w).0)
    ensures var (c', w', _) := Parse(cb, c, w);
            && w'.off >= w.off
            && OnBoundary(w.avail, w'.off - w.off + c'.discard)
            && (OnBoundary(w.avail, w'.off - w.off) <==> c'.discard == 0)
    decreases |w.avail|
  {
    hide FrameStep, OnBoundary;
    BoundaryStep(w.avail);
    if |w.avail| < FRAME_HEADER_LEN {
      StopsShort(cb, c, w);
    } else {
      hide Parse;
      var n, c' := FrameOutcome(cb, c, w);
      if n <= |w.avail| {
        StopsOnBoundary(cb, c', w.Consume(n));
        var (c2, w2, _) := Parse(cb, c', w.Consume(n));
        var y := w2.off - (w.off + n);
        assert OnBoundary(w.avail, n + (y + c2.discard)) <==> OnBoundary(w.avail[n..], y + c2.discard);
      }
    }
  }

  lemma StopsShort(cb: Codebook, c: Core, w: Window)
    requires AtFrame(c) && |w.avail| < FRAME_HEADER_LEN
    ensures Parse(cb, c, w) == (c, w, [])
  {
    assert ParseStep(cb, c, w) == Stop(c, w);
    ParseOf(cb, c, w);
  }

  /** The daemon may therefore offer a snapshot whose recorded position is not a boundary:
      here it has seen the header of a one-byte DATA frame and nothing more. */
  lemma SnapshotInsidePayload(cb: Codebook)
    ensures var w := Window(0, 0, [0, 0, 1, 0, 0, 0, 0, 0, 1]);
            var (c', w', _) := Parse(cb, FromConnectionStart(false, false), w);
            c'.IsSnapshottable() && c'.discard == 1 && w'.off == 9 && !OnBoundary(w.avail, 9)
  {
    hide Core.HandleFrame;
    var w := Window(0, 0, [0, 0, 1, 0, 0, 0, 0, 0, 1]);
    var c := FromConnectionStart(false, false);
    var h := HeaderOf(w.avail);
    assert h.len == 1 && h.typ == DATA;
    ParseOf(cb, c, w);
    DiscardRun(cb, c.(discard := 1, frames := 1), w.Consume(9));
  }

  // ----- resynchronisation --------------------------------------------------------------------

  /** The bytes from a real frame boundary on, with at least one whole header visible. */
  ghost predicate RealBoundary(a: seq<byte>, k: nat) {
    k + FRAME_HEADER_LEN <= |a| && TrueBoundary(a[k..], 0)
  }

  lemma {:induction false} ScanFindsLeast(a: seq<byte>, from: nat)
    ensures match Scan(a, from)
            case Some((off, r)) =>
              && from <= off && off + FRAME_HEADER_LEN <= |a| && !r.ChainBad? && r == CheckFrameChain(a[off..], 4, 2)
              && forall k :: from <= k < off ==> CheckFrameChain(a[k..], 4, 2).ChainBad?
            case None =>
              forall k :: from <= k && k + FRAME_HEADER_LEN <= |a| ==> CheckFrameChain(a[k..], 4, 2).ChainBad?
    decreases |a| - from
  {
    hide CheckFrameChain;
    if from + FRAME_HEADER_LEN <= |a| && CheckFrameChain(a[from..], 4, 2).ChainBad? {
      ScanFindsLeast(a, from + 1);
    }
  }

  /** Resync adopts the least offset the chain check does not reject, never one past a real
      boundary; and trimming the window never drops a real boundary. */
  lemma ResyncKeepsBoundaries(c: Core, w: Window, k: nat)
    requires RealBoundary(w.avail, k)
    ensures var (c', w', found) := TryResync(c, w);
            w.off <= w'.off <= w.off + k && w'.avail == w.avail[w'.off - w.off..]
    ensures var (c', w', found) := TryResync(c, w);
            found ==> !c'.desynced && forall j :: 0 <= j < w'.off - w.off ==> CheckFrameChain(w.avail[j..], 4, 2).ChainBad?
  {
    hide CheckFrameChain, Scan;
    ScanFindsLeast(w.avail, 0);
    NotBadAt(w.avail, k);
  }

  lemma NotBadAt(a: seq<byte>, k: nat)
    requires RealBoundary(a, k)
    ensures !CheckFrameChain(a[k..], 4, 2).ChainBad?
  {
    TrueBoundaryNotBad(a[k..], 0, 0, 4, 2);
  }
}
