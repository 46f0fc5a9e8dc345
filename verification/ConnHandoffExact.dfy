/** Exactly when a snapshot hands over: what the snapshottable test leaves out is needed. */
module ConnHandoffExact {
  import opened Basics
  import opened HpackInt
  import opened HpackTable
  import HpackSpec
  import opened HpackSnapshot
  import opened ReassemblySpec
  import opened Frame
  import opened ConnSpec
  import opened ConnSegmentation
  import opened ConnTwins
  import opened ConnLifted
  import opened ConnHandoff
  import RebuildReadBack

  /** Nine bytes that read as an empty DATA frame. */
  const ZEROS: seq<byte> := [0, 0, 0, 0, 0, 0, 0, 0, 0]

  lemma {:induction false} ViewsLength(fs: seq<ProcessedFrame>, origin: int)
    ensures |Views(fs, origin)| == |fs|
  {
    if fs != [] { ViewsLength(fs[1..], origin); }
  }

  /** The seeded reader at the recorded position, its seek behind it. */
  function Reading(live: Core, next: u32): Core {
    Seeded(live, next).(pendingStartSeq := None)
  }

  lemma SeededStarts(cb: Codebook, live: Core, pending: Window, cont: seq<byte>)
    ensures Parse(cb, Seeded(live, pending.NextSeq()), Window(pending.NextSeq(), 0, [] + (pending.avail + cont)))
         == Parse(cb, Reading(live, pending.NextSeq()), Window(pending.NextSeq(), 0, pending.avail + cont))
  {
    hide Parse;
    var w := Window(pending.NextSeq(), 0, pending.avail + cont);
    assert [] + (pending.avail + cont) == pending.avail + cont;
    assert w.NextSeq() == pending.NextSeq();
    SeekStops(cb, Seeded(live, pending.NextSeq()), w);
  }

  /** More frames on the reader's side, and nothing on the daemon's: not alike. */
  lemma EmitsAlone(cb: Codebook, live: Core, pending: Window, cont: seq<byte>)
    requires Parse(cb, Reading(live, pending.NextSeq()), Window(pending.NextSeq(), 0, pending.avail + cont)).2 != []
    requires Parse(cb, live, pending.Append(cont)).2 == []
    ensures !ContinuesAlike(cb, live, pending, pending.NextSeq(), [], cont)
  {
    SeededStarts(cb, live, pending, cont);
    hide Parse, Views, Seeded;
    ViewsLength(Parse(cb, Seeded(live, pending.NextSeq()), Window(pending.NextSeq(), 0, [] + (pending.avail + cont))).2, 0);
    ViewsLength(Parse(cb, live, pending.Append(cont)).2, pending.off);
  }

  // ----- inside a payload --------------------------------------------------------------------

  /** Nine bytes of discarded payload, or the rest of it and a header cut short. */
  lemma LiveDiscards(cb: Codebook, live: Core, w: Window)
    requires live.discard > 0 && live.pendingStartSeq.None? && !live.desynced && |w.avail| == 9
    ensures var (f, _, ff) := Parse(cb, live, w);
            ff == [] && f == live.(discard := if live.discard > 9 then live.discard - 9 else 0)
  {
    hide Scan, ParseHeader;
    DiscardRun(cb, live, w);
    if live.discard <= 9 {
      var c1, w1 := live.(discard := 0), w.Consume(live.discard);
      assert ParseStep(cb, c1, w1) == Stop(c1, w1) by { TooShort(cb, c1, w1); }
      ParseOf(cb, c1, w1);
    }
  }

  lemma TooShort(cb: Codebook, c: Core, w: Window)
    requires c.discard == 0 && c.pendingStartSeq.None? && !c.desynced && |w.avail| < FRAME_HEADER_LEN
    ensures ParseStep(cb, c, w) == Stop(c, w)
  {
  }

  lemma ReaderTakes(cb: Codebook, c: Core, w: Window)
    requires AtFrame(c) && |w.avail| >= FRAME_HEADER_LEN
    requires !c.WantsPayload(HeaderOf(w.avail)) || |w.avail| >= HeaderOf(w.avail).TotalLen()
    ensures Parse(cb, c, w).2 != []
  {
    hide Core.HandleFrame;
    assert ParseStep(cb, c, w).Go? && ParseStep(cb, c, w).out != [];
    hide ParseStep, FrameStep;
    ParseOf(cb, c, w);
  }

  /** A snapshot taken inside a payload starts the reader in the middle of a frame. */
  lemma DiscardMatters(cb: Codebook, live: Core, pending: Window)
    requires Sane(live) && live.IsSnapshottable() && live.discard > 0 && pending.avail == []
    ensures GoesOn(cb, live, pending.Append(ZEROS)) && !ContinuesAlike(cb, live, pending, pending.NextSeq(), [], ZEROS)
  {
    hide Parse;
    assert pending.avail + ZEROS == ZEROS;
    LiveDiscards(cb, live, pending.Append(ZEROS));
    ZerosRead();
    ReaderTakes(cb, Reading(live, pending.NextSeq()), Window(pending.NextSeq(), 0, ZEROS));
    EmitsAlone(cb, live, pending, ZEROS);
  }

  lemma ZerosRead()
    ensures HeaderOf(ZEROS) == FrameHeader(0, DATA, 0, 0)
  {
  }

  // ----- before the preface -----------------------------------------------------------------

  lemma LiveWaits(cb: Codebook, live: Core, w: Window)
    requires live.discard == 0 && live.pendingStartSeq.None? && !live.desynced && live.expectPreface && w.avail == PREFACE
    ensures var (f, _, ff) := Parse(cb, live, w); ff == [] && f == live.(expectPreface := false)
  {
    var c1, w1 := live.(expectPreface := false), w.Consume(|PREFACE|);
    assert ParseStep(cb, live, w) == Go(c1, w1, []);
    ParseOf(cb, live, w);
    TooShort(cb, c1, w1);
    hide ParseStep;
    ParseOf(cb, c1, w1);
    assert Parse(cb, live, w).2 == [] + [];
  }

  /** What is left of the preface after `sofar`. */
  function PrefaceLeft(sofar: seq<byte>): seq<byte>
    requires sofar <= PREFACE
  {
    PREFACE[|sofar|..]
  }

  lemma RestOfPreface(sofar: seq<byte>)
    requires sofar <= PREFACE
    ensures sofar + PrefaceLeft(sofar) == PREFACE && |PREFACE| >= FRAME_HEADER_LEN
  {
  }

  /** A snapshot taken before the preface, or inside it, makes the reader take it for a frame. */
  lemma PrefaceMatters(cb: Codebook, live: Core, pending: Window)
    requires Sane(live) && live.IsSnapshottable() && live.discard == 0 && live.expectPreface
    requires pending.avail <= PREFACE && pending.avail != PREFACE
    ensures GoesOn(cb, live, pending.Append(PrefaceLeft(pending.avail)))
    ensures !ContinuesAlike(cb, live, pending, pending.NextSeq(), [], PrefaceLeft(pending.avail))
  {
    hide Parse, ContinuesAlike, ParseHeader;
    var left := PrefaceLeft(pending.avail);
    RestOfPreface(pending.avail);
    hide PrefaceLeft, PREFACE;
    LiveWaits(cb, live, pending.Append(left));
    PrefaceReads();
    ReaderTakes(cb, Reading(live, pending.NextSeq()), Window(pending.NextSeq(), 0, PREFACE));
    EmitsAlone(cb, live, pending, left);
  }

  /** Read as a header, the preface announces a frame of five million bytes. */
  lemma PrefaceReads()
    ensures HeaderOf(PREFACE).len == 0x505249
  {
  }

  // ----- a flagged entry ----------------------------------------------------------------------

  lemma {:induction false} GroupsShort(v: nat, k: nat)
    requires 1 <= k && v < Pow2(7 * k)
    ensures |Groups(v)| <= k
  {
    assert Pow2(7) == 128;
    if v >= 128 {
      assert k > 1;
      Pow2Add(7, 7 * (k - 1));
      assert v / 128 < Pow2(7 * (k - 1));
      GroupsShort(v / 128, k - 1);
    }
  }

  lemma IndexBlockShort(i: nat)
    requires STATIC_LEN + 1 + i < TWO32
    ensures |IndexBlock(i)| <= 6
  {
    assert Pow2(7) == 128;
    assert Pow2(35) == 0x8_0000_0000 by { Pow2Values(); }
    var v := STATIC_LEN + 1 + i;
    if v >= 127 { GroupsShort(v - 127, 5); }
  }

  /** A HEADERS frame whose block refers to entry `i` and nothing else. */
  function IndexFrame(i: nat): seq<byte> {
    BuildFrame(HEADERS, END_HEADERS, 1, IndexBlock(i))
  }

  predicate BetweenBlocks(c: Core) {
    AtFrame(c) && c.blockHdr.None? && c.block == [] && c.blockPromised.None?
  }

  lemma IndexHandled(cb: Codebook, c: Core, h: FrameHeader, w: Window, i: nat)
    requires BetweenBlocks(c) && i < |c.dec.table| && STATIC_LEN + 1 + i < TWO32
    requires h.typ == HEADERS && h.flags == END_HEADERS
    ensures var (c', f) := c.HandleFrame(cb, h, IndexBlock(i), w);
            && AtFrame(c') && c'.dec == c.dec && c'.poisoned == c.poisoned
            && f.decoded.Some? && f.decoded.value.fields == [c.dec.table[i]]
            && f.isHeaderFrame && f.hdr.Has(END_HEADERS)
  {
    IndexedEntry(cb, c.dec, i);
    hide HpackSpec.Decode, StreamsAfter, KindOf, IndexBlock;
    RebuildReadBack.FlagBits(0, true);
    assert !h.Has(PADDED) && !h.Has(HAS_PRIORITY) && h.Has(END_HEADERS);
    var b := IndexBlock(i);
    assert b[0..] == b && b[..|b| - 0] == b && [] + b == b;
    assert HeaderBlockFragment(h, b) == Some(b);
  }

  lemma IndexFrameReads(cb: Codebook, c: Core, w: Window, i: nat)
    requires BetweenBlocks(c) && i < |c.dec.table| && STATIC_LEN + 1 + i < TWO32 && w.avail == IndexFrame(i)
    ensures var (c', _, out) := Parse(cb, c, w);
            && c'.dec == c.dec && c'.poisoned == c.poisoned
            && |out| == 1 && out[0].decoded.Some? && out[0].decoded.value.fields == [c.dec.table[i]]
            && out[0].isHeaderFrame && out[0].hdr.Has(END_HEADERS)
  {
    IndexBlockShort(i);
    hide IndexBlock, Core.HandleFrame, BuildFrame;
    assert w.avail == BuildFrame(HEADERS, END_HEADERS, 1, IndexBlock(i)) + [];
    var h := RebuildReadBack.FrameOffTheWire(cb, c, w, HEADERS, END_HEADERS, 1, IndexBlock(i), []);
    IndexHandled(cb, c.(frames := c.frames + 1), h, w, i);
    var (c1, f) := c.(frames := c.frames + 1).HandleFrame(cb, h, IndexBlock(i), w);
    var w1 := w.Consume(FRAME_HEADER_LEN + |IndexBlock(i)|);
    TooShort(cb, c1, w1);
    hide ParseStep;
    ParseOf(cb, c, w);
    ParseOf(cb, c1, w1);
    assert [f] + [] == [f];
  }

  lemma BlocksOfOne(f: ProcessedFrame, origin: int)
    requires f.decoded.Some?
    ensures Blocks(Views([f], origin)) == [BlockView(f.decoded.value)]
  {
    ViewsOne(f, origin);
    assert [ViewOf(f, origin)][1..] == [];
    assert [BlockView(f.decoded.value)] + [] == [BlockView(f.decoded.value)];
  }

  /** An entry that loses a flag is shown differently by the reader. */
  lemma FlagMatters(cb: Codebook, live: Core, pending: Window, i: nat)
    requires Sane(live) && SafePoint(live) && pending.avail == []
    requires i < |live.dec.table| && STATIC_LEN + 1 + i < TWO32 && (live.dec.table[i].unknown || live.dec.table[i].sensitive)
    ensures GoesOn(cb, live, pending.Append(IndexFrame(i)))
    ensures !ContinuesAlike(cb, live, pending, pending.NextSeq(), [], IndexFrame(i))
  {
    hide Parse, IndexFrame, Views, Blocks, FramedAlike;
    var frame, c := IndexFrame(i), Reading(live, pending.NextSeq());
    var w := Window(pending.NextSeq(), 0, frame);
    assert [] + frame == frame && pending.avail + frame == frame;
    IndexFrameReads(cb, live, pending.Append(frame), i);
    IndexFrameReads(cb, c, w, i);
    SeededStarts(cb, live, pending, frame);
    var ff, ft := Parse(cb, live, pending.Append(frame)).2, Parse(cb, c, w).2;
    assert ff == [ff[0]] && ft == [ft[0]];
    BlocksOfOne(ff[0], pending.off);
    BlocksOfOne(ft[0], 0);
    assert ft[0].decoded.value.fields[0] != ff[0].decoded.value.fields[0];
    assert BlockView(ft[0].decoded.value) != BlockView(ff[0].decoded.value);
    assert [BlockView(ft[0].decoded.value)][0] != [BlockView(ff[0].decoded.value)][0];
  }

  // ----- the exact condition --------------------------------------------------------------------

  /** From the recorded position on, whatever comes, the reader continues as the daemon does. */
  ghost predicate HandsOver(cb: Codebook, live: Core, pending: Window) {
    forall cont :: GoesOn(cb, live, pending.Append(cont)) ==> ContinuesAlike(cb, live, pending, pending.NextSeq(), [], cont)
  }

  /** Nothing waits, or the first bytes of the preface do. */
  predicate NothingOrPreface(live: Core, pending: Window) {
    pending.avail == [] || (live.expectPreface && live.discard == 0 && pending.avail <= PREFACE && pending.avail != PREFACE)
  }

  /** Exactly when a snapshot hands over. For any direction the daemon may hold, joined midway
      or not, that counts as snapshottable with no bytes waiting but a part of the preface: it
      hands over if and only if nothing is left to discard, the preface is past, and no entry of
      the table is flagged. */
  lemma HandsOverExactly(cb: Codebook, live: Core, pending: Window)
    requires Sane(live) && live.IsSnapshottable() && !live.keepPayloads && NothingOrPreface(live, pending)
    requires STATIC_LEN + |live.dec.table| < TWO32
    ensures HandsOver(cb, live, pending) <==> live.discard == 0 && !live.expectPreface && CleanTable(live.dec.table)
  {
    hide Parse, ContinuesAlike, GoesOn, Sane;
    if live.discard > 0 {
      DiscardMatters(cb, live, pending);
    } else if live.expectPreface {
      PrefaceMatters(cb, live, pending);
    } else if !CleanTable(live.dec.table) {
      var f :| f in live.dec.table && (f.unknown || f.sensitive);
      var i :| 0 <= i < |live.dec.table| && live.dec.table[i] == f;
      FlagMatters(cb, live, pending, i);
    } else {
      ZeroShift(pending.NextSeq());
      forall cont | GoesOn(cb, live, pending.Append(cont)) ensures ContinuesAlike(cb, live, pending, pending.NextSeq(), [], cont) {
        HandoffFrom(cb, live, pending, pending.NextSeq(), [], cont);
      }
    }
  }

  lemma ZeroShift(s: u32)
    ensures WrappingAdd(s, 0) == s
  {
  }
}
