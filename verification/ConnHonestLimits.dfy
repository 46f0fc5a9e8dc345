/** Where a direction does show a wrong header: a header frame too long to buffer, and a frame
    boundary that only looks like one. And exactly when it does not. */
module ConnHonestLimits {
  import opened Basics
  import opened HpackInt
  import opened HpackTable
  import HpackSpec
  import opened HpackReference
  import opened HpackNeverWrong
  import opened HpackSnapshot
  import opened ReassemblySpec
  import opened Frame
  import opened ConnSpec
  import opened ConnSegmentation
  import opened ConnTwins
  import opened ConnBoundary
  import opened ConnHandoffExact
  import opened ConnHonest

  // ----- a header frame too long to buffer ------------------------------------------------------

  /** The frame at the front carries part of a header block and is too long to buffer, and all there. */
  predicate Oversize(b: seq<byte>) {
    |b| >= FRAME_HEADER_LEN && HeaderOf(b).IsHeaderFrame() && HeaderOf(b).len > MAX_BUFFERED_FRAME && |b| >= HeaderOf(b).TotalLen()
  }

  /** It is dropped: no poisoning, no reset, and a block left open stays as it was. The peer goes
      on with another table, and from then on the direction is honest on every block the peer
      accepts if and only if our table agrees with that one. */
  lemma DroppedBlockExactly(cb: Codebook, c: Core, w: Window, q: PeerDir)
    requires AtFrame(c) && Oversize(w.avail) && (c.dec.overLimit ==> c.dec.table == [])
    requires var h := HeaderOf(w.avail); PeerFrame(cb, q, h, w.avail[FRAME_HEADER_LEN..h.TotalLen()]).Some?
    requires var h := HeaderOf(w.avail);
             STATIC_LEN + |PeerFrame(cb, q, h, w.avail[FRAME_HEADER_LEN..h.TotalLen()]).value.0.peer.table| < TWO32
    ensures var h, c1 := HeaderOf(w.avail), c.(frames := c.frames + 1);
            var p := PeerFrame(cb, q, h, w.avail[FRAME_HEADER_LEN..h.TotalLen()]).value.0.peer;
            var (c2, w2, out) := Parse(cb, c1, w.Consume(h.TotalLen()));
            && Parse(cb, c, w) == (c2, w2, [Dropped(h, w)] + out)
            && (HonestOnAll(cb, c1.dec, p) <==> Agree(c.dec.table, p.table))
  {
    hide PeerFrame, Parse, HonestOnAll, Agree;
    SkippedFrame(cb, c, w);
    var h := HeaderOf(w.avail);
    HonestExactly(cb, c.dec, PeerFrame(cb, q, h, w.avail[FRAME_HEADER_LEN..h.TotalLen()]).value.0.peer);
  }

  /** A whole block in one frame, then a reference to entry `i`. */
  function ThenIndex(big: seq<byte>, i: nat): seq<byte> {
    BuildFrame(HEADERS, END_HEADERS, 1, big) + IndexFrame(i)
  }

  lemma FrontFrame(payload: seq<byte>, rest: seq<byte>)
    requires |payload| < 0x100_0000
    ensures var b, h := BuildFrame(HEADERS, END_HEADERS, 1, payload) + rest, FrameHeader(|payload|, HEADERS, END_HEADERS, 1);
            && |b| >= h.TotalLen() && HeaderOf(b) == h && b[FRAME_HEADER_LEN..h.TotalLen()] == payload && b[h.TotalLen()..] == rest
  {
    hide ParseHeader, FrameHeader.Write;
    var h := FrameHeader(|payload|, HEADERS, END_HEADERS, 1);
    assert BuildFrame(HEADERS, END_HEADERS, 1, payload) + rest == h.Write() + (payload + rest);
    HeaderRoundTrip(h, payload + rest);
  }

  /** A complete block in one frame, on the peer's side. */
  lemma PeerTakes(cb: Codebook, p: Peer, payload: seq<byte>, rest: seq<byte>)
    requires |payload| < 0x100_0000 && p.Decode(cb, payload).Some?
    ensures var (p', fields) := p.Decode(cb, payload).value;
            PeerReads(cb, PeerDir(p, None, []), BuildFrame(HEADERS, END_HEADERS, 1, payload) + rest) ==
              match PeerReads(cb, PeerDir(p', None, []), rest)
              case None => None
              case Some((q, tail, lists)) => Some((q, tail, [fields] + lists))
  {
    hide Peer.Decode, BuildFrame, PeerFrame, PeerReads;
    FrontFrame(payload, rest);
    var b := BuildFrame(HEADERS, END_HEADERS, 1, payload) + rest;
    PeerBlock(cb, p, payload);
    PeerReadsOne(cb, PeerDir(p, None, []), b);
  }

  lemma PeerReadsOne(cb: Codebook, q: PeerDir, b: seq<byte>)
    requires |b| >= FRAME_HEADER_LEN && |b| >= HeaderOf(b).TotalLen()
    requires PeerFrame(cb, q, HeaderOf(b), b[FRAME_HEADER_LEN..HeaderOf(b).TotalLen()]).Some?
    ensures var n := HeaderOf(b).TotalLen();
            var (q', done) := PeerFrame(cb, q, HeaderOf(b), b[FRAME_HEADER_LEN..n]).value;
            PeerReads(cb, q, b) ==
              match PeerReads(cb, q', b[n..])
              case None => None
              case Some((q'', tail, lists)) => Some((q'', tail, (if done.Some? then [done.value] else []) + lists))
  {
    hide PeerFrame;
  }

  lemma PeerBlock(cb: Codebook, p: Peer, payload: seq<byte>)
    requires |payload| < 0x100_0000 && p.Decode(cb, payload).Some?
    ensures var (p', fields) := p.Decode(cb, payload).value;
            PeerFrame(cb, PeerDir(p, None, []), FrameHeader(|payload|, HEADERS, END_HEADERS, 1), payload)
            == Some((PeerDir(p', None, []), Some(fields)))
  {
    hide Peer.Decode;
    var h := FrameHeader(|payload|, HEADERS, END_HEADERS, 1);
    assert !h.Has(PADDED) && !h.Has(HAS_PRIORITY) && h.Has(END_HEADERS);
    assert payload[0..] == payload && payload[..|payload| - 0] == payload;
    assert HeaderBlockFragment(h, payload) == Some(payload);
  }

  /** After a dropped block that changed the peer's entry `i`, a reference to it is shown as our
      old entry, neither flagged nor poisoned. */
  lemma OversizeMisleads(cb: Codebook, c: Core, w: Window, p: Peer, big: seq<byte>, i: nat)
    requires BetweenBlocks(c) && MAX_BUFFERED_FRAME < |big| < 0x100_0000 && w.avail == ThenIndex(big, i)
    requires p.Decode(cb, big).Some? && STATIC_LEN + 1 + i < TWO32
    requires var p' := p.Decode(cb, big).value.0;
             i < |c.dec.table| && i < |p'.table| && !FieldAgrees(c.dec.table[i], p'.table[i])
    ensures var (c', _, out) := Parse(cb, c, w);
            var r := PeerReads(cb, PeerDir(p, None, []), w.avail);
            && c'.poisoned == c.poisoned && c'.dec == c.dec
            && r.Some? && !AllRight(Completed(out), r.value.2, false)
  {
    hide Parse, Peer.Decode, IndexFrame, BuildFrame, PeerReads, BetweenBlocks, Completed, AllRight;
    var (p', fields) := p.Decode(cb, big).value;
    OversizeParsed(cb, c, w, big, i);
    PeerTakes(cb, p, big, IndexFrame(i));
    PeersReference(cb, p', i);
    var shown := Completed(Parse(cb, c, w).2);
    ShownWrong(shown[1], c.dec.table[i], p'.table[i], shown, [fields] + [[p'.table[i]]]);
  }

  /** What we make of the two frames: nothing of the first, our own entry of the second. */
  lemma OversizeParsed(cb: Codebook, c: Core, w: Window, big: seq<byte>, i: nat)
    requires BetweenBlocks(c) && MAX_BUFFERED_FRAME < |big| < 0x100_0000 && w.avail == ThenIndex(big, i)
    requires i < |c.dec.table| && STATIC_LEN + 1 + i < TWO32
    ensures var (c', _, out) := Parse(cb, c, w);
            var shown := Completed(out);
            && c'.poisoned == c.poisoned && c'.dec == c.dec
            && |shown| == 2 && shown[0] == None && shown[1].Some? && shown[1].value.fields == [c.dec.table[i]]
  {
    hide Parse, IndexFrame, BuildFrame, Window.NextSeq;
    var h, c1 := FrameHeader(|big|, HEADERS, END_HEADERS, 1), c.(frames := c.frames + 1);
    FrontFrame(big, IndexFrame(i));
    SkippedFrame(cb, c, w);
    var w1 := w.Consume(h.TotalLen());
    IndexFrameReads(cb, c1, w1, i);
    var out := Parse(cb, c1, w1).2;
    assert out == [out[0]] + [];
    CompletedOne(Dropped(h, w), out);
    CompletedOne(out[0], []);
  }

  lemma ShownWrong(shown: Option<DecodedBlock>, ours: Field, theirs: Field, all: seq<Option<DecodedBlock>>, lists: seq<seq<Field>>)
    requires shown.Some? && shown.value.fields == [ours] && !FieldAgrees(ours, theirs)
    requires |all| == 2 && all[1] == shown && |lists| == 2 && lists[1] == [theirs]
    ensures !AllRight(all, lists, false)
  {
    assert !FieldAgrees([ours][0], [theirs][0]);
  }

  lemma PeersReference(cb: Codebook, p: Peer, i: nat)
    requires i < |p.table| && STATIC_LEN + 1 + i < TWO32
    ensures PeerReads(cb, PeerDir(p, None, []), IndexFrame(i)) == Some((PeerDir(p, None, []), [], [[p.table[i]]]))
  {
    IndexBlockShort(i);
    PeersEntry(cb, p, i);
    hide IndexBlock, Peer.Decode;
    PeerTakes(cb, p, IndexBlock(i), []);
    assert IndexFrame(i) + [] == IndexFrame(i);
    assert PeerReads(cb, PeerDir(p, None, []), []) == Some((PeerDir(p, None, []), [], []));
    assert [[p.table[i]]] + [] == [[p.table[i]]];
  }

  /** There are such blocks: a value of a million bytes, and one insertion. */
  function Literally(first: byte, value: seq<byte>): seq<byte> {
    [first] + WriteString([]) + WriteString(value)
  }

  function Zeros(n: nat): seq<byte> {
    seq(n, _ => 0)
  }

  function HugeBlock(): seq<byte> {
    Literally(0x00, Zeros(MAX_BUFFERED_FRAME)) + Literally(0x40, [2])
  }

  lemma LiteralReads(cb: Codebook, first: byte, value: seq<byte>, rest: seq<byte>)
    requires (first == 0x00 || first == 0x40) && |value| < TWO32
    ensures ReadRep(cb, Literally(first, value) + rest)
         == Ok((Literal(if first == 0x40 then Indexing else Plain, 0, [], value), rest))
  {
    hide ReadString, WriteString;
    var b := Literally(first, value) + rest;
    var tail := WriteString([]) + (WriteString(value) + rest);
    assert b == [first] + tail && b[0] == first && b[1..] == tail;
    StringRoundTrip(cb, [], WriteString(value) + rest);
    StringRoundTrip(cb, value, rest);
    assert Pow2(35) == 0x8_0000_0000 by { Pow2Values(); }
    assert Pow2(4) == 16 && Pow2(6) == 64;
    assert ReadInt(b, if first == 0x40 then 6 else 4) == Ok((0, tail));
  }

  lemma HugeBlockInserts(cb: Codebook, p: Peer)
    ensures var r := p.Decode(cb, HugeBlock());
            r.Some? && r.value.0 == p.Insert(Field([], [2], false, false))
  {
    var z, b := Zeros(MAX_BUFFERED_FRAME), Literally(0x40, [2]);
    LiteralReads(cb, 0x00, z, b);
    LiteralReads(cb, 0x40, [2], []);
    hide ReadRep, Literally, Zeros, Peer.Insert;
    assert b + [] == b;
    LiterallySome(0x40, [2]);
    LiterallySome(0x00, z);
    var q := p.Insert(Field([], [2], false, false));
    assert q.Decode(cb, []) == Some((q, []));
    assert p.Decode(cb, b) == Some((q, [Field([], [2], false, false)])) by { assert [Field([], [2], false, false)] + [] == [Field([], [2], false, false)]; }
    assert p.Apply(cb, Literal(Plain, 0, [], z)) == Some((p, [Field([], z, false, false)]));
  }

  lemma LiterallySome(first: byte, value: seq<byte>)
    ensures Literally(first, value) != [] && forall rest :: Literally(first, value) + rest != []
  {
  }

  lemma HugeBlockLength()
    ensures MAX_BUFFERED_FRAME < |HugeBlock()| < 0x100_0000
  {
    hide WriteInt;
    var z := Zeros(MAX_BUFFERED_FRAME);
    assert Pow2(7) == 128;
    ShortInt(0);
    ShortInt(1);
    ShortInt(MAX_BUFFERED_FRAME);
    assert |WriteString([])| == |WriteInt(0, 7, 0)| && |WriteString([2])| == |WriteInt(1, 7, 0)| + 1;
    assert |WriteString(z)| == |WriteInt(MAX_BUFFERED_FRAME, 7, 0)| + MAX_BUFFERED_FRAME;
  }

  lemma ShortInt(v: nat)
    requires v < TWO32
    ensures 1 <= |WriteInt(v, 7, 0)| <= 6
  {
    assert Pow2(7) == 128;
    assert Pow2(35) == 0x8_0000_0000 by { Pow2Values(); }
    if v >= 127 { GroupsShort(v - 127, 5); }
  }

  /** A direction the daemon trusts: from its first byte, exact, its table the peer's. */
  function Trusted(keepPayloads: bool): Core {
    FromConnectionStart(keepPayloads, false).(dec := HpackSpec.NewExact().(table := [Field([], [1], false, false)]))
  }

  /** It shows a header the peer never sent: after a header frame of more than a million bytes that
      inserts one entry, the next reference to the newest entry is shown as the one before it. */
  lemma HugeFrameMisleads(cb: Codebook, keepPayloads: bool, w: Window)
    requires w.avail == ThenIndex(HugeBlock(), 0)
    ensures var c, p := Trusted(keepPayloads), Peer(Trusted(keepPayloads).dec.table, DEFAULT_TABLE_SIZE);
            var (c', _, out) := Parse(cb, c, w);
            var r := PeerReads(cb, PeerDir(p, None, []), w.avail);
            && c.IsSnapshottable() && !c'.poisoned && c'.dec == c.dec
            && r.Some? && !AllRight(Completed(out), r.value.2, false)
  {
    var x, a := Field([], [1], false, false), Field([], [2], false, false);
    var p := Peer([x], DEFAULT_TABLE_SIZE);
    HugeBlockInserts(cb, p);
    HugeBlockLength();
    assert [a] + [x] == [a, x] && [a, x][1..] == [x] && [x][1..] == [];
    assert Fit([x], DEFAULT_TABLE_SIZE - 33) == [x];
    assert Fit([a, x], DEFAULT_TABLE_SIZE) == [a, x];
    assert p.Insert(a).table == [a, x];
    hide Parse, PeerReads, Peer.Decode, HugeBlock, ThenIndex, AllRight;
    OversizeMisleads(cb, Trusted(keepPayloads), w, p, HugeBlock(), 0);
  }

  // ----- a boundary that only looks like one ---------------------------------------------------------

  /** Resync adopts offset `k` if and only if the chain check rejects every offset before it and
      accepts it: a real boundary, then, exactly when nothing before it looks like one and two
      frames are there to vouch for it. */
  lemma AdoptsExactly(c: Core, w: Window, k: nat)
    requires k <= |w.avail|
    ensures Adopts(w, k) <==>
              && k + FRAME_HEADER_LEN <= |w.avail| && CheckFrameChain(w.avail[k..], 4, 2).ChainOk?
              && forall j :: 0 <= j < k ==> CheckFrameChain(w.avail[j..], 4, 2).ChainBad?
    ensures TryResync(c, w).2 && TryResync(c, w).1 == w.Consume(k) <==> Adopts(w, k)
  {
    hide CheckFrameChain;
    ScanFindsLeast(w.avail, 0);
    var found := Scan(w.avail, 0);
    if found.Some? && found.value.0 != k && found.value.0 <= |w.avail| {
      assert w.Consume(found.value.0).off != w.Consume(k).off;
    }
  }

  /** Bytes of a body that read as a HEADERS frame with one static reference, and a PING. */
  const LOOKALIKE: seq<byte> :=
    [0, 0, 1, 1, 4, 0, 0, 0, 1, 0x82, 0, 0, 8, 6, 0, 0, 0, 0, 0, 0, 0, 0, 0, 0, 0, 0, 0]

  lemma LookalikeReads()
    ensures ParseHeader(LOOKALIKE) == Some(FrameHeader(1, HEADERS, END_HEADERS, 1))
    ensures ParseHeader(LOOKALIKE[10..]) == Some(FrameHeader(8, PING, 0, 0))
  {
  }

  lemma LookalikePasses(w: Window)
    requires w.avail == LOOKALIKE
    ensures Adopts(w, 0)
  {
    LookalikeReads();
    hide ParseHeader;
    assert LOOKALIKE[0..] == LOOKALIKE;
    assert |LOOKALIKE| == 27;
    assert WalkChain(LOOKALIKE, 27, 2, 4, 2) == ChainOk;
    assert WalkChain(LOOKALIKE, 10, 1, 4, 2) == ChainOk;
    assert CheckFrameChain(LOOKALIKE, 4, 2) == ChainOk;
  }

  lemma StaticReference(cb: Codebook, d: HpackSpec.DecState)
    ensures HpackSpec.Decode(cb, d, [0x82]) == (d, Ok([Field(cb.fixed[1].0, cb.fixed[1].1, false, false)]))
  {
    assert Pow2(7) == 128;
    assert ReadInt([0x82], 7) == Ok((2, []));
    var f := Field(cb.fixed[1].0, cb.fixed[1].1, false, false);
    assert HpackSpec.DecodeStep(cb, d, [0x82]) == (d, Ok(([f], [])));
    assert HpackSpec.Decode(cb, d, []) == (d, Ok([]));
    assert [f] + [] == [f];
  }

  lemma LookalikeHandled(cb: Codebook, c: Core, w: Window)
    requires BetweenBlocks(c)
    ensures var f := c.HandleFrame(cb, FrameHeader(1, HEADERS, END_HEADERS, 1), [0x82], w).1;
            && f.isHeaderFrame && f.hdr.Has(END_HEADERS)
            && f.decoded.Some? && f.decoded.value.fields == [Field(cb.fixed[1].0, cb.fixed[1].1, false, false)]
  {
    StaticReference(cb, c.dec);
    hide HpackSpec.Decode, StreamsAfter, KindOf;
    var h, b: seq<byte> := FrameHeader(1, HEADERS, END_HEADERS, 1), [0x82];
    assert !h.Has(PADDED) && !h.Has(HAS_PRIORITY) && h.Has(END_HEADERS);
    assert b[0..] == b && b[..|b| - 0] == b && [] + b == b;
    assert HeaderBlockFragment(h, b) == Some(b);
  }

  /** A direction that lost its boundary inside a body of such bytes shows a header list where the
      peer sent none. */
  lemma LookalikeMisleads(cb: Codebook, c: Core, w: Window, q: PeerDir, lost: seq<byte>)
    requires c.desynced && c.discard == 0 && c.pendingStartSeq.None? && !c.expectPreface
    requires c.blockHdr.None? && c.block == [] && c.blockPromised.None?
    requires w.avail == LOOKALIKE && |lost| < 0x10_0000
    ensures var stream := BuildFrame(DATA, 0, 1, lost + LOOKALIKE);
            var out := Parse(cb, c, w).2;
            && PeerReads(cb, q, stream) == Some((q, [], []))
            && Completed(out) != [] && Completed(out)[0].Some?
            && Completed(out)[0].value.fields == [Field(cb.fixed[1].0, cb.fixed[1].1, false, false)]
  {
    hide Parse, Scan, PeerReads, BuildFrame, Completed;
    var c1 := c.(desynced := false, resyncs := c.resyncs + 1);
    LookalikePasses(w);
    BodyReads(cb, q, lost + LOOKALIKE);
    assert w.Consume(0) == w;
    assert ParseStep(cb, c, w) == Go(c1, w, []);
    hide ParseStep;
    ParseOf(cb, c, w);
    LookalikeTaken(cb, c1, w);
    var r := Parse(cb, c1, w);
    assert [] + r.2 == r.2;
  }

  lemma LookalikeTaken(cb: Codebook, c: Core, w: Window)
    requires BetweenBlocks(c) && w.avail == LOOKALIKE
    ensures var out := Parse(cb, c, w).2;
            && Completed(out) != [] && Completed(out)[0].Some?
            && Completed(out)[0].value.fields == [Field(cb.fixed[1].0, cb.fixed[1].1, false, false)]
  {
    LookalikeReads();
    hide Parse, ParseHeader, Core.HandleFrame, Completed;
    assert w.avail[FRAME_HEADER_LEN..10] == [0x82];
    LookalikeHandled(cb, c.(frames := c.frames + 1), w);
    var c2, f := TakenFrame(cb, c, w);
    CompletedOne(f, Parse(cb, c2, w.Consume(10)).2);
  }

  /** On the peer's side a body is a body. */
  lemma BodyReads(cb: Codebook, q: PeerDir, body: seq<byte>)
    requires |body| < 0x100_0000
    ensures PeerReads(cb, q, BuildFrame(DATA, 0, 1, body)) == Some((q, [], []))
  {
    hide ParseHeader, FrameHeader.Write;
    var b, h := BuildFrame(DATA, 0, 1, body), FrameHeader(|body|, DATA, 0, 1);
    HeaderRoundTrip(h, body);
    assert b == h.Write() + body && HeaderOf(b) == h;
    assert b[h.TotalLen()..] == [];
    OtherFrame(cb, q, h, b[FRAME_HEADER_LEN..h.TotalLen()]);
    PeerReadsOne(cb, q, b);
    var none: seq<seq<Field>> := [];
    assert none + none == none;
  }
}
