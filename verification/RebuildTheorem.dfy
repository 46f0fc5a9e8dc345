/** The rebuilt capture says what the original said: reassembled and parsed by a fresh
    direction, every direction of every connection yields the same messages in order. */
module RebuildTheorem {
  import opened Basics
  import opened HpackInt
  import HpackSpec
  import opened ReassemblySpec
  import opened Frame
  import opened ConnSpec
  import opened ConnSegmentation
  import opened ConnTwins
  import opened RebuildSpec
  import opened RebuildReadBack
  import opened RebuildPackets
  import opened Pkt

  // ----- what goes in -------------------------------------------------------------------

  /** The frames of a direction, each with the timestamp of the packet that completed it. */
  type Recorded = seq<(nat, ProcessedFrame)>

  function FramesOf(rec: Recorded): (fs: seq<ProcessedFrame>)
    ensures |fs| == |rec|
  {
    seq(|rec|, i requires 0 <= i < |rec| => rec[i].1)
  }

  function Stamp(ts: nat, chunks: seq<seq<byte>>): Out {
    seq(|chunks|, i requires 0 <= i < |chunks| => (ts, chunks[i]))
  }

  /** The output the rebuilder accumulates for a direction. */
  function Outputs(rec: Recorded): Out {
    if rec == [] then [] else Stamp(rec[0].0, EmitFrame(rec[0].1)) + Outputs(rec[1..])
  }

  lemma {:induction false} BytesConcat(a: Out, b: Out)
    ensures Bytes(a + b) == Bytes(a) + Bytes(b)
  {
    if a == [] {
      assert a + b == b;
    } else {
      assert (a + b)[1..] == a[1..] + b;
      BytesConcat(a[1..], b);
      assert a[0].1 + (Bytes(a[1..]) + Bytes(b)) == a[0].1 + Bytes(a[1..]) + Bytes(b);
    }
  }

  lemma {:induction false} BytesStamp(ts: nat, chunks: seq<seq<byte>>)
    ensures Bytes(Stamp(ts, chunks)) == Flatten(chunks)
    decreases |chunks|
  {
    if chunks != [] {
      BytesStamp(ts, chunks[1..]);
      assert Stamp(ts, chunks)[1..] == Stamp(ts, chunks[1..]);
    }
  }

  lemma {:induction false} BytesOutputs(rec: Recorded)
    ensures Bytes(Outputs(rec)) == Flatten(EmitAll(FramesOf(rec)))
    decreases |rec|
  {
    hide EmitFrame;
    if rec != [] {
      BytesOutputs(rec[1..]);
      BytesStamp(rec[0].0, EmitFrame(rec[0].1));
      BytesConcat(Stamp(rec[0].0, EmitFrame(rec[0].1)), Outputs(rec[1..]));
      assert FramesOf(rec)[1..] == FramesOf(rec[1..]);
      FlattenConcat(EmitFrame(rec[0].1), EmitAll(FramesOf(rec[1..])));
    }
  }

  // ----- the receiver ---------------------------------------------------------------------

  /** What either program does with a segment: note a SYN, feed a payload. */
  function ReceiveOne(cb: Codebook, s: DirState, g: Segment): (DirState, seq<ProcessedFrame>) {
    var s1 := if g.pkt.HasSyn() then s.(r := s.r.NoteSyn(g.seq_)) else s;
    if g.pkt.payload == [] then (s1, []) else s1.Feed(cb, g.seq_, g.pkt.payload, g.pkt.ts)
  }

  function Receive(cb: Codebook, s: DirState, gs: seq<Segment>): (DirState, seq<ProcessedFrame>)
    decreases |gs|
  {
    if gs == [] then (s, [])
    else
      var (s1, out) := ReceiveOne(cb, s, gs[0]);
      var (s2, out') := Receive(cb, s1, gs[1..]);
      (s2, out + out')
  }

  function Payloads(pkts: seq<OutPkt>): seq<byte> {
    if pkts == [] then [] else pkts[0].payload + Payloads(pkts[1..])
  }

  /** An in-order receiver that has parsed exactly `sofar`. */
  predicate UpTo(cb: Codebook, c0: Core, base: u32, sofar: seq<byte>, s: DirState, out: seq<ProcessedFrame>) {
    && s.r.initialized && s.r.ooo == [] && s.r.oooSince.None? && s.r.gaps == 0
    && s.r.nextSeq == WrappingAdd(base, |sofar|)
    && Parse(cb, c0, Window(base, 0, sofar)) == (s.c, s.r.win, out)
  }

  /** A segment without SYN that carries the next byte. */
  lemma ReceiveNext(cb: Codebook, c0: Core, base: u32, sofar: seq<byte>, s: DirState, out: seq<ProcessedFrame>, p: OutPkt)
    requires UpTo(cb, c0, base, sofar, s, out) && !p.HasSyn()
    requires InStep(c0, Parse(cb, c0, Window(base, 0, sofar + p.payload)).0)
    ensures var (s', out') := ReceiveOne(cb, s, Segment(p, WrappingAdd(base, |sofar|)));
            UpTo(cb, c0, base, sofar + p.payload, s', out + out')
  {
    hide Parse;
    if p.payload == [] {
      assert sofar + p.payload == sofar && out + [] == out;
    } else {
      InOrderPush(s.r, p.payload, p.ts);
      var w := Window(base, 0, sofar);
      assert w.Append(p.payload) == Window(base, 0, sofar + p.payload);
      InStepPrefix(cb, c0, w, p.payload);
      ParseAppend(cb, c0, w, p.payload);
      WrappingAddAssoc(base, |sofar|, |p.payload|);
    }
  }

  lemma {:induction false} ReceiveRun(cb: Codebook, c0: Core, base: u32, sofar: seq<byte>, s: DirState, out: seq<ProcessedFrame>, pkts: seq<OutPkt>)
    requires UpTo(cb, c0, base, sofar, s, out)
    requires forall p :: p in pkts ==> !p.HasSyn() && (p.HasFin() ==> p.payload == [])
    requires forall i :: 0 <= i < |pkts| - 1 ==> !pkts[i].HasFin()
    requires InStep(c0, Parse(cb, c0, Window(base, 0, sofar + Payloads(pkts))).0)
    ensures var (s', out') := Receive(cb, s, Consecutive(pkts, WrappingAdd(base, |sofar|)));
            UpTo(cb, c0, base, sofar + Payloads(pkts), s', out + out')
    decreases |pkts|
  {
    hide Parse, UpTo, ReceiveOne, OutPkt.HasSyn, OutPkt.HasFin;
    if pkts == [] {
      assert sofar + Payloads(pkts) == sofar && out + [] == out;
    } else {
      var p, rest := pkts[0], pkts[1..];
      var next := sofar + p.payload;
      assert next + Payloads(rest) == sofar + Payloads(pkts);
      var w := Window(base, 0, next);
      assert w.Append(Payloads(rest)) == Window(base, 0, sofar + Payloads(pkts));
      InStepPrefix(cb, c0, w, Payloads(rest));
      ReceiveNext(cb, c0, base, sofar, s, out, p);
      var (s1, out1) := ReceiveOne(cb, s, Segment(p, WrappingAdd(base, |sofar|)));
      if rest == [] {
        assert Consecutive(pkts, WrappingAdd(base, |sofar|))[1..] == [];
        assert out + (out1 + []) == out + out1 && Payloads(rest) == [];
        assert next + [] == next;
      } else {
        WrappingAddAssoc(base, |sofar|, |p.payload|);
        assert Consecutive(pkts, WrappingAdd(base, |sofar|))[1..] == Consecutive(rest, WrappingAdd(base, |next|));
        ReceiveRun(cb, c0, base, next, s1, out + out1, rest);
        var out2 := Receive(cb, s1, Consecutive(rest, WrappingAdd(base, |next|))).1;
        assert out + (out1 + out2) == out + out1 + out2;
      }
    }
  }

  // ----- the bytes of a direction -------------------------------------------------------------

  lemma {:induction false} PayloadsConcat(a: seq<OutPkt>, b: seq<OutPkt>)
    ensures Payloads(a + b) == Payloads(a) + Payloads(b)
  {
    if a == [] {
      assert a + b == b;
    } else {
      assert (a + b)[1..] == a[1..] + b;
      PayloadsConcat(a[1..], b);
      assert a[0].payload + (Payloads(a[1..]) + Payloads(b)) == a[0].payload + Payloads(a[1..]) + Payloads(b);
    }
  }

  /** Data packets have neither SYN nor FIN and carry their chunks. */
  predicate DataOnly(pkts: seq<OutPkt>) {
    forall p :: p in pkts ==> !p.HasSyn() && !p.HasFin()
  }

  lemma {:induction false} ChunkPayloads(chunks: seq<seq<byte>>, ts: nat, conn: nat, dir: Dir, n: nat)
    ensures Payloads(ChunkPkts(chunks, ts, conn, dir, n)) == Flatten(chunks)
    ensures DataOnly(ChunkPkts(chunks, ts, conn, dir, n))
  {
    if chunks != [] {
      ChunkPayloads(chunks[1..], ts, conn, dir, n + 1);
      var p := OutPkt(ts, 1, conn, n, dir, PSH + TCP_ACK, chunks[0]);
      assert !p.HasSyn() && !p.HasFin();
      hide OutPkt.HasSyn, OutPkt.HasFin;
      assert ChunkPkts(chunks, ts, conn, dir, n)[1..] == ChunkPkts(chunks[1..], ts, conn, dir, n + 1);
    }
  }

  lemma {:induction false} DataPayloads(o: Out, mss: nat, conn: nat, dir: Dir, n: nat)
    requires mss > 0
    ensures Payloads(DataPkts(o, mss, conn, dir, n)) == Bytes(o)
    ensures DataOnly(DataPkts(o, mss, conn, dir, n))
    decreases |o|
  {
    hide OutPkt.HasSyn, OutPkt.HasFin, Chunks, ChunkPkts, Payloads, Flatten;
    if o == [] {
      assert Payloads([]) == [] by { NoPayloads(); }
    } else {
      var chunks := Chunks(o[0].1, mss);
      var first := ChunkPkts(chunks, o[0].0, conn, dir, n);
      ChunksFlatten(o[0].1, mss);
      ChunkPayloads(chunks, o[0].0, conn, dir, n);
      DataPayloads(o[1..], mss, conn, dir, n + |first|);
      PayloadsConcat(first, DataPkts(o[1..], mss, conn, dir, n + |first|));
    }
  }

  lemma NoPayloads()
    ensures Payloads([]) == []
  {
  }

  /** A direction is a SYN, then packets that carry exactly its stream, the last with FIN. */
  lemma DirectionShape(cs: Conn, conn: nat, mss: nat, dir: Dir) returns (syn: OutPkt, rest: seq<OutPkt>)
    requires mss > 0
    ensures DirPkts(cs, conn, mss, dir) == [syn] + rest
    ensures syn.HasSyn() && syn.payload == [] && syn.Consumed() == 1
    ensures Payloads(rest) == Bytes(cs.Stream(dir))
    ensures forall p :: p in rest ==> !p.HasSyn() && (p.HasFin() ==> p.payload == [])
    ensures forall i :: 0 <= i < |rest| - 1 ==> !rest[i].HasFin()
  {
    hide DataPkts, Conn.Stream, Bytes, Payloads, DataOnly, OutPkt.HasSyn, OutPkt.HasFin;
    var up := DataPkts(cs.Stream(C2S), mss, conn, C2S, 3);
    var down := DataPkts(cs.Stream(S2C), mss, conn, S2C, 3 + |up|);
    var n, t1 := 3 + |up| + |down|, Max(cs.lastTs, cs.firstTs);
    ControlFlags(cs, conn, t1, n);
    if dir == C2S {
      syn := Control(cs.firstTs, 0, conn, 0, C2S, SYN);
      var ack, fin := Control(cs.firstTs, 0, conn, 2, C2S, TCP_ACK), Control(t1, 2, conn, n, C2S, FIN + TCP_ACK);
      rest := [ack] + up + [fin];
      assert [syn, ack] + up + [fin] == [syn] + rest;
      DataPayloads(cs.Stream(C2S), mss, conn, C2S, 3);
      AroundData(ack, up, fin);
    } else {
      syn := Control(cs.firstTs, 0, conn, 1, S2C, SYN + TCP_ACK);
      var fin := Control(t1, 2, conn, n + 1, S2C, FIN + TCP_ACK);
      rest := down + [fin];
      assert [syn] + down + [fin] == [syn] + rest;
      DataPayloads(cs.Stream(S2C), mss, conn, S2C, 3 + |up|);
      BeforeFin(down, fin);
    }
  }

  lemma ControlFlags(cs: Conn, conn: nat, t1: nat, n: nat)
    ensures Control(cs.firstTs, 0, conn, 0, C2S, SYN).Consumed() == 1 && Control(cs.firstTs, 0, conn, 1, S2C, SYN + TCP_ACK).Consumed() == 1
    ensures Control(cs.firstTs, 0, conn, 0, C2S, SYN).HasSyn() && Control(cs.firstTs, 0, conn, 1, S2C, SYN + TCP_ACK).HasSyn()
    ensures !Control(cs.firstTs, 0, conn, 2, C2S, TCP_ACK).HasSyn() && !Control(cs.firstTs, 0, conn, 2, C2S, TCP_ACK).HasFin()
    ensures !Control(t1, 2, conn, n, C2S, FIN + TCP_ACK).HasSyn() && !Control(t1, 2, conn, n + 1, S2C, FIN + TCP_ACK).HasSyn()
  {
  }

  lemma BeforeFin(data: seq<OutPkt>, fin: OutPkt)
    requires DataOnly(data) && !fin.HasSyn() && fin.payload == []
    ensures Payloads(data + [fin]) == Payloads(data)
    ensures forall p :: p in data + [fin] ==> !p.HasSyn() && (p.HasFin() ==> p.payload == [])
    ensures forall i :: 0 <= i < |data + [fin]| - 1 ==> !(data + [fin])[i].HasFin()
  {
    hide OutPkt.HasSyn, OutPkt.HasFin;
    PayloadsConcat(data, [fin]);
    assert [fin][1..] == [];
    assert Payloads([fin]) == [];
    assert Payloads(data) + [] == Payloads(data);
  }

  lemma AroundData(ack: OutPkt, data: seq<OutPkt>, fin: OutPkt)
    requires DataOnly(data) && !fin.HasSyn() && fin.payload == []
    requires !ack.HasSyn() && !ack.HasFin() && ack.payload == []
    ensures var all := [ack] + data + [fin];
            && Payloads(all) == Payloads(data)
            && (forall p :: p in all ==> !p.HasSyn() && (p.HasFin() ==> p.payload == []))
            && (forall i :: 0 <= i < |all| - 1 ==> !all[i].HasFin())
  {
    hide OutPkt.HasSyn, OutPkt.HasFin;
    BeforeFin([ack] + data, fin);
    assert ([ack] + data)[1..] == data;
    assert [] + Payloads(data) == Payloads(data);
  }

  // ----- reading a direction's bytes ------------------------------------------------------------

  lemma {:induction false} NothingEmitted(rec: Recorded)
    requires Outputs(rec) == []
    ensures Messages(FramesOf(rec)) == []
    decreases |rec|
  {
    if rec != [] {
      assert |EmitFrame(rec[0].1)| == |Stamp(rec[0].0, EmitFrame(rec[0].1))| == 0;
      NothingEmitted(rec[1..]);
      assert FramesOf(rec)[1..] == FramesOf(rec[1..]);
      assert FrameMessages(rec[0].1) == [];
    }
  }

  function Reader(dir: Dir): Core {
    FromConnectionStart(true, dir == C2S)
  }

  /** What reading `bytes` from a fresh start must give. */
  predicate ReadsAs(cb: Codebook, dir: Dir, base: u32, bytes: seq<byte>, expected: seq<Message>) {
    var (c, w, out) := Parse(cb, Reader(dir), Window(base, 0, bytes));
    InStep(Reader(dir), c) && w.avail == [] && c.dec == HpackSpec.NewExact() && Messages(out) == expected
  }

  lemma FramesRead(cb: Codebook, c: Core, w: Window, fs: seq<ProcessedFrame>)
    requires Ready(c) && c.dec == HpackSpec.NewExact() && w.avail == Flatten(EmitAll(fs))
    requires forall f :: f in fs ==> CarriableFrame(f)
    ensures var (c', w', out) := Parse(cb, c, w);
            InStep(c, c') && w'.avail == [] && c'.dec == HpackSpec.NewExact() && Messages(out) == Messages(fs)
  {
    hide EmitAll, CarriableFrame;
    assert w.avail == Flatten(EmitAll(fs)) + [];
    var out, c', w' := AllReadsBack(cb, c, w, fs, []);
    assert ParseStep(cb, c', w') == Stop(c', w');
    ParseOf(cb, c', w');
    assert out + [] == out;
  }

  lemma StreamRead(cb: Codebook, rec: Recorded, dir: Dir, base: u32, t0: nat)
    requires forall f :: f in FramesOf(rec) ==> CarriableFrame(f)
    ensures ReadsAs(cb, dir, base, Bytes(if dir == C2S then WithPreface(Outputs(rec), t0) else Outputs(rec)), Messages(FramesOf(rec)))
  {
    var fs := FramesOf(rec);
    BytesOutputs(rec);
    hide EmitAll, CarriableFrame, Outputs;
    var c0 := Reader(dir);
    if dir == S2C {
      FramesRead(cb, c0, Window(base, 0, Flatten(EmitAll(fs))), fs);
    } else if Outputs(rec) == [] {
      NothingEmitted(rec);
      var w := Window(base, 0, []);
      assert Bytes(WithPreface(Outputs(rec), t0)) == [];
      assert ParseStep(cb, c0, w) == Stop(c0, w);
      ParseOf(cb, c0, w);
    } else {
      var e := Flatten(EmitAll(fs));
      assert WithPreface(Outputs(rec), t0)[1..] == Outputs(rec);
      assert Bytes(WithPreface(Outputs(rec), t0)) == PREFACE + e;
      var w, w1, c1 := Window(base, 0, PREFACE + e), Window(base, |PREFACE|, e), c0.(expectPreface := false);
      PrefaceRead(cb, c0, w, e);
      FramesRead(cb, c1, w1, fs);
    }
  }

  lemma PrefaceRead(cb: Codebook, c: Core, w: Window, e: seq<byte>)
    requires c.expectPreface && !c.desynced && c.discard == 0 && c.pendingStartSeq.None? && w.avail == PREFACE + e
    ensures Parse(cb, c, w) == Parse(cb, c.(expectPreface := false), Window(w.base, w.off + |PREFACE|, e))
  {
    assert w.avail[|PREFACE|..] == e;
    assert ParseStep(cb, c, w) == Go(c.(expectPreface := false), Window(w.base, w.off + |PREFACE|, e), []);
    hide ParseStep;
    ParseOf(cb, c, w);
    var r := Parse(cb, c.(expectPreface := false), Window(w.base, w.off + |PREFACE|, e));
    assert [] + r.2 == r.2;
  }

  // ----- the theorem ---------------------------------------------------------------------------

  /** A connection as recorded, with the frames of its two directions. */
  datatype RecordedConn = RecordedConn(firstTs: nat, lastTs: nat, c2s: Recorded, s2c: Recorded) {
    function Frames(dir: Dir): seq<ProcessedFrame> {
      FramesOf(if dir == C2S then c2s else s2c)
    }

    function ToConn(): Conn {
      Conn(firstTs, lastTs, Outputs(c2s), Outputs(s2c))
    }
  }

  function ToConns(rcs: seq<RecordedConn>): (r: seq<Conn>)
    ensures |r| == |rcs|
  {
    seq(|rcs|, i requires 0 <= i < |rcs| => rcs[i].ToConn())
  }

  /** The whole capture as written: every connection's packets, sorted and numbered. */
  function WriteCapture(rcs: seq<RecordedConn>, mss: nat): seq<Sent> {
    Number(Sort(AllPkts(ToConns(rcs), 0, if mss > 0 then mss else 1)), map[])
  }

  lemma DirectionReceived(cb: Codebook, cs: Conn, conn: nat, mss: nat, dir: Dir, expected: seq<Message>)
    requires mss > 0 && ReadsAs(cb, dir, WrappingAdd(Isn(dir), 1), Bytes(cs.Stream(dir)), expected)
    ensures var (s, out) := Receive(cb, DirState(Reader(dir), NewReassembler()), Consecutive(DirPkts(cs, conn, mss, dir), Isn(dir)));
            && Messages(out) == expected
            && s.c.dec == HpackSpec.NewExact()
            && s.r.gaps == 0 && s.r.ooo == [] && s.r.win.avail == []
  {
    var syn, rest := DirectionShape(cs, conn, mss, dir);
    hide DirPkts, Conn.Stream, Bytes, Payloads, OutPkt.HasFin;
    var base := WrappingAdd(Isn(dir), 1);
    var s0 := DirState(Reader(dir), NewReassembler());
    var s1 := DirState(Reader(dir), NewReassembler().NoteSyn(Isn(dir)));
    var segs := Consecutive([syn] + rest, Isn(dir));
    assert ([syn] + rest)[1..] == rest;
    assert segs[1..] == Consecutive(rest, base);
    assert ReceiveOne(cb, s0, segs[0]) == (s1, []);
    StartsUpTo(cb, dir, s1);
    hide UpTo, Parse;
    assert [] + Payloads(rest) == Payloads(rest);
    ReceiveRun(cb, Reader(dir), base, [], s1, [], rest);
    var (s, out) := Receive(cb, s1, Consecutive(rest, base));
    assert WrappingAdd(base, 0) == base;
    assert [] + out == out;
    UpToMeans(cb, Reader(dir), base, Payloads(rest), s, out);
  }

  lemma StartsUpTo(cb: Codebook, dir: Dir, s: DirState)
    requires s == DirState(Reader(dir), NewReassembler().NoteSyn(Isn(dir)))
    ensures UpTo(cb, Reader(dir), WrappingAdd(Isn(dir), 1), [], s, [])
  {
    assert ParseStep(cb, s.c, s.r.win) == Stop(s.c, s.r.win);
    ParseOf(cb, s.c, s.r.win);
  }

  lemma UpToMeans(cb: Codebook, c0: Core, base: u32, sofar: seq<byte>, s: DirState, out: seq<ProcessedFrame>)
    requires UpTo(cb, c0, base, sofar, s, out)
    ensures Parse(cb, c0, Window(base, 0, sofar)) == (s.c, s.r.win, out) && s.r.gaps == 0 && s.r.ooo == []
  {
  }

  /** Rebuilding preserves meaning. For every direction of every timely connection in the
      capture, a fresh from-start direction that receives its packets, in the order and with
      the sequence numbers written, gets exactly the messages of the original frames in their
      order, with no gap, nothing left over, and a dynamic table still empty. */
  lemma RebuildPreservesMeaning(cb: Codebook, rcs: seq<RecordedConn>, mss: nat, k: nat, dir: Dir)
    requires k < |rcs| && Timely(rcs[k].ToConn())
    requires forall f :: f in rcs[k].Frames(dir) ==> CarriableFrame(f)
    ensures var (s, out) := Receive(cb, DirState(Reader(dir), NewReassembler()), SegmentsOf(WriteCapture(rcs, mss), k, dir));
            && Messages(out) == Messages(rcs[k].Frames(dir))
            && s.c.dec == HpackSpec.NewExact()
            && s.r.gaps == 0 && s.r.ooo == [] && s.r.win.avail == []
  {
    var m := if mss > 0 then mss else 1;
    var conns := ToConns(rcs);
    var cs := rcs[k].ToConn();
    StreamRead(cb, if dir == C2S then rcs[k].c2s else rcs[k].s2c, dir, WrappingAdd(Isn(dir), 1), cs.firstTs);
    hide Receive, Outputs, Bytes, ReadsAs, Sort, Number, AllPkts, SegmentsOf, Timely, CarriableFrame;
    DirectionInOrder(conns, m, k, dir);
    DirectionReceived(cb, cs, k, m, dir, Messages(rcs[k].Frames(dir)));
  }
}
