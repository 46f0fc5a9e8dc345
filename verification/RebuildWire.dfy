/** The rebuilt capture down to its bytes: the synthesized Ethernet frames, parsed and sorted
    by address and port, give every direction back to its reader. */
module RebuildWire {
  import opened Basics
  import opened HpackInt
  import HpackSpec
  import opened ReassemblySpec
  import opened ConnSpec
  import opened RebuildSpec
  import opened RebuildReadBack
  import opened RebuildPackets
  import opened RebuildTheorem
  import opened Pkt

  const WINDOW: u16 := 65535
  /** The longest payload for which IPv4's 16-bit length still holds the packet. */
  const MAX_PAYLOAD := 65_495

  /** The two directions' addresses of every connection. */
  type Ends = seq<(Endpoint, Endpoint)>

  function EndOf(eps: Ends, conn: nat, dir: Dir): Endpoint
    requires conn < |eps|
  {
    if dir == C2S then eps[conn].0 else eps[conn].1
  }

  /** Next IP identification by connection and direction; unset means zero. */
  type Ids = map<(nat, Dir), u16>

  function IdOf(ids: Ids, conn: nat, dir: Dir): u16 {
    if (conn, dir) in ids then ids[(conn, dir)] else 0
  }

  function NextId(id: u16): u16 {
    (id as int + 1) % 0x1_0000
  }

  /** The timestamped Ethernet frames written for the numbered packets. */
  function Wire(sent: seq<Sent>, eps: Ends, ids: Ids): seq<(nat, seq<byte>)> {
    if sent == [] then []
    else if sent[0].pkt.conn >= |eps| then Wire(sent[1..], eps, ids)
    else
      var p := sent[0].pkt;
      var id := IdOf(ids, p.conn, p.dir);
      [(p.ts, BuildTcpPacket(EndOf(eps, p.conn, p.dir), sent[0].seq_, sent[0].ack, p.flags, WINDOW, id, p.payload))]
      + Wire(sent[1..], eps, ids[(p.conn, p.dir) := NextId(id)])
  }

  /** How many of the first `n` packets belong to a direction. */
  function CountOf(sent: seq<Sent>, n: nat, conn: nat, dir: Dir): nat
    requires n <= |sent|
  {
    if n == 0 then 0 else (if Of(sent[0].pkt, conn, dir) then 1 else 0) + CountOf(sent[1..], n - 1, conn, dir)
  }

  /** The frame of the packet `x` with identification `id`. */
  function FrameFor(eps: Ends, x: Sent, id: u16): (nat, seq<byte>)
    requires x.pkt.conn < |eps|
  {
    (x.pkt.ts, BuildTcpPacket(EndOf(eps, x.pkt.conn, x.pkt.dir), x.seq_, x.ack, x.pkt.flags, WINDOW, id, x.pkt.payload))
  }

  /** Packet by packet: each is written with its own time, addresses, numbers and payload, and
      identified by how many of its direction went before it, modulo 2^16. */
  lemma {:induction false} FramesAre(sent: seq<Sent>, eps: Ends, ids: Ids, i: nat)
    requires i < |sent| && forall j :: 0 <= j < |sent| ==> sent[j].pkt.conn < |eps|
    ensures |Wire(sent, eps, ids)| == |sent|
    ensures var p := sent[i].pkt;
            Wire(sent, eps, ids)[i] == FrameFor(eps, sent[i], (IdOf(ids, p.conn, p.dir) as int + CountOf(sent, i, p.conn, p.dir)) % 0x1_0000)
    decreases |sent|
  {
    hide BuildTcpPacket, EndOf;
    var first := sent[0].pkt;
    var ids' := ids[(first.conn, first.dir) := NextId(IdOf(ids, first.conn, first.dir))];
    if i > 0 {
      FramesAre(sent[1..], eps, ids', i - 1);
    } else if |sent| > 1 {
      FramesAre(sent[1..], eps, ids', 0);
    }
  }

  // ----- reading a capture ------------------------------------------------------------------

  /** The segments of one direction in a capture. */
  function Hear(frames: seq<(nat, seq<byte>)>, ep: Endpoint): seq<(nat, TcpSegment)> {
    if frames == [] then []
    else
      var t := ParseEthernet(frames[0].1);
      (if t.Some? && Travels(t.value, ep) then [(frames[0].0, t.value)] else []) + Hear(frames[1..], ep)
  }

  /** What either program does with a segment: note a SYN, feed a payload. */
  function ListenOne(cb: Codebook, s: DirState, ts: nat, t: TcpSegment): (DirState, seq<ProcessedFrame>) {
    var s1 := if Bit(t.flags, SYN) then s.(r := s.r.NoteSyn(t.seq_)) else s;
    if t.payload == [] then (s1, []) else s1.Feed(cb, t.seq_, t.payload, ts)
  }

  function Listen(cb: Codebook, s: DirState, heard: seq<(nat, TcpSegment)>): (DirState, seq<ProcessedFrame>)
    decreases |heard|
  {
    if heard == [] then (s, [])
    else
      var (s1, out) := ListenOne(cb, s, heard[0].0, heard[0].1);
      var (s2, out') := Listen(cb, s1, heard[1..]);
      (s2, out + out')
  }

  // ----- what is heard is what was sent --------------------------------------------------------

  /** No two directions share their addresses and ports. */
  predicate Distinct(eps: Ends) {
    && (forall k, d: Dir :: 0 <= k < |eps| ==> EndOf(eps, k, d).Valid() && EndOf(eps, k, d).SameFamily())
    && (forall j, k, c: Dir, d: Dir :: 0 <= j < |eps| && 0 <= k < |eps| && (j, c) != (k, d) ==> !SameTuple(EndOf(eps, j, c), EndOf(eps, k, d)))
  }

  predicate SameTuple(a: Endpoint, b: Endpoint) {
    a.srcIp == b.srcIp && a.srcPort == b.srcPort && a.dstIp == b.dstIp && a.dstPort == b.dstPort
  }

  predicate Agrees(h: (nat, TcpSegment), g: Segment) {
    h.0 == g.pkt.ts && h.1.flags == g.pkt.flags && h.1.seq_ == g.seq_ && h.1.payload == g.pkt.payload
  }

  predicate AllAgree(heard: seq<(nat, TcpSegment)>, segs: seq<Segment>) {
    |heard| == |segs| && forall i :: 0 <= i < |heard| ==> Agrees(heard[i], segs[i])
  }

  /** Every packet belongs to a connection with addresses and fits an IP packet. */
  predicate Writable(p: OutPkt, n: nat) {
    p.conn < n && |p.payload| <= MAX_PAYLOAD
  }

  lemma OneFrame(eps: Ends, x: Sent, id: u16)
    requires Distinct(eps) && Writable(x.pkt, |eps|)
    ensures var ep := EndOf(eps, x.pkt.conn, x.pkt.dir);
            ParseEthernet(BuildTcpPacket(ep, x.seq_, x.ack, x.pkt.flags, WINDOW, id, x.pkt.payload))
            == Some(Expected(ep, x.seq_, x.ack, x.pkt.flags, x.pkt.payload))
  {
    hide ParseEthernet, BuildTcpPacket;
    var ep := EndOf(eps, x.pkt.conn, x.pkt.dir);
    PacketRoundTrip(ep, x.seq_, x.ack, x.pkt.flags, WINDOW, id, x.pkt.payload, []);
    var frame := BuildTcpPacket(ep, x.seq_, x.ack, x.pkt.flags, WINDOW, id, x.pkt.payload);
    assert frame + [] == frame;
  }

  lemma {:induction false} HeardAsSent(sent: seq<Sent>, eps: Ends, ids: Ids, k: nat, dir: Dir)
    requires Distinct(eps) && k < |eps|
    requires forall i :: 0 <= i < |sent| ==> Writable(sent[i].pkt, |eps|)
    ensures AllAgree(Hear(Wire(sent, eps, ids), EndOf(eps, k, dir)), SegmentsOf(sent, k, dir))
    decreases |sent|
  {
    hide ParseEthernet, BuildTcpPacket;
    if sent != [] {
      var p := sent[0].pkt;
      var id := IdOf(ids, p.conn, p.dir);
      OneFrame(eps, sent[0], id);
      HeardAsSent(sent[1..], eps, ids[(p.conn, p.dir) := NextId(id)], k, dir);
      var frames := Wire(sent, eps, ids);
      assert frames[1..] == Wire(sent[1..], eps, ids[(p.conn, p.dir) := NextId(id)]);
      if Of(p, k, dir) {
      } else {
        assert !SameTuple(EndOf(eps, p.conn, p.dir), EndOf(eps, k, dir));
      }
    }
  }

  lemma {:induction false} ListenAsReceived(cb: Codebook, s: DirState, heard: seq<(nat, TcpSegment)>, segs: seq<Segment>)
    requires AllAgree(heard, segs)
    ensures Listen(cb, s, heard) == Receive(cb, s, segs)
    decreases |heard|
  {
    hide DirState.Feed, ReasmState.NoteSyn;
    if heard != [] {
      assert Agrees(heard[0], segs[0]);
      var s1 := ReceiveOne(cb, s, segs[0]).0;
      ListenAsReceived(cb, s1, heard[1..], segs[1..]);
    }
  }

  // ----- every packet written fits --------------------------------------------------------------

  predicate Fits(pkts: seq<OutPkt>, n: nat, mss: nat) {
    forall p :: p in pkts ==> p.conn < n && |p.payload| <= mss
  }

  lemma {:induction false} ChunksFit(chunks: seq<seq<byte>>, ts: nat, conn: nat, dir: Dir, n: nat, mss: nat)
    requires forall c :: c in chunks ==> |c| <= mss
    ensures Fits(ChunkPkts(chunks, ts, conn, dir, n), conn + 1, mss)
  {
    if chunks != [] {
      ChunksFit(chunks[1..], ts, conn, dir, n + 1, mss);
    }
  }

  lemma FitsConcat(a: seq<OutPkt>, b: seq<OutPkt>, m: nat, n: nat, mss: nat)
    requires Fits(a, m, mss) && Fits(b, n, mss) && m <= n
    ensures Fits(a + b, n, mss)
  {
  }

  lemma {:induction false} DataFits(o: Out, mss: nat, conn: nat, dir: Dir, n: nat)
    requires mss > 0
    ensures Fits(DataPkts(o, mss, conn, dir, n), conn + 1, mss)
    decreases |o|
  {
    hide Fits, Chunks, ChunkPkts;
    if o == [] {
      NothingFits(conn + 1, mss);
    } else {
      var chunks := Chunks(o[0].1, mss);
      var first := ChunkPkts(chunks, o[0].0, conn, dir, n);
      ChunksFlatten(o[0].1, mss);
      ChunksFit(chunks, o[0].0, conn, dir, n, mss);
      DataFits(o[1..], mss, conn, dir, n + |first|);
      FitsConcat(first, DataPkts(o[1..], mss, conn, dir, n + |first|), conn + 1, conn + 1, mss);
    }
  }

  lemma NothingFits(n: nat, mss: nat)
    ensures Fits([], n, mss)
  {
  }

  lemma ConnFits(cs: Conn, conn: nat, mss: nat)
    requires mss > 0
    ensures Fits(ConnPkts(cs, conn, mss), conn + 1, mss)
  {
    var up := DataPkts(cs.Stream(C2S), mss, conn, C2S, 3);
    var down := DataPkts(cs.Stream(S2C), mss, conn, S2C, 3 + |up|);
    DataFits(cs.Stream(C2S), mss, conn, C2S, 3);
    DataFits(cs.Stream(S2C), mss, conn, S2C, 3 + |up|);
    hide DataPkts, Conn.Stream;
    var all := ConnPkts(cs, conn, mss);
    forall p | p in all ensures p.conn < conn + 1 && |p.payload| <= mss {
      assert p in up || p in down || (p.conn == conn && p.payload == []);
    }
  }

  lemma {:induction false} AllFit(conns: seq<Conn>, first: nat, mss: nat)
    requires mss > 0
    ensures Fits(AllPkts(conns, first, mss), first + |conns|, mss)
    decreases |conns|
  {
    hide Fits, ConnPkts;
    if conns == [] {
      NothingFits(first, mss);
    } else {
      ConnFits(conns[0], first, mss);
      AllFit(conns[1..], first + 1, mss);
      FitsConcat(ConnPkts(conns[0], first, mss), AllPkts(conns[1..], first + 1, mss), first + 1, first + |conns|, mss);
    }
  }

  lemma {:induction false} NumberKeepsPkts(pkts: seq<OutPkt>, next: Next)
    ensures forall i :: 0 <= i < |pkts| ==> Number(pkts, next)[i].pkt == pkts[i]
    decreases |pkts|
  {
    if pkts != [] {
      var p := pkts[0];
      NumberKeepsPkts(pkts[1..], next[(p.conn, p.dir) := WrappingAdd(NextSeq(next, p.conn, p.dir), p.Consumed())]);
    }
  }

  lemma SortFits(pkts: seq<OutPkt>, n: nat, mss: nat)
    requires Fits(pkts, n, mss)
    ensures Fits(Sort(pkts), n, mss)
  {
    SortIsSorted(pkts);
    forall p | p in Sort(pkts) ensures p in pkts {
      assert p in multiset(Sort(pkts));
    }
  }

  /** Every packet written carries at most one segment's worth of payload. */
  lemma AllWritable(rcs: seq<RecordedConn>, mss: nat)
    requires mss <= MAX_PAYLOAD
    ensures forall i :: 0 <= i < |WriteCapture(rcs, mss)| ==> Writable(WriteCapture(rcs, mss)[i].pkt, |rcs|)
  {
    hide Sort, Number, AllPkts;
    var m := if mss > 0 then mss else 1;
    var all := AllPkts(ToConns(rcs), 0, m);
    AllFit(ToConns(rcs), 0, m);
    SortFits(all, |rcs|, m);
    NumberKeepsPkts(Sort(all), map[]);
  }

  /** The rebuilt capture, byte for byte: whoever parses its Ethernet frames and listens to one
      direction's addresses and ports gets that direction's messages back, with no gap, nothing
      left over, and a dynamic table still empty. */
  lemma RebuiltCaptureReadsBack(cb: Codebook, rcs: seq<RecordedConn>, eps: Ends, mss: nat, k: nat, dir: Dir)
    requires mss <= MAX_PAYLOAD && |eps| == |rcs| && Distinct(eps)
    requires k < |rcs| && Timely(rcs[k].ToConn())
    requires forall f :: f in rcs[k].Frames(dir) ==> CarriableFrame(f)
    ensures var frames := Wire(WriteCapture(rcs, mss), eps, map[]);
            var (s, out) := Listen(cb, DirState(Reader(dir), NewReassembler()), Hear(frames, EndOf(eps, k, dir)));
            && Messages(out) == Messages(rcs[k].Frames(dir))
            && s.c.dec == HpackSpec.NewExact()
            && s.r.gaps == 0 && s.r.ooo == [] && s.r.win.avail == []
  {
    AllWritable(rcs, mss);
    hide WriteCapture, Wire, Hear, Listen, Receive, SegmentsOf, CarriableFrame, Timely;
    var sent := WriteCapture(rcs, mss);
    HeardAsSent(sent, eps, map[], k, dir);
    RebuildPreservesMeaning(cb, rcs, mss, k, dir);
    ListenAsReceived(cb, DirState(Reader(dir), NewReassembler()), Hear(Wire(sent, eps, map[]), EndOf(eps, k, dir)), SegmentsOf(sent, k, dir));
  }

  /** `write_pcap`: fill the packet list, sort it, number it, write it. */
  method WritePcap(rcs: seq<RecordedConn>, eps: Ends, mss: nat) returns (frames: seq<(nat, seq<byte>)>)
    ensures frames == Wire(WriteCapture(rcs, mss), eps, map[])
  {
    hide Sort, AllPkts, Number, Wire;
    var pkts := CollectLoop(ToConns(rcs), if mss > 0 then mss else 1);
    var sent := NumberLoop(Sort(pkts));
    frames := WireLoop(sent, eps);
  }

  /** The frames as the write loop makes them, with the identifications counted in place. */
  method WireLoop(sent: seq<Sent>, eps: Ends) returns (frames: seq<(nat, seq<byte>)>)
    ensures frames == Wire(sent, eps, map[])
  {
    hide BuildTcpPacket;
    frames := [];
    var ids: Ids := map[];
    for i := 0 to |sent|
      invariant frames + Wire(sent[i..], eps, ids) == Wire(sent, eps, map[])
    {
      var x := sent[i];
      var p := x.pkt;
      assert sent[i..][0] == x && sent[i..][1..] == sent[i + 1..];
      if p.conn < |eps| {
        var id := IdOf(ids, p.conn, p.dir);
        var frame := (p.ts, BuildTcpPacket(EndOf(eps, p.conn, p.dir), x.seq_, x.ack, p.flags, WINDOW, id, p.payload));
        ids := ids[(p.conn, p.dir) := NextId(id)];
        assert frames + ([frame] + Wire(sent[i + 1..], eps, ids)) == frames + [frame] + Wire(sent[i + 1..], eps, ids);
        frames := frames + [frame];
      }
    }
  }
}
