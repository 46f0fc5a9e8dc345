/** The rebuilt capture as TCP: each connection opens with a handshake, closes on both sides,
    and nobody acknowledges what has not been sent. */
module RebuildConversation {
  import opened Basics
  import opened Pkt
  import opened RebuildPackets

  // ----- one direction ----------------------------------------------------------------------

  /** A packet that neither opens nor closes its direction; it pushes what it carries. */
  predicate Plain(p: OutPkt) {
    !p.HasSyn() && !p.HasFin() && p.HasAck() && (p.payload != [] ==> Bit(p.flags, PSH))
  }

  /** Opened by a SYN, which acknowledges only on the server's side; closed by a FIN; plain between. */
  predicate WellFormed(s: seq<OutPkt>, dir: Dir) {
    && |s| >= 2
    && s[0].HasSyn() && !s[0].HasFin() && (s[0].HasAck() <==> dir == S2C) && s[0].payload == []
    && (forall i :: 0 < i < |s| - 1 ==> Plain(s[i]))
    && s[|s| - 1].HasFin() && !s[|s| - 1].HasSyn() && s[|s| - 1].HasAck() && s[|s| - 1].payload == []
  }

  lemma {:induction false} ChunksPlain(chunks: seq<seq<byte>>, ts: nat, conn: nat, dir: Dir, n: nat)
    ensures forall p :: p in ChunkPkts(chunks, ts, conn, dir, n) ==> Plain(p)
  {
    if chunks != [] { ChunksPlain(chunks[1..], ts, conn, dir, n + 1); }
  }

  lemma {:induction false} DataPlain(o: Out, mss: nat, conn: nat, dir: Dir, n: nat)
    requires mss > 0
    ensures forall p :: p in DataPkts(o, mss, conn, dir, n) ==> Plain(p)
    decreases |o|
  {
    hide Plain, ChunkPkts, Chunks;
    if o != [] {
      var chunks := Chunks(o[0].1, mss);
      ChunksPlain(chunks, o[0].0, conn, dir, n);
      DataPlain(o[1..], mss, conn, dir, n + |ChunkPkts(chunks, o[0].0, conn, dir, n)|);
    }
  }

  lemma Framed(open: seq<OutPkt>, data: seq<OutPkt>, fin: OutPkt, dir: Dir)
    requires open != [] && open[0].HasSyn() && !open[0].HasFin() && (open[0].HasAck() <==> dir == S2C) && open[0].payload == []
    requires forall i :: 0 < i < |open| ==> Plain(open[i])
    requires forall p :: p in data ==> Plain(p)
    requires fin.HasFin() && !fin.HasSyn() && fin.HasAck() && fin.payload == []
    ensures WellFormed(open + data + [fin], dir)
  {
    hide Plain, OutPkt.HasSyn, OutPkt.HasFin, OutPkt.HasAck;
    var s := open + data + [fin];
    forall i | 0 < i < |s| - 1 ensures Plain(s[i]) {
      if i < |open| {
        assert s[i] == open[i];
      } else {
        assert s[i] == data[i - |open|];
      }
    }
  }

  /** Whatever the connection says and however it is cut. */
  lemma DirectionIsWellFormed(cs: Conn, conn: nat, mss: nat, dir: Dir)
    requires mss > 0
    ensures WellFormed(DirPkts(cs, conn, mss, dir), dir)
  {
    hide DataPkts, WellFormed, Conn.Stream;
    var up := DataPkts(cs.Stream(C2S), mss, conn, C2S, 3);
    var down := DataPkts(cs.Stream(S2C), mss, conn, S2C, 3 + |up|);
    var n, t1 := 3 + |up| + |down|, Max(cs.lastTs, cs.firstTs);
    DataPlain(cs.Stream(C2S), mss, conn, C2S, 3);
    DataPlain(cs.Stream(S2C), mss, conn, S2C, 3 + |up|);
    if dir == C2S {
      Framed([Control(cs.firstTs, 0, conn, 0, C2S, SYN), Control(cs.firstTs, 0, conn, 2, C2S, TCP_ACK)], up, Control(t1, 2, conn, n, C2S, FIN + TCP_ACK), dir);
    } else {
      Framed([Control(cs.firstTs, 0, conn, 1, S2C, SYN + TCP_ACK)], down, Control(t1, 2, conn, n + 1, S2C, FIN + TCP_ACK), dir);
    }
  }

  // ----- both directions ----------------------------------------------------------------------

  lemma {:induction false} FilterMember(s: seq<OutPkt>, conn: nat, dir: Dir, p: OutPkt)
    ensures p in Filter(s, conn, dir) <==> p in s && Of(p, conn, dir)
  {
    if s != [] {
      FilterMember(s[1..], conn, dir, p);
      FilterCons(s[0], s[1..], conn, dir);
      assert s == [s[0]] + s[1..];
      hide Filter;
    }
  }

  lemma {:induction false} UsedByOne(pkts: seq<OutPkt>, n: nat, j: nat)
    requires j < n <= |pkts|
    ensures UsedBy(pkts, n, pkts[j].conn, pkts[j].dir) >= pkts[j].Consumed()
    decreases n
  {
    hide OutPkt.Consumed;
    if j > 0 {
      UsedByOne(pkts[1..], n - 1, j - 1);
    }
  }

  /** The opening packet of a direction. */
  function Opening(cs: Conn, conn: nat, dir: Dir): OutPkt {
    if dir == C2S then Control(cs.firstTs, 0, conn, 0, C2S, SYN) else Control(cs.firstTs, 0, conn, 1, S2C, SYN + TCP_ACK)
  }

  /** Everything in `s` comes, by the sort key, after `x`. */
  predicate AllAfter(s: seq<OutPkt>, x: OutPkt) {
    forall p :: p in s ==> !KeyLeq(p, x)
  }

  lemma DataAfter(s: seq<OutPkt>, conn: nat, dir: Dir, n: nat, lo: nat, hi: nat, x: OutPkt)
    requires Stamped(s, conn, dir, n, lo, hi) && x.ts == lo && x.phase == 0
    ensures AllAfter(s, x)
  {
  }

  /** Whatever acknowledges comes after the other side's opening packet. */
  lemma OpeningFirst(cs: Conn, conn: nat, mss: nat, dir: Dir, p: OutPkt)
    requires mss > 0 && Timely(cs) && p in DirPkts(cs, conn, mss, dir) && p.HasAck()
    ensures !KeyLeq(p, Opening(cs, conn, 1 - dir))
  {
    hide Conn.Stream, Timely, DataPkts, InTime, Stamped;
    StreamInTime(cs, dir);
    var up := DataPkts(cs.Stream(C2S), mss, conn, C2S, 3);
    var t0, t1 := cs.firstTs, Max(cs.lastTs, cs.firstTs);
    var first := if dir == C2S then 3 else 3 + |up|;
    DataPktsStamped(cs.Stream(dir), mss, conn, dir, first, t0, t1);
    DataAfter(DataPkts(cs.Stream(dir), mss, conn, dir, first), conn, dir, first, t0, t1, Opening(cs, conn, 1 - dir));
  }

  /** In the sorted capture, whatever acknowledges has the other side's opening packet before it. */
  lemma OpeningBefore(conns: seq<Conn>, mss: nat, k: nat, i: nat) returns (j: nat)
    requires mss > 0 && k < |conns| && Timely(conns[k])
    requires var all := Sort(AllPkts(conns, 0, mss)); i < |all| && all[i].conn == k && all[i].HasAck()
    ensures var all := Sort(AllPkts(conns, 0, mss));
            j < i && all[j] == Opening(conns[k], k, 1 - all[i].dir)
  {
    hide Sort, AllPkts, Filter, DirPkts, KeyLeq, OutPkt.HasAck, Timely;
    var all := Sort(AllPkts(conns, 0, mss));
    var p := all[i];
    var open := Opening(conns[k], k, 1 - p.dir);
    SortIsSorted(AllPkts(conns, 0, mss));
    DirMember(conns, mss, k, p.dir, p);
    OpeningFirst(conns[k], k, mss, p.dir, p);
    DirMember(conns, mss, k, 1 - p.dir, open);
    OpeningIn(conns[k], k, mss, 1 - p.dir);
    j :| 0 <= j < |all| && all[j] == open;
    assert KeyLeq(p, p) by { KeyReflexive(p); }
  }

  lemma KeyReflexive(p: OutPkt)
    ensures KeyLeq(p, p)
  {
  }

  lemma OpeningIn(cs: Conn, conn: nat, mss: nat, dir: Dir)
    requires mss > 0
    ensures Opening(cs, conn, dir) in DirPkts(cs, conn, mss, dir) && Of(Opening(cs, conn, dir), conn, dir)
    ensures Opening(cs, conn, dir).HasSyn()
  {
    hide DataPkts, Conn.Stream;
    assert DirPkts(cs, conn, mss, dir)[0] == Opening(cs, conn, dir);
  }

  /** A packet of connection `k` in the sorted capture is one of those made for it. */
  lemma DirMember(conns: seq<Conn>, mss: nat, k: nat, dir: Dir, p: OutPkt)
    requires mss > 0 && k < |conns| && Of(p, k, dir)
    ensures p in Sort(AllPkts(conns, 0, mss)) <==> p in DirPkts(conns[k], k, mss, dir)
  {
    hide Sort, AllPkts, Filter, DirPkts;
    var made := AllPkts(conns, 0, mss);
    SortIsSorted(made);
    assert p in Sort(made) <==> p in multiset(Sort(made));
    assert p in made <==> p in multiset(made);
    FilterMember(made, k, dir, p);
    AllFilter(conns, 0, mss, k, dir);
  }

  /** Nobody acknowledges what has not been sent: of a timely connection every acknowledgement
      covers the other side's SYN, and is exactly what that side has sent by then. */
  lemma HandshakeHolds(conns: seq<Conn>, mss: nat, k: nat, i: nat)
    requires mss > 0 && k < |conns| && Timely(conns[k])
    requires var all := Sort(AllPkts(conns, 0, mss)); i < |all| && all[i].conn == k && all[i].HasAck()
    ensures var all := Sort(AllPkts(conns, 0, mss));
            var sent, used := Number(all, map[])[i], UsedBy(all, i, k, 1 - all[i].dir);
            used >= 1 && sent.pkt == all[i] && sent.ack == WrappingAdd(Isn(1 - all[i].dir), used)
  {
    hide Sort, AllPkts, Number, UsedBy, WrappingAdd, Timely, OutPkt.HasAck;
    var all := Sort(AllPkts(conns, 0, mss));
    AcknowledgesPeer(all, i);
    var j := OpeningBefore(conns, mss, k, i);
    OpeningIn(conns[k], k, mss, 1 - all[i].dir);
    UsedByOne(all, i, j);
  }
}
