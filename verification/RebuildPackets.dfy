/** Packet synthesis: chunking, ordering and numbering, and the stream a receiver reassembles. */
module RebuildPackets {
  import opened Basics
  import opened RebuildSpec
  import opened Frame
  import opened Pkt

  /** A direction: client to server, or back. */
  type Dir = d: int | 0 <= d <= 1
  const C2S: Dir := 0
  const S2C: Dir := 1

  /** Fixed initial sequence numbers, by direction. */
  function Isn(dir: Dir): u32 {
    if dir == C2S then 0x1000_0000 else 0x2000_0000
  }

  datatype OutPkt = OutPkt(ts: nat, phase: nat, conn: nat, seqInConn: nat, dir: Dir, flags: byte, payload: seq<byte>) {
    predicate HasSyn() { Bit(flags, SYN) }
    predicate HasFin() { Bit(flags, FIN) }
    predicate HasAck() { Bit(flags, TCP_ACK) }

    /** Sequence space the packet takes. */
    function Consumed(): nat {
      |payload| + if HasSyn() || HasFin() then 1 else 0
    }
  }

  /** Timestamped frame bytes of one direction. */
  type Out = seq<(nat, seq<byte>)>

  function Bytes(o: Out): seq<byte> {
    if o == [] then [] else o[0].1 + Bytes(o[1..])
  }

  // ----- building one connection's packets ------------------------------------------

  function Chunks(b: seq<byte>, mss: nat): seq<seq<byte>>
    requires mss > 0
  {
    if b == [] then [] else if |b| <= mss then [b] else [b[..mss]] + Chunks(b[mss..], mss)
  }

  lemma {:induction false} ChunksFlatten(b: seq<byte>, mss: nat)
    requires mss > 0
    ensures Flatten(Chunks(b, mss)) == b
    ensures forall c :: c in Chunks(b, mss) ==> 0 < |c| <= mss
    decreases |b|
  {
    if b == [] {
    } else if |b| <= mss {
      assert [b][1..] == [];
      assert Flatten([b]) == b + [];
    } else {
      ChunksFlatten(b[mss..], mss);
    }
  }

  function ChunkPkts(chunks: seq<seq<byte>>, ts: nat, conn: nat, dir: Dir, n: nat): (r: seq<OutPkt>)
    ensures |r| == |chunks|
  {
    if chunks == [] then []
    else [OutPkt(ts, 1, conn, n, dir, PSH + TCP_ACK, chunks[0])] + ChunkPkts(chunks[1..], ts, conn, dir, n + 1)
  }

  function DataPkts(o: Out, mss: nat, conn: nat, dir: Dir, n: nat): seq<OutPkt>
    requires mss > 0
  {
    if o == [] then []
    else
      var first := ChunkPkts(Chunks(o[0].1, mss), o[0].0, conn, dir, n);
      first + DataPkts(o[1..], mss, conn, dir, n + |first|)
  }

  /** A client stream that has anything to say leads with the preface. */
  function WithPreface(o: Out, t0: nat): Out {
    if o == [] then [] else [(t0, PREFACE)] + o
  }

  datatype Conn = Conn(firstTs: nat, lastTs: nat, c2s: Out, s2c: Out) {
    function Stream(dir: Dir): Out {
      if dir == C2S then WithPreface(c2s, firstTs) else s2c
    }
  }

  function Control(ts: nat, phase: nat, conn: nat, n: nat, dir: Dir, flags: byte): OutPkt {
    OutPkt(ts, phase, conn, n, dir, flags, [])
  }

  function Max(a: nat, b: nat): nat {
    if a > b then a else b
  }

  function ConnPkts(cs: Conn, conn: nat, mss: nat): seq<OutPkt>
    requires mss > 0
  {
    var up := DataPkts(cs.Stream(C2S), mss, conn, C2S, 3);
    var down := DataPkts(cs.Stream(S2C), mss, conn, S2C, 3 + |up|);
    var n, t1 := 3 + |up| + |down|, Max(cs.lastTs, cs.firstTs);
    [Control(cs.firstTs, 0, conn, 0, C2S, SYN),
     Control(cs.firstTs, 0, conn, 1, S2C, SYN + TCP_ACK),
     Control(cs.firstTs, 0, conn, 2, C2S, TCP_ACK)]
    + up + down
    + [Control(t1, 2, conn, n, C2S, FIN + TCP_ACK), Control(t1, 2, conn, n + 1, S2C, FIN + TCP_ACK)]
  }

  function AllPkts(conns: seq<Conn>, first: nat, mss: nat): seq<OutPkt>
    requires mss > 0
  {
    if conns == [] then [] else ConnPkts(conns[0], first, mss) + AllPkts(conns[1..], first + 1, mss)
  }

  /** The packet list as the source fills it, one push at a time. */
  method CollectLoop(conns: seq<Conn>, mss: nat) returns (pkts: seq<OutPkt>)
    requires mss > 0
    ensures pkts == AllPkts(conns, 0, mss)
  {
    hide ConnPkts;
    pkts := [];
    for ci := 0 to |conns|
      invariant pkts + AllPkts(conns[ci..], ci, mss) == AllPkts(conns, 0, mss)
    {
      assert conns[ci..][1..] == conns[ci + 1..];
      ghost var before, one, rest := pkts, ConnPkts(conns[ci], ci, mss), AllPkts(conns[ci + 1..], ci + 1, mss);
      pkts := CollectConn(pkts, conns[ci], ci, mss);
      AppendAssoc(before, one, rest);
    }
  }

  lemma AppendAssoc(a: seq<OutPkt>, b: seq<OutPkt>, c: seq<OutPkt>)
    ensures a + (b + c) == a + b + c
  {
  }

  method CollectConn(pkts: seq<OutPkt>, cs: Conn, ci: nat, mss: nat) returns (out: seq<OutPkt>)
    requires mss > 0
    ensures out == pkts + ConnPkts(cs, ci, mss)
  {
    hide DataPkts, Conn.Stream, Control, Max;
    var t0 := cs.firstTs;
    var mine := [Control(t0, 0, ci, 0, C2S, SYN), Control(t0, 0, ci, 1, S2C, SYN + TCP_ACK), Control(t0, 0, ci, 2, C2S, TCP_ACK)];
    var n;
    mine, n := CollectStream(mine, cs.Stream(C2S), ci, C2S, 3, mss);
    mine, n := CollectStream(mine, cs.Stream(S2C), ci, S2C, n, mss);
    var t1 := Max(cs.lastTs, t0);
    mine := mine + [Control(t1, 2, ci, n, C2S, FIN + TCP_ACK), Control(t1, 2, ci, n + 1, S2C, FIN + TCP_ACK)];
    assert mine == ConnPkts(cs, ci, mss);
    out := pkts + mine;
  }

  /** One direction's chunks, in order, with the running position in the connection. */
  method CollectStream(pkts: seq<OutPkt>, o: Out, ci: nat, dir: Dir, first: nat, mss: nat) returns (out: seq<OutPkt>, n: nat)
    requires mss > 0
    ensures out == pkts + DataPkts(o, mss, ci, dir, first) && n == first + |DataPkts(o, mss, ci, dir, first)|
  {
    hide Chunks, ChunkPkts;
    var made: seq<OutPkt> := [];
    n := first;
    for i := 0 to |o|
      invariant n == first + |made|
      invariant made + DataPkts(o[i..], mss, ci, dir, n) == DataPkts(o, mss, ci, dir, first)
    {
      var chunks := Chunks(o[i].1, mss);
      assert o[i..][0] == o[i] && o[i..][1..] == o[i + 1..];
      ghost var one := ChunkPkts(chunks, o[i].0, ci, dir, n);
      AppendAssoc(made, one, DataPkts(o[i + 1..], mss, ci, dir, n + |one|));
      made, n := CollectChunks(made, chunks, o[i].0, ci, dir, n);
    }
    out := pkts + made;
  }

  method CollectChunks(pkts: seq<OutPkt>, chunks: seq<seq<byte>>, ts: nat, ci: nat, dir: Dir, first: nat)
    returns (out: seq<OutPkt>, n: nat)
    ensures out == pkts + ChunkPkts(chunks, ts, ci, dir, first) && n == first + |chunks|
  {
    out, n := pkts, first;
    for i := 0 to |chunks|
      invariant n == first + i
      invariant out + ChunkPkts(chunks[i..], ts, ci, dir, n) == pkts + ChunkPkts(chunks, ts, ci, dir, first)
    {
      assert chunks[i..][0] == chunks[i] && chunks[i..][1..] == chunks[i + 1..];
      var p := OutPkt(ts, 1, ci, n, dir, PSH + TCP_ACK, chunks[i]);
      AppendAssoc(out, [p], ChunkPkts(chunks[i + 1..], ts, ci, dir, n + 1));
      out := out + [p];
      n := n + 1;
    }
  }

  // ----- ordering ----------------------------------------------------------------------

  /** The sort key: timestamp, phase, connection, position in the connection. */
  predicate KeyLeq(a: OutPkt, b: OutPkt) {
    a.ts < b.ts || (a.ts == b.ts &&
      (a.phase < b.phase || (a.phase == b.phase &&
        (a.conn < b.conn || (a.conn == b.conn && a.seqInConn <= b.seqInConn)))))
  }

  predicate Sorted(s: seq<OutPkt>) {
    forall i, j :: 0 <= i < j < |s| ==> KeyLeq(s[i], s[j])
  }

  function Insert(x: OutPkt, s: seq<OutPkt>): seq<OutPkt> {
    if s == [] || KeyLeq(x, s[0]) then [x] + s else [s[0]] + Insert(x, s[1..])
  }

  /** The stable sort by key. */
  function Sort(s: seq<OutPkt>): seq<OutPkt> {
    if s == [] then [] else Insert(s[0], Sort(s[1..]))
  }

  lemma {:induction false} InsertKeeps(x: OutPkt, s: seq<OutPkt>)
    ensures multiset(Insert(x, s)) == multiset{x} + multiset(s)
  {
    if s == [] || KeyLeq(x, s[0]) {
    } else {
      InsertKeeps(x, s[1..]);
      assert s == [s[0]] + s[1..];
    }
  }

  lemma {:induction false} InsertSorts(x: OutPkt, s: seq<OutPkt>)
    requires Sorted(s)
    ensures Sorted(Insert(x, s))
  {
    if s != [] && !KeyLeq(x, s[0]) {
      InsertSorts(x, s[1..]);
      InsertKeeps(x, s[1..]);
      var t := Insert(x, s[1..]);
      forall j | 0 <= j < |t| ensures KeyLeq(s[0], t[j]) {
        assert t[j] in multiset(t);
        assert t[j] == x || t[j] in s[1..];
      }
    }
  }

  /** It is the sort the source asks for: ordered by key, nothing lost, nothing added. */
  lemma {:induction false} SortIsSorted(s: seq<OutPkt>)
    ensures Sorted(Sort(s)) && multiset(Sort(s)) == multiset(s)
  {
    if s != [] {
      SortIsSorted(s[1..]);
      InsertSorts(s[0], Sort(s[1..]));
      InsertKeeps(s[0], Sort(s[1..]));
      assert s == [s[0]] + s[1..];
    }
  }

  predicate Of(p: OutPkt, conn: nat, dir: Dir) {
    p.conn == conn && p.dir == dir
  }

  /** The packets of one direction of one connection. */
  function Filter(s: seq<OutPkt>, conn: nat, dir: Dir): (r: seq<OutPkt>)
    ensures forall p :: p in r ==> p in s
  {
    if s == [] then [] else (if Of(s[0], conn, dir) then [s[0]] else []) + Filter(s[1..], conn, dir)
  }

  lemma FilterCons(x: OutPkt, s: seq<OutPkt>, conn: nat, dir: Dir)
    ensures var f := Filter([x] + s, conn, dir);
            if Of(x, conn, dir) then f != [] && f[0] == x && f[1..] == Filter(s, conn, dir) && f == [x] + Filter(s, conn, dir)
            else f == Filter(s, conn, dir)
  {
    assert ([x] + s)[1..] == s;
  }

  lemma FilterNone(conn: nat, dir: Dir)
    ensures Filter([], conn, dir) == []
  {
  }

  lemma {:induction false} FilterConcat(a: seq<OutPkt>, b: seq<OutPkt>, conn: nat, dir: Dir)
    ensures Filter(a + b, conn, dir) == Filter(a, conn, dir) + Filter(b, conn, dir)
  {
    hide Filter;
    if a == [] {
      FilterNone(conn, dir);
      assert a + b == b;
    } else {
      assert a == [a[0]] + a[1..] && a + b == [a[0]] + (a[1..] + b);
      FilterCons(a[0], a[1..], conn, dir);
      FilterCons(a[0], a[1..] + b, conn, dir);
      FilterConcat(a[1..], b, conn, dir);
    }
  }

  lemma InsertCons(x: OutPkt, y: OutPkt, t: seq<OutPkt>)
    ensures Insert(x, [y] + t) == if KeyLeq(x, y) then [x] + ([y] + t) else [y] + Insert(x, t)
  {
    assert ([y] + t)[1..] == t;
  }

  /** The first packet kept by the filter is no earlier than the first packet of all. */
  lemma FilterLeast(x: OutPkt, s: seq<OutPkt>, conn: nat, dir: Dir)
    requires Sorted(s) && s != [] && KeyLeq(x, s[0])
    ensures var f := Filter(s, conn, dir); f != [] ==> KeyLeq(x, f[0])
  {
    hide Filter;
    var f := Filter(s, conn, dir);
    if f != [] {
      assert f[0] in f && f[0] in s;
      var i :| 0 <= i < |s| && s[i] == f[0];
      assert i > 0 ==> KeyLeq(s[0], s[i]);
    }
  }

  lemma {:induction false} FilterInsert(x: OutPkt, s: seq<OutPkt>, conn: nat, dir: Dir)
    requires Sorted(s)
    ensures Filter(Insert(x, s), conn, dir)
         == if Of(x, conn, dir) then Insert(x, Filter(s, conn, dir)) else Filter(s, conn, dir)
  {
    if s == [] || KeyLeq(x, s[0]) {
      if s != [] { FilterLeast(x, s, conn, dir); }
      FilterCons(x, s, conn, dir);
    } else {
      var y, t := s[0], s[1..];
      assert s == [y] + t;
      FilterInsert(x, t, conn, dir);
      FilterCons(y, t, conn, dir);
      FilterCons(y, Insert(x, t), conn, dir);
      InsertCons(x, y, Filter(t, conn, dir));
      InsertCons(x, y, t);
    }
  }

  /** Sorting the whole capture sorts each direction on its own. */
  lemma {:induction false} FilterSort(s: seq<OutPkt>, conn: nat, dir: Dir)
    ensures Filter(Sort(s), conn, dir) == Sort(Filter(s, conn, dir))
  {
    if s != [] {
      SortIsSorted(s[1..]);
      FilterInsert(s[0], Sort(s[1..]), conn, dir);
      FilterSort(s[1..], conn, dir);
      FilterCons(s[0], s[1..], conn, dir);
      assert s == [s[0]] + s[1..];
    }
  }

  lemma {:induction false} SortOfSorted(s: seq<OutPkt>)
    requires Sorted(s)
    ensures Sort(s) == s
  {
    if s != [] {
      SortOfSorted(s[1..]);
    }
  }

  // ----- numbering ---------------------------------------------------------------------

  /** Next sequence number by connection and direction; unset means the initial one. */
  type Next = map<(nat, Dir), u32>

  function NextSeq(next: Next, conn: nat, dir: Dir): u32 {
    if (conn, dir) in next then next[(conn, dir)] else Isn(dir)
  }

  /** A packet as written: numbered and acknowledging the peer's next expected byte. */
  datatype Sent = Sent(pkt: OutPkt, seq_: u32, ack: u32)

  function Number(pkts: seq<OutPkt>, next: Next): (r: seq<Sent>)
    ensures |r| == |pkts|
  {
    if pkts == [] then []
    else
      var p := pkts[0];
      var s := NextSeq(next, p.conn, p.dir);
      var ack := if p.HasAck() then NextSeq(next, p.conn, 1 - p.dir) else 0;
      [Sent(p, s, ack)] + Number(pkts[1..], next[(p.conn, p.dir) := WrappingAdd(s, p.Consumed())])
  }

  /** The numbering walk as the source runs it, updating the next sequence numbers in place. */
  method NumberLoop(pkts: seq<OutPkt>) returns (out: seq<Sent>)
    ensures out == Number(pkts, map[])
  {
    out := [];
    var next: Next := map[];
    for i := 0 to |pkts|
      invariant out + Number(pkts[i..], next) == Number(pkts, map[])
    {
      var p := pkts[i];
      assert pkts[i..][1..] == pkts[i + 1..];
      var s := NextSeq(next, p.conn, p.dir);
      var ack := if p.HasAck() then NextSeq(next, p.conn, 1 - p.dir) else 0;
      ghost var tail := Number(pkts[i + 1..], next[(p.conn, p.dir) := WrappingAdd(s, p.Consumed())]);
      assert out + ([Sent(p, s, ack)] + tail) == out + [Sent(p, s, ack)] + tail;
      out := out + [Sent(p, s, ack)];
      next := next[(p.conn, p.dir) := WrappingAdd(s, p.Consumed())];
    }
  }

  // ----- what one direction of one connection gets -----------------------------------------

  /** A numbered packet, as its receiver sees it. */
  datatype Segment = Segment(pkt: OutPkt, seq_: u32)

  function SegmentsOf(sent: seq<Sent>, conn: nat, dir: Dir): seq<Segment> {
    if sent == [] then []
    else (if Of(sent[0].pkt, conn, dir) then [Segment(sent[0].pkt, sent[0].seq_)] else []) + SegmentsOf(sent[1..], conn, dir)
  }

  /** Consecutive numbering of one direction on its own. */
  function Consecutive(pkts: seq<OutPkt>, s: u32): seq<Segment> {
    if pkts == [] then [] else [Segment(pkts[0], s)] + Consecutive(pkts[1..], WrappingAdd(s, pkts[0].Consumed()))
  }

  /** However connections and directions interleave, each direction is numbered consecutively. */
  lemma {:induction false} NumberedConsecutively(pkts: seq<OutPkt>, next: Next, conn: nat, dir: Dir)
    ensures SegmentsOf(Number(pkts, next), conn, dir) == Consecutive(Filter(pkts, conn, dir), NextSeq(next, conn, dir))
    decreases |pkts|
  {
    if pkts != [] {
      var p := pkts[0];
      var s := NextSeq(next, p.conn, p.dir);
      var next' := next[(p.conn, p.dir) := WrappingAdd(s, p.Consumed())];
      NumberedConsecutively(pkts[1..], next', conn, dir);
      FilterCons(p, pkts[1..], conn, dir);
      assert pkts == [p] + pkts[1..];
      assert Number(pkts, next)[1..] == Number(pkts[1..], next');
      assert NextSeq(next', conn, dir) == if Of(p, conn, dir) then WrappingAdd(s, p.Consumed()) else NextSeq(next, conn, dir);
    }
  }

  /** The sequence numbers one direction of a connection uses up in the first `n` packets. */
  function UsedBy(pkts: seq<OutPkt>, n: nat, conn: nat, dir: Dir): nat
    requires n <= |pkts|
  {
    if n == 0 then 0 else (if Of(pkts[0], conn, dir) then pkts[0].Consumed() else 0) + UsedBy(pkts[1..], n - 1, conn, dir)
  }

  lemma {:induction false} NumberedAfter(pkts: seq<OutPkt>, next: Next, i: nat)
    requires i < |pkts|
    ensures var p, sent := pkts[i], Number(pkts, next)[i];
            && sent.pkt == p
            && sent.seq_ == WrappingAdd(NextSeq(next, p.conn, p.dir), UsedBy(pkts, i, p.conn, p.dir))
            && sent.ack == if p.HasAck() then WrappingAdd(NextSeq(next, p.conn, 1 - p.dir), UsedBy(pkts, i, p.conn, 1 - p.dir)) else 0
    decreases |pkts|
  {
    if i > 0 {
      var p, first := pkts[i], pkts[0];
      var s := NextSeq(next, first.conn, first.dir);
      var next' := next[(first.conn, first.dir) := WrappingAdd(s, first.Consumed())];
      NumberedAfter(pkts[1..], next', i - 1);
      hide WrappingAdd, Number, OutPkt.Consumed;
      OneMoreUsed(first, next, p.conn, p.dir, UsedBy(pkts[1..], i - 1, p.conn, p.dir));
      OneMoreUsed(first, next, p.conn, 1 - p.dir, UsedBy(pkts[1..], i - 1, p.conn, 1 - p.dir));
      NumberTail(pkts, next, i);
    }
  }

  lemma NumberTail(pkts: seq<OutPkt>, next: Next, i: nat)
    requires 0 < i < |pkts|
    ensures var p := pkts[0];
            Number(pkts, next)[i] == Number(pkts[1..], next[(p.conn, p.dir) := WrappingAdd(NextSeq(next, p.conn, p.dir), p.Consumed())])[i - 1]
  {
  }

  lemma OneMoreUsed(p: OutPkt, next: Next, conn: nat, dir: Dir, used: nat)
    ensures var next' := next[(p.conn, p.dir) := WrappingAdd(NextSeq(next, p.conn, p.dir), p.Consumed())];
            WrappingAdd(NextSeq(next', conn, dir), used)
            == WrappingAdd(NextSeq(next, conn, dir), (if Of(p, conn, dir) then p.Consumed() else 0) + used)
  {
    hide OutPkt.Consumed;
    WrappingAddAssoc(NextSeq(next, conn, dir), p.Consumed(), used);
  }

  /** Every packet stands just past what its own direction has sent before it, and acknowledges
      exactly what the other direction of its connection has sent before it. */
  lemma AcknowledgesPeer(pkts: seq<OutPkt>, i: nat)
    requires i < |pkts|
    ensures var p, sent := pkts[i], Number(pkts, map[])[i];
            && sent.pkt == p
            && sent.seq_ == WrappingAdd(Isn(p.dir), UsedBy(pkts, i, p.conn, p.dir))
            && sent.ack == if p.HasAck() then WrappingAdd(Isn(1 - p.dir), UsedBy(pkts, i, p.conn, 1 - p.dir)) else 0
  {
    hide WrappingAdd, UsedBy, Number;
    NumberedAfter(pkts, map[], i);
  }

  /** One direction's packets in the order they were made. */
  function DirPkts(cs: Conn, conn: nat, mss: nat, dir: Dir): seq<OutPkt>
    requires mss > 0
  {
    var up := DataPkts(cs.Stream(C2S), mss, conn, C2S, 3);
    var down := DataPkts(cs.Stream(S2C), mss, conn, S2C, 3 + |up|);
    var n, t1 := 3 + |up| + |down|, Max(cs.lastTs, cs.firstTs);
    if dir == C2S then
      [Control(cs.firstTs, 0, conn, 0, C2S, SYN), Control(cs.firstTs, 0, conn, 2, C2S, TCP_ACK)]
      + up + [Control(t1, 2, conn, n, C2S, FIN + TCP_ACK)]
    else
      [Control(cs.firstTs, 0, conn, 1, S2C, SYN + TCP_ACK)] + down + [Control(t1, 2, conn, n + 1, S2C, FIN + TCP_ACK)]
  }

  /** Data packets: phase one, one direction, numbered in order, timestamps not decreasing. */
  predicate Stamped(s: seq<OutPkt>, conn: nat, dir: Dir, n: nat, lo: nat, hi: nat) {
    && (forall i :: 0 <= i < |s| ==> s[i].phase == 1 && Of(s[i], conn, dir) && s[i].seqInConn == n + i && lo <= s[i].ts <= hi)
    && (forall i, j :: 0 <= i < j < |s| ==> s[i].ts <= s[j].ts)
  }

  /** A direction's output in time order within `lo..hi`. */
  predicate InTime(o: Out, lo: nat, hi: nat) {
    && (forall i :: 0 <= i < |o| ==> lo <= o[i].0 <= hi)
    && (forall i, j :: 0 <= i < j < |o| ==> o[i].0 <= o[j].0)
  }

  predicate Timely(cs: Conn) {
    InTime(cs.c2s, cs.firstTs, cs.lastTs) && InTime(cs.s2c, cs.firstTs, cs.lastTs)
  }

  lemma {:induction false} ChunkPktsStamped(chunks: seq<seq<byte>>, ts: nat, conn: nat, dir: Dir, n: nat)
    ensures Stamped(ChunkPkts(chunks, ts, conn, dir, n), conn, dir, n, ts, ts)
  {
    if chunks != [] {
      ChunkPktsStamped(chunks[1..], ts, conn, dir, n + 1);
    }
  }

  lemma {:induction false} DataPktsStamped(o: Out, mss: nat, conn: nat, dir: Dir, n: nat, lo: nat, hi: nat)
    requires mss > 0 && InTime(o, lo, hi)
    ensures Stamped(DataPkts(o, mss, conn, dir, n), conn, dir, n, lo, hi)
    decreases |o|
  {
    if o != [] {
      var first := ChunkPkts(Chunks(o[0].1, mss), o[0].0, conn, dir, n);
      ChunkPktsStamped(Chunks(o[0].1, mss), o[0].0, conn, dir, n);
      DataPktsStamped(o[1..], mss, conn, dir, n + |first|, o[0].0, hi);
    }
  }

  lemma {:induction false} FilterAllOrNone(s: seq<OutPkt>, conn: nat, dir: Dir)
    ensures (forall p :: p in s ==> Of(p, conn, dir)) ==> Filter(s, conn, dir) == s
    ensures (forall p :: p in s ==> !Of(p, conn, dir)) ==> Filter(s, conn, dir) == []
  {
    if s != [] {
      FilterAllOrNone(s[1..], conn, dir);
    }
  }

  lemma StampedFilter(s: seq<OutPkt>, conn: nat, dir: Dir, n: nat, lo: nat, hi: nat, k: nat, d: Dir)
    requires Stamped(s, conn, dir, n, lo, hi)
    ensures Filter(s, k, d) == if k == conn && d == dir then s else []
  {
    hide Filter;
    FilterAllOrNone(s, k, d);
    forall p | p in s ensures Of(p, conn, dir) {
      var i :| 0 <= i < |s| && s[i] == p;
    }
  }

  /** Data packets carry their connection and direction whatever their timestamps. */
  lemma {:induction false} DataPktsFilter(o: Out, mss: nat, conn: nat, dir: Dir, n: nat, k: nat, d: Dir)
    requires mss > 0
    ensures Filter(DataPkts(o, mss, conn, dir, n), k, d) == if k == conn && d == dir then DataPkts(o, mss, conn, dir, n) else []
    decreases |o|
  {
    hide Filter;
    if o == [] {
      FilterAllOrNone([], k, d);
    } else {
      var first := ChunkPkts(Chunks(o[0].1, mss), o[0].0, conn, dir, n);
      ChunkPktsStamped(Chunks(o[0].1, mss), o[0].0, conn, dir, n);
      StampedFilter(first, conn, dir, n, o[0].0, o[0].0, k, d);
      DataPktsFilter(o[1..], mss, conn, dir, n + |first|, k, d);
      FilterConcat(first, DataPkts(o[1..], mss, conn, dir, n + |first|), k, d);
    }
  }

  function Kept(p: OutPkt, k: nat, d: Dir): seq<OutPkt> {
    if Of(p, k, d) then [p] else []
  }

  lemma FilterTwo(a: OutPkt, b: OutPkt, k: nat, d: Dir)
    ensures Filter([a, b], k, d) == Kept(a, k, d) + Kept(b, k, d)
  {
    assert [a, b] == [a] + [b] && [b] == [b] + [];
    FilterCons(a, [b], k, d);
    FilterCons(b, [], k, d);
  }

  lemma FilterThree(a: OutPkt, b: OutPkt, c: OutPkt, k: nat, d: Dir)
    ensures Filter([a, b, c], k, d) == Kept(a, k, d) + Kept(b, k, d) + Kept(c, k, d)
  {
    assert [a, b, c] == [a] + [b, c];
    FilterCons(a, [b, c], k, d);
    FilterTwo(b, c, k, d);
  }

  lemma FilterParts(head: seq<OutPkt>, up: seq<OutPkt>, down: seq<OutPkt>, tail: seq<OutPkt>, k: nat, d: Dir)
    ensures Filter(head + up + down + tail, k, d)
         == Filter(head, k, d) + Filter(up, k, d) + Filter(down, k, d) + Filter(tail, k, d)
  {
    hide Filter;
    FilterConcat(head + up + down, tail, k, d);
    FilterConcat(head + up, down, k, d);
    FilterConcat(head, up, k, d);
  }

  lemma ConnFilter(cs: Conn, conn: nat, mss: nat, k: nat, d: Dir)
    requires mss > 0
    ensures Filter(ConnPkts(cs, conn, mss), k, d) == if k == conn then DirPkts(cs, conn, mss, d) else []
  {
    hide DataPkts, Filter, Conn.Stream;
    var up := DataPkts(cs.Stream(C2S), mss, conn, C2S, 3);
    var down := DataPkts(cs.Stream(S2C), mss, conn, S2C, 3 + |up|);
    var n, t1 := 3 + |up| + |down|, Max(cs.lastTs, cs.firstTs);
    var syn, synAck, ack := Control(cs.firstTs, 0, conn, 0, C2S, SYN), Control(cs.firstTs, 0, conn, 1, S2C, SYN + TCP_ACK), Control(cs.firstTs, 0, conn, 2, C2S, TCP_ACK);
    var finUp, finDown := Control(t1, 2, conn, n, C2S, FIN + TCP_ACK), Control(t1, 2, conn, n + 1, S2C, FIN + TCP_ACK);
    FilterParts([syn, synAck, ack], up, down, [finUp, finDown], k, d);
    FilterThree(syn, synAck, ack, k, d);
    FilterTwo(finUp, finDown, k, d);
    DataPktsFilter(cs.Stream(C2S), mss, conn, C2S, 3, k, d);
    DataPktsFilter(cs.Stream(S2C), mss, conn, S2C, 3 + |up|, k, d);
    if k == conn && d == C2S {
      assert [syn] + [] + [ack] + up + [] + ([finUp] + []) == [syn, ack] + up + [finUp];
    } else if k == conn {
      assert [] + [synAck] + [] + [] + down + ([] + [finDown]) == [synAck] + down + [finDown];
    }
  }

  lemma {:induction false} AllFilter(conns: seq<Conn>, first: nat, mss: nat, k: nat, d: Dir)
    requires mss > 0
    ensures Filter(AllPkts(conns, first, mss), k, d)
         == if first <= k < first + |conns| then DirPkts(conns[k - first], k, mss, d) else []
    decreases |conns|
  {
    hide Filter, ConnPkts, DirPkts;
    if conns == [] {
      FilterAllOrNone([], k, d);
    } else {
      ConnFilter(conns[0], first, mss, k, d);
      AllFilter(conns[1..], first + 1, mss, k, d);
      FilterConcat(ConnPkts(conns[0], first, mss), AllPkts(conns[1..], first + 1, mss), k, d);
    }
  }

  lemma StreamInTime(cs: Conn, dir: Dir)
    requires Timely(cs)
    ensures InTime(cs.Stream(dir), cs.firstTs, Max(cs.lastTs, cs.firstTs))
  {
  }

  lemma SortedConcat(a: seq<OutPkt>, b: seq<OutPkt>)
    requires Sorted(a) && Sorted(b)
    requires forall i, j :: 0 <= i < |a| && 0 <= j < |b| ==> KeyLeq(a[i], b[j])
    ensures Sorted(a + b)
  {
    hide KeyLeq;
  }

  lemma StampedSorted(s: seq<OutPkt>, conn: nat, dir: Dir, n: nat, lo: nat, hi: nat)
    requires Stamped(s, conn, dir, n, lo, hi)
    ensures Sorted(s)
  {
  }

  /** Opening packets in phase zero at `lo`, data in phase one within `lo..hi`, a closing
      packet in phase two at `hi`. */
  lemma FramedSorted(head: seq<OutPkt>, data: seq<OutPkt>, fin: OutPkt, conn: nat, dir: Dir, n: nat, lo: nat, hi: nat)
    requires Sorted(head) && Stamped(data, conn, dir, n, lo, hi) && lo <= hi
    requires forall i :: 0 <= i < |head| ==> head[i].phase == 0 && head[i].ts == lo
    requires fin.phase == 2 && fin.ts == hi
    ensures Sorted(head + data + [fin])
  {
    StampedSorted(data, conn, dir, n, lo, hi);
    SortedConcat(head, data);
    SortedConcat(head + data, [fin]);
  }

  lemma DirSorted(cs: Conn, conn: nat, mss: nat, dir: Dir)
    requires mss > 0 && Timely(cs)
    ensures Sorted(DirPkts(cs, conn, mss, dir))
  {
    hide Timely, InTime, Conn.Stream, Sorted, Stamped, DataPkts;
    StreamInTime(cs, dir);
    var up := DataPkts(cs.Stream(C2S), mss, conn, C2S, 3);
    var t1 := Max(cs.lastTs, cs.firstTs);
    if dir == C2S {
      DataPktsStamped(cs.Stream(C2S), mss, conn, C2S, 3, cs.firstTs, t1);
      UpSorted(up, conn, 3 + |up| + |DataPkts(cs.Stream(S2C), mss, conn, S2C, 3 + |up|)|, cs.firstTs, t1);
    } else {
      DataPktsStamped(cs.Stream(S2C), mss, conn, S2C, 3 + |up|, cs.firstTs, t1);
      var down := DataPkts(cs.Stream(S2C), mss, conn, S2C, 3 + |up|);
      DownSorted(down, conn, 3 + |up|, 3 + |up| + |down| + 1, cs.firstTs, t1);
    }
  }

  lemma UpSorted(up: seq<OutPkt>, conn: nat, n: nat, t0: nat, t1: nat)
    requires Stamped(up, conn, C2S, 3, t0, t1) && t0 <= t1
    ensures Sorted([Control(t0, 0, conn, 0, C2S, SYN), Control(t0, 0, conn, 2, C2S, TCP_ACK)] + up
                   + [Control(t1, 2, conn, n, C2S, FIN + TCP_ACK)])
  {
    hide Sorted, Stamped;
    var head := [Control(t0, 0, conn, 0, C2S, SYN), Control(t0, 0, conn, 2, C2S, TCP_ACK)];
    PairSorted(head);
    FramedSorted(head, up, Control(t1, 2, conn, n, C2S, FIN + TCP_ACK), conn, C2S, 3, t0, t1);
  }

  lemma DownSorted(down: seq<OutPkt>, conn: nat, first: nat, n: nat, t0: nat, t1: nat)
    requires Stamped(down, conn, S2C, first, t0, t1) && t0 <= t1
    ensures Sorted([Control(t0, 0, conn, 1, S2C, SYN + TCP_ACK)] + down + [Control(t1, 2, conn, n, S2C, FIN + TCP_ACK)])
  {
    hide Sorted, Stamped;
    var head := [Control(t0, 0, conn, 1, S2C, SYN + TCP_ACK)];
    PairSorted(head);
    FramedSorted(head, down, Control(t1, 2, conn, n, S2C, FIN + TCP_ACK), conn, S2C, first, t0, t1);
  }

  lemma PairSorted(head: seq<OutPkt>)
    requires |head| == 1 || (|head| == 2 && KeyLeq(head[0], head[1]))
    ensures Sorted(head)
  {
  }

  /** After the sort and the numbering walk over the whole capture, each direction of each
      timely connection comes out in the order it was made, numbered without a hole. */
  lemma DirectionInOrder(conns: seq<Conn>, mss: nat, k: nat, d: Dir)
    requires mss > 0 && k < |conns| && Timely(conns[k])
    ensures SegmentsOf(Number(Sort(AllPkts(conns, 0, mss)), map[]), k, d) == Consecutive(DirPkts(conns[k], k, mss, d), Isn(d))
  {
    hide Filter, Sort, AllPkts, DirPkts, Number, Consecutive, SegmentsOf, Sorted;
    var all := AllPkts(conns, 0, mss);
    NumberedConsecutively(Sort(all), map[], k, d);
    FilterSort(all, k, d);
    AllFilter(conns, 0, mss, k, d);
    DirSorted(conns[k], k, mss, d);
    SortOfSorted(DirPkts(conns[k], k, mss, d));
  }
}
