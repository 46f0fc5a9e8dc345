/** Where the snapshot's tests pass and should not: when the ring parts two packets of the same
    microsecond, when a segment was held as bytes began to wait, and before anything was captured. */
module TrackerLimits {
  import opened Basics
  import opened HpackInt
  import opened ReassemblySpec
  import opened ConnSpec
  import opened ConnSegmentation
  import opened Pkt
  import opened CaptureRing
  import opened TrackerSpec
  import opened TrackerCoverage

  function SentAt(ts: nat, up: Endpoint, s: u32, flags: byte, payload: seq<byte>): Packet {
    Packet(ts, BuildTcpPacket(up, s, 0, flags, 65535, 0, payload))
  }

  predicate Sender(up: Endpoint) {
    up.Valid() && up.srcIp.V4? && up.dstIp.V4?
  }

  lemma SentIsHeard(ts: nat, up: Endpoint, s: u32, flags: byte, payload: seq<byte>)
    requires Sender(up) && |payload| <= 100
    ensures ParseEthernet(SentAt(ts, up, s, flags, payload).data) == Some(Expected(up, s, 0, flags, payload))
    ensures SegmentOf(up, true, SentAt(ts, up, s, flags, payload)) == Some(Expected(up, s, 0, flags, payload))
    ensures |SentAt(ts, up, s, flags, payload).data| == 54 + |payload|
  {
    hide ParseEthernet, BuildTcpPacket;
    PacketRoundTrip(up, s, 0, flags, 65535, 0, payload, []);
    var data := SentAt(ts, up, s, flags, payload).data;
    assert data + [] == data;
    PacketLength(up, s, flags, payload);
  }

  lemma PacketLength(up: Endpoint, s: u32, flags: byte, payload: seq<byte>)
    requires Sender(up)
    ensures |BuildTcpPacket(up, s, 0, flags, 65535, 0, payload)| == 54 + |payload|
  {
    hide TcpBytes, TcpChecksum, Ipv4Checksum, Enc16;
  }

  /** Fewer bytes than the smallest thing the parser looks for leave it where it is. */
  lemma TooShort(cb: Codebook, c: Core, w: Window)
    requires c.discard == 0 && c.pendingStartSeq.None? && |w.avail| < 9 && (c.desynced || c.expectPreface)
    ensures Parse(cb, c, w) == (c, w, [])
  {
    assert ParseStep(cb, c, w) == Stop(c, w);
    ParseOf(cb, c, w);
  }

  /** Does the parser have too little to go on, whatever it is looking for? */
  predicate Waiting(c: Core) {
    c.discard == 0 && c.pendingStartSeq.None? && (c.desynced || c.expectPreface)
  }

  lemma TrackWaits(cb: Codebook, tr: Track, t: TcpSegment, ts: nat)
    requires t.flags == PSH + TCP_ACK && t.payload != [] && Waiting(tr.dir.c)
    requires var (r', gap) := tr.dir.r.Push(t.seq_, t.payload, ts); !gap && |r'.win.avail| < 9
    ensures tr.Receive(cb, t, ts).0 == tr.(dir := DirState(tr.dir.c, tr.dir.r.Push(t.seq_, t.payload, ts).0)).AfterFeed(ts)
  {
    assert !Bit(t.flags, SYN);
    TooShort(cb, tr.dir.c, tr.dir.r.Push(t.seq_, t.payload, ts).0.win);
    hide Parse, ReasmState.Push;
  }

  /** What a client's segment does to its track meanwhile. */
  lemma ClientPacket(cb: Codebook, c: Tracked, ts: nat, s: u32, b: byte)
    requires Sender(c.up) && Waiting(c.c2s.dir.c)
    requires var (r', gap) := c.c2s.dir.r.Push(s, [b], ts); !gap && |r'.win.avail| < 9
    ensures var c' := c.OnPacket(cb, SentAt(ts, c.up, s, PSH + TCP_ACK, [b]));
            && c'.up == c.up
            && c'.c2s == c.c2s.(dir := DirState(c.c2s.dir.c, c.c2s.dir.r.Push(s, [b], ts).0)).AfterFeed(ts)
  {
    SentIsHeard(ts, c.up, s, PSH + TCP_ACK, [b]);
    var t := Expected(c.up, s, 0, PSH + TCP_ACK, [b]);
    hide SentAt, Parse, ReasmState.Push, ParseEthernet, Track.Receive, Track.Capped, Capacities, Waiting;
    TrackWaits(cb, c.c2s, t, ts);
  }

  // ----- nothing captured yet ------------------------------------------------------------------

  /** The packet has nothing for this direction: no SYN and no payload. */
  predicate Silent(up: Endpoint, client: bool, p: Packet) {
    var t := SegmentOf(up, client, p);
    t.Some? ==> !Bit(t.value.flags, SYN) && t.value.payload == []
  }

  /** A direction nothing was captured of, whatever the other side announced meanwhile. */
  predicate Idle(tr: Track, tableLimit: nat) {
    var c, d := tr.dir.c, tr.dir.c.dec;
    && tr.dir.r == NewReassembler() && tr.pendingSince.None?
    && !c.poisoned && !c.desynced && c.blockHdr.None?
    && d.exact && d.table == [] && d.maxSize <= 4096 && d.trackLimit == tableLimit
    && (d.overLimit <==> tableLimit < 4096)
  }

  lemma {:induction false} CappedIdle(tr: Track, caps: seq<u32>, tableLimit: nat)
    requires Idle(tr, tableLimit)
    ensures Idle(tr.Capped(caps), tableLimit)
    decreases |caps|
  {
    if caps != [] {
      CappedIdle(tr.(dir := tr.dir.(c := tr.dir.c.(dec := tr.dir.c.dec.ApplyPeerCapacity(caps[0])))), caps[1..], tableLimit);
    }
  }

  lemma ReceiveStarts(cb: Codebook, tr: Track, t: TcpSegment, now: nat)
    ensures var r, r' := tr.dir.r, tr.Receive(cb, t, now).0.dir.r;
            r.initialized || Bit(t.flags, SYN) || t.payload != [] ==> r'.initialized
  {
    hide Parse, Core.OnGap, ReasmState.Push, Noted;
    NotedIs(tr, t);
    NotedStarts(tr.dir.r, t);
    if t.payload != [] { PushStarts(Noted(tr.dir.r, t), t.seq_, t.payload, now); }
  }

  lemma NotedStarts(r: ReasmState, t: TcpSegment)
    ensures r.initialized || Bit(t.flags, SYN) ==> Noted(r, t).initialized
  {
  }

  lemma {:induction false} DrainStarted(r: ReasmState)
    ensures r.Drain().initialized == r.initialized
    decreases |r.ooo|
  {
    var i := FirstDue(r.ooo, r.nextSeq);
    if i < |r.ooo| { DrainStarted(r.TakeDue(i)); }
  }

  lemma PushStarts(r: ReasmState, s: u32, data: seq<byte>, now: nat)
    requires data != []
    ensures r.Push(s, data, now).0.initialized
  {
    hide ReasmState.Drain, SignedDiff, HeldBytes;
    var i := r.Initialize(s);
    var held := i.Hold(s, data, now);
    DrainStarted(held.Skip(Nearest(held.ooo, held.nextSeq)));
    var diff := SignedDiff(s, i.nextSeq);
    if diff <= 0 && (-diff < |data| || diff == 0) { DrainStarted(i.Append(data[-diff..])); }
  }

  lemma PacketIdle(cb: Codebook, c: Tracked, p: Packet, client: bool, tableLimit: nat)
    ensures var tr, tr' := c.Of(client), c.OnPacket(cb, p).Of(client);
            && c.OnPacket(cb, p).up == c.up
            && (Idle(tr, tableLimit) && Silent(c.up, client, p) ==> Idle(tr', tableLimit))
            && (tr.dir.r.initialized || !Silent(c.up, client, p) ==> tr'.dir.r.initialized)
  {
    hide Idle, DirState.Feed, ReasmState.NoteSyn;
    var t := ParseEthernet(p.data);
    if t.Some? && Owns(c.up, t.value) {
      var from := FromClient(c.up, t.value);
      var (mine, frames) := c.Of(from).Receive(cb, t.value, p.ts);
      if from == client {
        ReceiveStarts(cb, c.Of(client), t.value, p.ts);
      } else {
        CappedKeeps(c.Of(client), Capacities(frames));
        if Idle(c.Of(client), tableLimit) { CappedIdle(c.Of(client), Capacities(frames), tableLimit); }
      }
    }
  }

  lemma {:induction false} FollowIdle(cb: Codebook, c: Tracked, log: seq<Packet>, client: bool, tableLimit: nat)
    requires Idle(c.Of(client), tableLimit)
    ensures var tr := c.Follow(cb, log).Of(client);
            && c.Follow(cb, log).up == c.up
            && if forall p :: p in log ==> Silent(c.up, client, p) then Idle(tr, tableLimit) else tr.dir.r.initialized
    decreases |log|
  {
    hide Idle, Silent, Tracked.OnPacket;
    if log != [] {
      var n := |log| - 1;
      FollowIdle(cb, c, log[..n], client, tableLimit);
      PacketIdle(cb, c.Follow(cb, log[..n]), log[n], client, tableLimit);
      assert forall p :: p in log <==> p in log[..n] || p == log[n];
    }
  }

  /** Over every log of a connection seen from its SYN: a direction has no base exactly while
      no packet of the log brought it a SYN or payload; and then it counts as usable whenever
      the table limit admits the default table, with framing said to restart at sequence number
      zero, wherever its stream will start. */
  lemma UnstartedIsUsable(cb: Codebook, up: Endpoint, tableLimit: nat, log: seq<Packet>, client: bool, oldest: Option<nat>)
    ensures var tr := NewConn(up, true, tableLimit).Follow(cb, log).Of(client);
            && (!tr.dir.r.initialized <==> forall p :: p in log ==> Silent(up, client, p))
            && (!tr.dir.r.initialized ==>
                  (tr.Usable(oldest) <==> tableLimit >= 4096) && tr.dir.r.win.NextSeq() == 0)
  {
    hide Silent, Tracked.Follow;
    FollowIdle(cb, NewConn(up, true, tableLimit), log, client, tableLimit);
  }

  // ----- equal timestamps ------------------------------------------------------------------------

  function TwoAtOnce(up: Endpoint): seq<Packet> {
    [SentAt(5, up, 100, PSH + TCP_ACK, [1]), SentAt(5, up, 101, PSH + TCP_ACK, [2])]
  }

  /** Two packets in the same microsecond, room for one: the byte of the first is pending, the
      test passes, and the ring holds only the second. */
  lemma EqualTimestampsEscape(cb: Codebook, up: Endpoint, tableLimit: nat, maxAge: nat)
    requires Sender(up)
    ensures var log := TwoAtOnce(up);
            var ring := After(log, 55, maxAge);
            var tr := NewConn(up, false, tableLimit).Follow(cb, log).c2s;
            && Chronological(log) && tr.PendingCovered(Oldest(ring)) && ring == log[1..]
            && tr.dir.r.win == Window(100, 0, [1, 2])
            && !InLog(up, true, ring, 100, 1)
  {
    hide SentAt, Tracked.OnPacket, Carries, After, Tracked.Follow;
    var p, q := SentAt(5, up, 100, PSH + TCP_ACK, [1]), SentAt(5, up, 101, PSH + TCP_ACK, [2]);
    OneByte(up, 5, 100, 1);
    OneByte(up, 5, 101, 2);
    BothPending(cb, up, tableLimit);
    RingOfTwo(p, q, maxAge);
    NotThere(q, up, 100, 1);
  }

  lemma OneByte(up: Endpoint, ts: nat, s: u32, b: byte)
    requires Sender(up)
    ensures var p := SentAt(ts, up, s, PSH + TCP_ACK, [b]);
            p.ts == ts && |p.data| == 55 && forall at, v :: Carries(up, true, p, at, v) <==> at == s && v == b
  {
    hide SegmentOf, SentAt, ParseEthernet, Carries;
    SentIsHeard(ts, up, s, PSH + TCP_ACK, [b]);
    SentWhen(ts, up, s, [b]);
    CarriesOne(up, SentAt(ts, up, s, PSH + TCP_ACK, [b]), Expected(up, s, 0, PSH + TCP_ACK, [b]), b);
  }

  lemma CarriesOne(up: Endpoint, p: Packet, t: TcpSegment, b: byte)
    requires SegmentOf(up, true, p) == Some(t) && t.payload == [b]
    ensures forall at, v :: Carries(up, true, p, at, v) <==> at == t.seq_ && v == b
  {
    hide SegmentOf;
    forall at: u32 ensures Distance(t.seq_, at) < 1 <==> at == t.seq_ {
    }
  }

  lemma SentWhen(ts: nat, up: Endpoint, s: u32, payload: seq<byte>)
    ensures SentAt(ts, up, s, PSH + TCP_ACK, payload).ts == ts
  {
  }

  /** The track after both packets. */
  lemma BothPending(cb: Codebook, up: Endpoint, tableLimit: nat)
    requires Sender(up)
    ensures var tr := NewConn(up, false, tableLimit).Follow(cb, TwoAtOnce(up)).c2s;
            tr.pendingSince == Some(5) && tr.dir.r.win == Window(100, 0, [1, 2])
  {
    var c := NewConn(up, false, tableLimit);
    hide SentAt, Tracked.OnPacket, TwoAtOnce, ReasmState.Push;
    var r := c.c2s.dir.r;
    PushFirst(r, 100, 1, 5);
    ClientPacket(cb, c, 5, 100, 1);
    var c1 := c.OnPacket(cb, SentAt(5, up, 100, PSH + TCP_ACK, [1]));
    InOrderPush(c1.c2s.dir.r, [2], 5);
    ClientPacket(cb, c1, 5, 101, 2);
    FollowTwo(cb, c, SentAt(5, up, 100, PSH + TCP_ACK, [1]), SentAt(5, up, 101, PSH + TCP_ACK, [2]));
    TwoAre(up);
  }

  lemma TwoAre(up: Endpoint)
    ensures TwoAtOnce(up) == [SentAt(5, up, 100, PSH + TCP_ACK, [1]), SentAt(5, up, 101, PSH + TCP_ACK, [2])]
  {
  }

  lemma FollowTwo(cb: Codebook, c: Tracked, p: Packet, q: Packet)
    ensures c.Follow(cb, [p, q]) == c.OnPacket(cb, p).OnPacket(cb, q)
  {
    hide Tracked.OnPacket;
    assert [p, q][..1] == [p] && [p][..0] == [];
    assert c.Follow(cb, [p]) == c.OnPacket(cb, p);
  }

  lemma PushFirst(r: ReasmState, s: u32, b: byte, now: nat)
    requires r == NewReassembler()
    ensures r.Push(s, [b], now) == (r.Initialize(s).Append([b]), false)
  {
    InOrderPush(r.Initialize(s), [b], now);
  }

  lemma NotThere(p: Packet, up: Endpoint, at: u32, b: byte)
    requires !Carries(up, true, p, at, b)
    ensures !InLog(up, true, [p], at, b)
  {
  }

  /** Two packets of 55 bytes from the same microsecond, with room for 55. */
  lemma RingOfTwo(p: Packet, q: Packet, maxAge: nat)
    requires |p.data| == 55 && |q.data| == 55 && p.ts == q.ts
    ensures After([p, q], 55, maxAge) == [q]
  {
    assert [p, q][..1] == [p] && [p][..0] == [];
    SizeOfOne(p);
    SizeOfOne(q);
    SizeConcat([p], [q]);
    assert [p] + [q] == [p, q] && [p, q][1..] == [q] && [] + [p] == [p];
    hide Size;
    assert After([p], 55, maxAge) == Pushed([], p, 55, maxAge) == [p];
    assert DropExcess([q], 55) == [q];
  }

  lemma SizeOfOne(p: Packet)
    ensures Size([p]) == |p.data|
  {
    assert [p][1..] == [];
  }

  // ----- out of order --------------------------------------------------------------------------------

  const LATE := 1_500_002

  function HeldBehindHole(up: Endpoint): seq<Packet> {
    [SentAt(0, up, 99, SYN, []), SentAt(1, up, 101, PSH + TCP_ACK, [2]), SentAt(LATE, up, 100, PSH + TCP_ACK, [1])]
  }

  /** A segment held for a hole that fills a second and a half later: the pending bytes count as
      pending since the hole filled, so the test passes, though with a ring of one second the
      packet that was held is gone. */
  lemma HeldSegmentEscapes(cb: Codebook, up: Endpoint, tableLimit: nat, limit: nat)
    requires Sender(up) && limit >= 55
    ensures var log := HeldBehindHole(up);
            var ring := After(log, limit, 1_000_000);
            var tr := NewConn(up, true, tableLimit).Follow(cb, log).c2s;
            && tr.PendingCovered(Oldest(ring)) && ring == log[2..]
            && tr.dir.r.win == Window(100, 0, [1, 2]) && tr.dir.r.gaps == 0
            && !InLog(up, true, ring, 101, 2)
  {
    hide SentAt, Tracked.OnPacket, Carries, After, Tracked.Follow;
    var p, q, l := SentAt(0, up, 99, SYN, []), SentAt(1, up, 101, PSH + TCP_ACK, [2]), SentAt(LATE, up, 100, PSH + TCP_ACK, [1]);
    OneByte(up, LATE, 100, 1);
    OneByte(up, 1, 101, 2);
    SynWhen(up);
    HoleFills(cb, up, tableLimit);
    RingOfLast(p, q, l, limit);
    NotThere(l, up, 101, 2);
    assert HeldBehindHole(up)[2..] == [l];
  }

  lemma SynWhen(up: Endpoint)
    ensures SentAt(0, up, 99, SYN, []).ts == 0
  {
  }

  lemma SynPacket(cb: Codebook, c: Tracked)
    requires Sender(c.up)
    ensures c.OnPacket(cb, SentAt(0, c.up, 99, SYN, [])) == c.(c2s := c.c2s.NoteSyn(99))
  {
    hide SentAt, ParseEthernet, Track.Receive, ReasmState.NoteSyn;
    SentIsHeard(0, c.up, 99, SYN, []);
    SynWhen(c.up);
    TrackSyn(cb, c.c2s, Expected(c.up, 99, 0, SYN, []), 0);
    assert c.s2c.Capped([]) == c.s2c;
  }

  lemma TrackSyn(cb: Codebook, tr: Track, t: TcpSegment, now: nat)
    requires t.flags == SYN && t.payload == []
    ensures tr.Receive(cb, t, now) == (tr.NoteSyn(t.seq_), [])
  {
    assert Bit(SYN, SYN);
  }

  /** The track after the three packets. */
  lemma HoleFills(cb: Codebook, up: Endpoint, tableLimit: nat)
    requires Sender(up)
    ensures var tr := NewConn(up, true, tableLimit).Follow(cb, HeldBehindHole(up)).c2s;
            tr.pendingSince == Some(LATE) && tr.dir.r.win == Window(100, 0, [1, 2]) && tr.dir.r.gaps == 0
  {
    hide SentAt, Tracked.OnPacket, ReasmState.Push;
    var c := NewConn(up, true, tableLimit);
    SynPacket(cb, c);
    var c1 := c.(c2s := c.c2s.NoteSyn(99));
    var r1 := c1.c2s.dir.r;
    HoldOne(r1);
    ClientPacket(cb, c1, 1, 101, 2);
    var c2 := c1.OnPacket(cb, SentAt(1, up, 101, PSH + TCP_ACK, [2]));
    FillOne(r1);
    ClientPacket(cb, c2, LATE, 100, 1);
    FollowThree(cb, c, SentAt(0, up, 99, SYN, []), SentAt(1, up, 101, PSH + TCP_ACK, [2]), SentAt(LATE, up, 100, PSH + TCP_ACK, [1]));
  }

  lemma HoldOne(r: ReasmState)
    requires r == NewReassembler().NoteSyn(99)
    ensures r.Push(101, [2], 1) == (r.Hold(101, [2], 1), false)
  {
    assert SignedDiff(101, 100) == 1;
    assert HeldBytes([Held(101, [2])]) == 1;
  }

  lemma FillOne(r: ReasmState)
    requires r == NewReassembler().NoteSyn(99)
    ensures var r' := r.Hold(101, [2], 1).Push(100, [1], LATE);
            !r'.1 && r'.0.win == Window(100, 0, [1, 2]) && r'.0.gaps == 0
  {
    hide ReasmState.Drain, ReasmState.TakeDue, SignedDiff;
    var h := r.Hold(101, [2], 1);
    var a := h.Append([1]);
    assert [1][0..] == [1];
    assert SignedDiff(100, 100) == 0 by { NoDistance(100); }
    assert h.Push(100, [1], LATE) == (a.Drain(), false);
    DrainOne(a, 2);
  }

  lemma NoDistance(s: u32)
    ensures SignedDiff(s, s) == 0
  {
  }

  /** A held segment that is due is delivered, and then there is nothing left to drain. */
  lemma DrainOne(r: ReasmState, b: byte)
    requires r.ooo == [Held(r.nextSeq, [b])]
    ensures r.Drain() == r.(ooo := [], oooSince := None).Append([b])
  {
    hide SignedDiff, ReasmState.Append, ReasmState.TakeDue, ReasmState.Drain;
    NoDistance(r.nextSeq);
    assert FirstDue(r.ooo, r.nextSeq) == 0;
    DrainStep(r);
    TakeOne(r, b);
    AppendCommutes(r, b);
    DrainNothing(r.(ooo := []).Append([b]));
  }

  lemma DrainStep(r: ReasmState)
    requires r.ooo != [] && FirstDue(r.ooo, r.nextSeq) == 0
    ensures r.Drain() == r.TakeDue(0).Drain()
  {
    hide ReasmState.TakeDue, SignedDiff, FirstDue;
  }

  lemma TakeOne(r: ReasmState, b: byte)
    requires r.ooo == [Held(r.nextSeq, [b])] && SignedDiff(r.nextSeq, r.nextSeq) == 0
    ensures r.TakeDue(0) == r.(ooo := []).Append([b])
  {
    hide SignedDiff, ReasmState.Append, Without;
    WithoutOnly(Held(r.nextSeq, [b]));
    assert [b][0..] == [b];
  }

  lemma WithoutOnly(h: Held)
    ensures Without([h], 0) == []
  {
    assert |Without([h], 0)| == 0;
  }

  lemma AppendCommutes(r: ReasmState, b: byte)
    ensures r.(ooo := []).Append([b]).ooo == []
    ensures r.(ooo := []).Append([b]).(oooSince := None) == r.(ooo := [], oooSince := None).Append([b])
  {
  }

  lemma DrainNothing(r: ReasmState)
    requires r.ooo == []
    ensures r.Drain() == r.(oooSince := None)
  {
  }

  lemma FollowThree(cb: Codebook, c: Tracked, p: Packet, q: Packet, l: Packet)
    ensures c.Follow(cb, [p, q, l]) == c.OnPacket(cb, p).OnPacket(cb, q).OnPacket(cb, l)
  {
    hide Tracked.OnPacket;
    FollowTwo(cb, c, p, q);
    assert [p, q, l][..2] == [p, q];
  }

  lemma RingOfLast(p: Packet, q: Packet, l: Packet, limit: nat)
    requires p.ts == 0 && q.ts == 1 && l.ts == LATE && |l.data| <= limit
    ensures After([p, q, l], limit, 1_000_000) == [l]
  {
    var k := RingIsSuffix([p, q], limit, 1_000_000);
    var ring := [p, q][k..];
    assert [p, q, l][..2] == [p, q];
    var a := DropOldSuffix(ring + [l], 500_002);
    assert forall i :: 0 <= i < |ring| ==> (ring + [l])[i] == [p, q][k + i];
    assert (ring + [l])[|ring|] == l;
    assert a == |ring|;
    assert (ring + [l])[|ring|..] == [l];
    SizeOfOne(l);
    assert DropExcess([l], limit) == [l];
  }
}
