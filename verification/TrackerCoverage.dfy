/** Are the bytes a direction has received but not framed still in the ring? What the
    snapshot's test says about it, and exactly when it is right. */
module TrackerCoverage {
  import opened Basics
  import opened HpackInt
  import HpackSpec
  import opened ReassemblySpec
  import S = ReassemblySources
  import opened ConnSpec
  import opened ConnArrival
  import opened Pkt
  import opened CaptureRing
  import opened TrackerSpec

  /** The segment a packet carries for one direction of the connection, if any. */
  function SegmentOf(up: Endpoint, client: bool, p: Packet): Option<TcpSegment> {
    var t := ParseEthernet(p.data);
    if t.Some? && Owns(up, t.value) && FromClient(up, t.value) == client then t else None
  }

  /** Its payload at its sequence number, as the reassembler gets it; none without payload. */
  function PartOf(up: Endpoint, client: bool, p: Packet): Option<Held> {
    var t := SegmentOf(up, client, p);
    if t.Some? && t.value.payload != [] then Some(Held(t.value.seq_, t.value.payload)) else None
  }

  /** Does the packet carry byte `b` at absolute sequence number `at`? */
  predicate Carries(up: Endpoint, client: bool, p: Packet, at: u32, b: byte) {
    PartOf(up, client, p).Some? && S.Carries(PartOf(up, client, p).value, at, b)
  }

  ghost predicate InLog(up: Endpoint, client: bool, log: seq<Packet>, at: u32, b: byte) {
    exists i :: 0 <= i < |log| && Carries(up, client, log[i], at, b)
  }

  /** Every byte of the window came in a packet of the log. */
  ghost predicate FromLog(up: Endpoint, client: bool, log: seq<Packet>, w: Window) {
    forall j :: 0 <= j < |w.avail| ==> InLog(up, client, log, WrappingAdd(w.base, w.off + j), w.avail[j])
  }

  /** What the packets of a log bring this direction. */
  ghost function Parts(up: Endpoint, client: bool, log: seq<Packet>): set<Held> {
    set i | 0 <= i < |log| && PartOf(up, client, log[i]).Some? :: PartOf(up, client, log[i]).value
  }

  ghost function Elements(ooo: seq<Held>): set<Held> {
    set h | h in ooo
  }

  // ----- one packet ------------------------------------------------------------------------------

  /** The reassembler's state once it has noted a SYN. */
  function Noted(r: ReasmState, t: TcpSegment): ReasmState {
    if Bit(t.flags, SYN) then r.NoteSyn(t.seq_) else r
  }

  lemma NotedIs(tr: Track, t: TcpSegment)
    ensures Noted(tr.dir.r, t) == (if Bit(t.flags, SYN) then tr.NoteSyn(t.seq_) else tr).dir.r
  {
  }

  lemma {:induction false} ExtensionsShrink(ip: seq<byte>, next: byte, cur: nat, remaining: nat)
    ensures var r := WalkExtensions(ip, next, cur, remaining); r.Some? ==> r.value.1 <= remaining
    decreases remaining
  {
    if next != IPPROTO_TCP && Extension(next) && cur + 2 <= |ip| {
      var len := (ip[cur + 1] as int + 1) * 8;
      if len <= remaining { ExtensionsShrink(ip, ip[cur], cur + len, remaining - len); }
    }
  }

  /** A parsed payload is shorter than 2^16 bytes. */
  lemma PayloadFits(frame: seq<byte>)
    ensures ParseEthernet(frame).Some? ==> |ParseEthernet(frame).value.payload| < 0x1_0000
  {
    hide Be16, Be32;
    if ParseEthernet(frame).Some? {
      var (off, ethertype) := SkipTags(frame, 14, Be16(frame, 12)).value;
      var ip := frame[off..];
      if ethertype == ETHERTYPE_IPV6 { ExtensionsShrink(ip, ip[6], 40, Be16(ip, 4)); }
      var l := ParseIp(frame, off, ethertype).value;
      assert l.len < 0x1_0000;
      assert ParseEthernet(frame) == ParseTcp(frame[0..6], frame[6..12], l);
      hide SkipTags, ParseIp, ParseIpv4, ParseIpv6, ParseEthernet;
    }
  }

  lemma PayloadOf(up: Endpoint, client: bool, p: Packet)
    ensures var t := SegmentOf(up, client, p); t.Some? ==> |t.value.payload| < 0x1_0000
  {
    PayloadFits(p.data);
    hide ParseEthernet;
  }

  lemma {:induction false} CappedKeeps(tr: Track, caps: seq<u32>)
    ensures tr.Capped(caps).dir.r == tr.dir.r && tr.Capped(caps).pendingSince == tr.pendingSince
    ensures tr.Capped(caps).dir.c == tr.dir.c.(dec := tr.Capped(caps).dir.c.dec)
    decreases |caps|
  {
    if caps != [] {
      CappedKeeps(tr.(dir := tr.dir.(c := tr.dir.c.(dec := tr.dir.c.dec.ApplyPeerCapacity(caps[0])))), caps[1..]);
    }
  }

  lemma NotedPooled(r: ReasmState, pool: set<Held>, t: TcpSegment)
    requires S.Pooled(r, pool)
    ensures S.Pooled(Noted(r, t), pool) && Noted(r, t).win.avail == r.win.avail && Noted(r, t).ooo == r.ooo
  {
  }

  lemma ReceivePooled(cb: Codebook, tr: Track, pool: set<Held>, t: TcpSegment, now: nat)
    requires S.Pooled(tr.dir.r, pool) && |t.payload| < TWO32
    ensures S.Pooled(tr.Receive(cb, t, now).0.dir.r,
                     if t.payload == [] then pool else pool + {Held(t.seq_, t.payload)})
  {
    hide S.Pooled, Parse, ReasmState.Push, Noted, Core.OnGap;
    NotedPooled(tr.dir.r, pool, t);
    NotedIs(tr, t);
    if t.payload != [] {
      S.PushPooled(Noted(tr.dir.r, t), pool, t.seq_, t.payload, now);
      var (r', gap) := Noted(tr.dir.r, t).Push(t.seq_, t.payload, now);
      var k := ParseConsumes(cb, if gap then tr.dir.c.OnGap() else tr.dir.c, r'.win);
      S.ConsumePooled(r', pool + {Held(t.seq_, t.payload)}, k);
    }
  }

  lemma PacketPooled(cb: Codebook, c: Tracked, pool: set<Held>, p: Packet, client: bool)
    requires S.Pooled(c.Of(client).dir.r, pool)
    ensures c.OnPacket(cb, p).up == c.up
    ensures S.Pooled(c.OnPacket(cb, p).Of(client).dir.r, pool + Parts(c.up, client, [p]))
  {
    PartsOfOne(c.up, client, p);
    PayloadOf(c.up, client, p);
    hide S.Pooled, Track.Receive, Parts;
    var t := ParseEthernet(p.data);
    if t.Some? && Owns(c.up, t.value) {
      var (mine, frames) := c.Of(FromClient(c.up, t.value)).Receive(cb, t.value, p.ts);
      if FromClient(c.up, t.value) == client {
        ReceivePooled(cb, c.Of(client), pool, t.value, p.ts);
        assert pool + {} == pool;
      } else {
        CappedKeeps(c.Of(client), Capacities(frames));
        assert pool + {} == pool;
      }
    } else {
      assert pool + {} == pool;
    }
  }

  lemma PartsOfOne(up: Endpoint, client: bool, p: Packet)
    ensures Parts(up, client, [p]) == if PartOf(up, client, p).Some? then {PartOf(up, client, p).value} else {}
  {
    assert [p][0] == p;
  }

  lemma NoParts(up: Endpoint, client: bool)
    ensures Parts(up, client, []) == {}
  {
  }

  lemma PartsConcat(up: Endpoint, client: bool, a: seq<Packet>, b: seq<Packet>)
    ensures Parts(up, client, a + b) == Parts(up, client, a) + Parts(up, client, b)
  {
    hide PartOf;
    forall h | h in Parts(up, client, b) ensures h in Parts(up, client, a + b) {
      var i :| 0 <= i < |b| && PartOf(up, client, b[i]) == Some(h);
      assert (a + b)[|a| + i] == b[i];
    }
    forall h | h in Parts(up, client, a) ensures h in Parts(up, client, a + b) {
      var i :| 0 <= i < |a| && PartOf(up, client, a[i]) == Some(h);
      assert (a + b)[i] == a[i];
    }
  }

  /** Whatever the log brings, every byte waiting came in it, or from what there was before. */
  lemma {:induction false} FollowPooled(cb: Codebook, c: Tracked, pool: set<Held>, log: seq<Packet>, client: bool)
    requires S.Pooled(c.Of(client).dir.r, pool)
    ensures c.Follow(cb, log).up == c.up
    ensures S.Pooled(c.Follow(cb, log).Of(client).dir.r, pool + Parts(c.up, client, log))
    decreases |log|
  {
    hide S.Pooled, Tracked.OnPacket, Parts;
    if log == [] {
      NoParts(c.up, client);
      assert pool + {} == pool;
    } else {
      var n := |log| - 1;
      FollowPooled(cb, c, pool, log[..n], client);
      PacketPooled(cb, c.Follow(cb, log[..n]), pool + Parts(c.up, client, log[..n]), log[n], client);
      PartsConcat(c.up, client, log[..n], [log[n]]);
      assert log[..n] + [log[n]] == log;
      assert pool + Parts(c.up, client, log[..n]) + Parts(c.up, client, [log[n]]) == pool + Parts(c.up, client, log);
    }
  }

  // ----- the pending period ------------------------------------------------------------------------

  /** Pending since some time exactly while something is waiting. */
  predicate Timed(tr: Track) {
    tr.pendingSince.Some? <==> tr.dir.r.win.avail != []
  }

  lemma PacketTimed(cb: Codebook, c: Tracked, p: Packet, client: bool)
    requires Timed(c.Of(client))
    ensures var tr, tr' := c.Of(client), c.OnPacket(cb, p).Of(client);
            && Timed(tr')
            && (tr'.pendingSince.Some? ==> tr'.pendingSince == if tr.pendingSince.Some? then tr.pendingSince else Some(p.ts))
  {
    hide DirState.Feed, ParseEthernet, Owns;
    var t := ParseEthernet(p.data);
    if t.Some? && Owns(c.up, t.value) {
      var (mine, frames) := c.Of(FromClient(c.up, t.value)).Receive(cb, t.value, p.ts);
      CappedKeeps(c.Of(client), Capacities(frames));
    }
  }

  lemma {:induction false} FollowTimed(cb: Codebook, c: Tracked, log: seq<Packet>, client: bool)
    requires Timed(c.Of(client))
    ensures Timed(c.Follow(cb, log).Of(client))
    decreases |log|
  {
    hide Timed, Tracked.OnPacket;
    if log != [] {
      FollowTimed(cb, c, log[..|log| - 1], client);
      PacketTimed(cb, c.Follow(cb, log[..|log| - 1]), log[|log| - 1], client);
    }
  }

  /** The track of one direction after the first `n` packets. */
  function TrackAt(cb: Codebook, c: Tracked, log: seq<Packet>, client: bool, n: nat): Track
    requires n <= |log|
  {
    c.Follow(cb, log[..n]).Of(client)
  }

  /** The packet that began the present pending period, or the length of the log if nothing is
      pending. */
  function Began(cb: Codebook, c: Tracked, log: seq<Packet>, client: bool): (b: nat)
    ensures b <= |log|
    decreases |log|
  {
    if log == [] || c.Follow(cb, log).Of(client).pendingSince.None? then |log|
    else
      var earlier := log[..|log| - 1];
      if c.Follow(cb, earlier).Of(client).pendingSince.None? then |log| - 1 else Began(cb, c, earlier, client)
  }

  /** When it came, nothing was waiting; and it is what the present period counts from. */
  lemma {:induction false} BeganThere(cb: Codebook, c: Tracked, log: seq<Packet>, client: bool)
    requires c.Of(client).pendingSince.None? && Timed(c.Of(client))
    ensures var b := Began(cb, c, log, client);
            && TrackAt(cb, c, log, client, b).pendingSince.None?
            && (c.Follow(cb, log).Of(client).pendingSince.Some? ==>
                  b < |log| && c.Follow(cb, log).Of(client).pendingSince == Some(log[b].ts))
    decreases |log|
  {
    hide Timed, Tracked.OnPacket;
    assert log[..|log|] == log;
    if log != [] && c.Follow(cb, log).Of(client).pendingSince.Some? {
      var n := |log| - 1;
      var earlier := log[..n];
      FollowTimed(cb, c, earlier, client);
      PacketTimed(cb, c.Follow(cb, earlier), log[n], client);
      assert earlier[..|earlier|] == earlier;
      BeganThere(cb, c, earlier, client);
      var b := Began(cb, c, earlier, client);
      assert log[..b] == earlier[..b];
    }
  }

  /** What was held out of order when the present pending period began. */
  function HeldThen(cb: Codebook, c: Tracked, log: seq<Packet>, client: bool): seq<Held> {
    TrackAt(cb, c, log, client, Began(cb, c, log, client)).dir.r.ooo
  }

  // ----- the theorem ----------------------------------------------------------------------------------

  /** Every pending byte came in a packet no earlier than the one that began the period, or in
      a segment held at that time, which an earlier packet of the log had brought. */
  lemma PendingSources(cb: Codebook, c: Tracked, log: seq<Packet>, client: bool)
    requires c.Of(client).dir.r == NewReassembler() && c.Of(client).pendingSince.None?
    ensures var b := Began(cb, c, log, client);
            var held := Elements(HeldThen(cb, c, log, client));
            && S.WindowFromPool(c.Follow(cb, log).Of(client).dir.r.win, held + Parts(c.up, client, log[b..]))
            && held <= Parts(c.up, client, log[..b])
  {
    hide Tracked.Follow, S.Pooled, S.WindowFromPool, Parts, Elements, Began, Timed;
    BeganThere(cb, c, log, client) by { FreshTimed(c.Of(client)); }
    var b := Began(cb, c, log, client);
    var then_ := c.Follow(cb, log[..b]);
    FollowFresh(cb, c, log[..b], client);
    NothingWaiting(cb, c, log, client);
    OnlyHeld(then_.Of(client).dir.r, Parts(c.up, client, log[..b]));
    FollowPooled(cb, then_, Elements(HeldThen(cb, c, log, client)), log[b..], client);
    PooledWindow(then_.Follow(cb, log[b..]).Of(client).dir.r, Elements(HeldThen(cb, c, log, client)) + Parts(c.up, client, log[b..]));
    FollowConcat(cb, c, log[..b], log[b..]);
    assert log[..b] + log[b..] == log;
  }

  lemma FreshTimed(tr: Track)
    requires tr.dir.r == NewReassembler() && tr.pendingSince.None?
    ensures Timed(tr)
  {
  }

  /** When the period began, the window was empty. */
  lemma NothingWaiting(cb: Codebook, c: Tracked, log: seq<Packet>, client: bool)
    requires c.Of(client).dir.r == NewReassembler() && c.Of(client).pendingSince.None?
    ensures TrackAt(cb, c, log, client, Began(cb, c, log, client)).dir.r.win.avail == []
  {
    hide Tracked.Follow, Began;
    BeganThere(cb, c, log, client);
    FollowTimed(cb, c, log[..Began(cb, c, log, client)], client);
  }

  lemma PooledWindow(r: ReasmState, pool: set<Held>)
    requires S.Pooled(r, pool)
    ensures S.WindowFromPool(r.win, pool)
  {
  }

  lemma FollowFresh(cb: Codebook, c: Tracked, log: seq<Packet>, client: bool)
    requires c.Of(client).dir.r == NewReassembler()
    ensures c.Follow(cb, log).up == c.up
    ensures S.Pooled(c.Follow(cb, log).Of(client).dir.r, Parts(c.up, client, log))
  {
    hide Tracked.Follow, S.Pooled, Parts;
    FreshPooled();
    FollowPooled(cb, c, {}, log, client);
    assert {} + Parts(c.up, client, log) == Parts(c.up, client, log);
  }

  lemma FreshPooled()
    ensures S.Pooled(NewReassembler(), {})
  {
  }

  /** With nothing in the window, only what is held matters. */
  lemma OnlyHeld(r: ReasmState, pool: set<Held>)
    requires S.Pooled(r, pool) && r.win.avail == []
    ensures S.Pooled(r, Elements(r.ooo)) && Elements(r.ooo) <= pool
  {
  }

  lemma {:induction false} FollowConcat(cb: Codebook, c: Tracked, a: seq<Packet>, b: seq<Packet>)
    ensures c.Follow(cb, a + b) == c.Follow(cb, a).Follow(cb, b)
    decreases |b|
  {
    hide Tracked.OnPacket;
    if b == [] {
      assert a + b == a;
    } else {
      var n := |b| - 1;
      assert (a + b)[..|a + b| - 1] == a + b[..n];
      FollowConcat(cb, c, a, b[..n]);
    }
  }

  /** A packet the ring dropped that the test cannot tell from one it kept: it shares the
      oldest timestamp, or brought a segment held when the pending period began. */
  ghost predicate Overlooked(up: Endpoint, client: bool, p: Packet, ring: seq<Packet>, held: seq<Held>) {
    (ring != [] && p.ts == ring[0].ts) || (PartOf(up, client, p).Some? && PartOf(up, client, p).value in held)
  }

  /** No dropped packet that the test overlooks brought a pending byte that no kept one carries. */
  ghost predicate NothingOverlooked(up: Endpoint, client: bool, dropped: seq<Packet>, ring: seq<Packet>, held: seq<Held>, w: Window) {
    forall i, j :: 0 <= i < |dropped| && 0 <= j < |w.avail| ==>
      Overlooked(up, client, dropped[i], ring, held) &&
      Carries(up, client, dropped[i], WrappingAdd(w.base, w.off + j), w.avail[j]) ==>
        InLog(up, client, ring, WrappingAdd(w.base, w.off + j), w.avail[j])
  }

  /** What the ring has dropped of everything pushed. */
  function Evicted(all: seq<Packet>, limit: nat, maxAge: nat): seq<Packet> {
    var n := |After(all, limit, maxAge)|;
    all[..if n <= |all| then |all| - n else 0]
  }

  lemma RingSplits(all: seq<Packet>, limit: nat, maxAge: nat)
    ensures all == Evicted(all, limit, maxAge) + After(all, limit, maxAge)
  {
    var k := RingIsSuffix(all, limit, maxAge);
    hide After;
    assert all == all[..k] + all[k..];
  }

  /** Exactly when the snapshot's test is right. Whatever came, with holes and duplicates: if
      the test says the pending bytes are covered, they are in the ring if and only if no dropped
      packet the test overlooks brought a pending byte that no kept packet carries. */
  lemma CoveredIffNothingOverlooked(cb: Codebook, up: Endpoint, fromStart: bool, tableLimit: nat, before: seq<Packet>, log: seq<Packet>,
                                    client: bool, limit: nat, maxAge: nat)
    requires Chronological(before + log)
    requires var ring := After(before + log, limit, maxAge);
             NewConn(up, fromStart, tableLimit).Follow(cb, log).Of(client).PendingCovered(Oldest(ring))
    ensures var ring, dropped := After(before + log, limit, maxAge), Evicted(before + log, limit, maxAge);
            var c := NewConn(up, fromStart, tableLimit);
            var w := c.Follow(cb, log).Of(client).dir.r.win;
            FromLog(up, client, ring, w) <==> NothingOverlooked(up, client, dropped, ring, HeldThen(cb, c, log, client), w)
  {
    hide After, Evicted, Tracked.Follow, Carries, Chronological, Parts, HeldThen, Began;
    var c := NewConn(up, fromStart, tableLimit);
    var ring, dropped := After(before + log, limit, maxAge), Evicted(before + log, limit, maxAge);
    RingSplits(before + log, limit, maxAge);
    StartsTimed(up, fromStart, tableLimit);
    hide NewConn;
    PendingSources(cb, c, log, client);
    FollowTimed(cb, c, log, client);
    BeganThere(cb, c, log, client);
    var tr := c.Follow(cb, log).Of(client);
    var w, held, b := tr.dir.r.win, HeldThen(cb, c, log, client), Began(cb, c, log, client);
    if NothingOverlooked(up, client, dropped, ring, held, w) {
      forall j | 0 <= j < |w.avail| ensures InLog(up, client, ring, WrappingAdd(w.base, w.off + j), w.avail[j]) {
        PendingByte(up, client, before, log, b, tr.pendingSince.value, held, dropped, ring, w, j);
      }
    }
  }

  lemma StartsTimed(up: Endpoint, fromStart: bool, tableLimit: nat)
    ensures var c := NewConn(up, fromStart, tableLimit);
            && c.up == up
            && forall client :: c.Of(client).dir.r == NewReassembler() && c.Of(client).pendingSince.None? && Timed(c.Of(client))
  {
  }

  /** One pending byte: the packet that brought it was kept, or dropped and overlooked. */
  lemma PendingByte(up: Endpoint, client: bool, before: seq<Packet>, log: seq<Packet>, b: nat, since: nat, held: seq<Held>,
                    dropped: seq<Packet>, ring: seq<Packet>, w: Window, j: nat)
    requires b < |log| && since == log[b].ts && ring != [] && since >= ring[0].ts
    requires Chronological(before + log) && before + log == dropped + ring
    requires S.WindowFromPool(w, Elements(held) + Parts(up, client, log[b..])) && Elements(held) <= Parts(up, client, log[..b])
    requires NothingOverlooked(up, client, dropped, ring, held, w) && j < |w.avail|
    ensures InLog(up, client, ring, WrappingAdd(w.base, w.off + j), w.avail[j])
  {
    hide PartOf, S.Carries;
    var at, v := WrappingAdd(w.base, w.off + j), w.avail[j];
    assert S.FromPool(Elements(held) + Parts(up, client, log[b..]), at, v);
    var h :| h in Elements(held) + Parts(up, client, log[b..]) && S.Carries(h, at, v);
    var i := BroughtAt(up, client, before, log, b, h, h in held);
    assert Carries(up, client, (before + log)[i], at, v);
    if i >= |dropped| {
      assert (dropped + ring)[i] == ring[i - |dropped|];
    } else {
      assert (dropped + ring)[i] == dropped[i];
      if h !in held { SameTime(before, log, b, dropped, ring, i); }
      assert Overlooked(up, client, dropped[i], ring, held);
    }
  }

  /** Where in the whole log a part was brought. */
  lemma BroughtAt(up: Endpoint, client: bool, before: seq<Packet>, log: seq<Packet>, b: nat, h: Held, early: bool) returns (i: nat)
    requires b <= |log|
    requires if early then h in Parts(up, client, log[..b]) else h in Parts(up, client, log[b..])
    ensures i < |before + log| && PartOf(up, client, (before + log)[i]) == Some(h)
    ensures !early ==> i >= |before| + b
  {
    hide PartOf;
    if early {
      var k :| 0 <= k < b && PartOf(up, client, log[..b][k]) == Some(h);
      i := |before| + k;
      assert (before + log)[i] == log[k];
    } else {
      var k :| 0 <= k < |log| - b && PartOf(up, client, log[b..][k]) == Some(h);
      i := |before| + b + k;
      assert (before + log)[i] == log[b + k];
    }
  }

  /** A dropped packet of the period shares the oldest timestamp. */
  lemma SameTime(before: seq<Packet>, log: seq<Packet>, b: nat, dropped: seq<Packet>, ring: seq<Packet>, i: nat)
    requires Chronological(before + log) && before + log == dropped + ring && ring != []
    requires b < |log| && log[b].ts >= ring[0].ts && |before| + b <= i < |dropped|
    ensures dropped[i].ts == ring[0].ts
  {
    var all := before + log;
    assert all[|before| + b] == log[b] && all[i] == dropped[i] && all[|dropped|] == ring[0];
  }

  // ----- when nothing is overlooked -----------------------------------------------------------------

  /** The ring parts no two packets of the same microsecond. */
  predicate CleanCut(dropped: seq<Packet>, ring: seq<Packet>) {
    dropped != [] && ring != [] ==> dropped[|dropped| - 1].ts < ring[0].ts
  }

  /** Pending bytes are in the capture: covered, the ring cut between two microseconds, nothing
      held when the present pending period began. Then every byte received but not yet framed
      came in a packet that is still in the ring. */
  lemma PendingIsInRing(cb: Codebook, up: Endpoint, fromStart: bool, tableLimit: nat, before: seq<Packet>, log: seq<Packet>,
                        client: bool, limit: nat, maxAge: nat)
    requires Chronological(before + log) && CleanCut(Evicted(before + log, limit, maxAge), After(before + log, limit, maxAge))
    requires HeldThen(cb, NewConn(up, fromStart, tableLimit), log, client) == []
    requires var ring := After(before + log, limit, maxAge);
             NewConn(up, fromStart, tableLimit).Follow(cb, log).Of(client).PendingCovered(Oldest(ring))
    ensures FromLog(up, client, After(before + log, limit, maxAge),
                    NewConn(up, fromStart, tableLimit).Follow(cb, log).Of(client).dir.r.win)
  {
    hide After, Evicted, Tracked.Follow, Carries, HeldThen, NewConn, InLog;
    CoveredIffNothingOverlooked(cb, up, fromStart, tableLimit, before, log, client, limit, maxAge);
    RingSplits(before + log, limit, maxAge);
    var ring, dropped := After(before + log, limit, maxAge), Evicted(before + log, limit, maxAge);
    var c := NewConn(up, fromStart, tableLimit);
    forall i | 0 <= i < |dropped| ensures !Overlooked(up, client, dropped[i], ring, HeldThen(cb, c, log, client)) {
      NotShared(before + log, dropped, ring, i);
    }
  }

  lemma NotShared(all: seq<Packet>, dropped: seq<Packet>, ring: seq<Packet>, i: nat)
    requires Chronological(all) && all == dropped + ring && CleanCut(dropped, ring) && i < |dropped|
    ensures ring != [] ==> dropped[i].ts != ring[0].ts
  {
    assert all[i] == dropped[i] && all[|dropped| - 1] == dropped[|dropped| - 1];
  }

  // ----- in order -----------------------------------------------------------------------------------

  /** The packet's segment, if it has one in this direction, does not run ahead of the stream. */
  predicate NotAhead(c: Tracked, p: Packet, client: bool) {
    var t := SegmentOf(c.up, client, p);
    t.Some? ==>
      var r := Noted(c.Of(client).dir.r, t.value);
      r.initialized ==> SignedDiff(t.value.seq_, r.nextSeq) <= 0
  }

  /** In order throughout the log: duplicates and overlaps are allowed, holes are not. */
  predicate NeverAhead(cb: Codebook, c: Tracked, log: seq<Packet>, client: bool) {
    forall i :: 0 <= i < |log| ==> NotAhead(c.Follow(cb, log[..i]), log[i], client)
  }

  lemma NeverAheadPart(cb: Codebook, c: Tracked, log: seq<Packet>, p: Packet, client: bool)
    requires NeverAhead(cb, c, log + [p], client)
    ensures NeverAhead(cb, c, log, client) && NotAhead(c.Follow(cb, log), p, client)
  {
    hide NotAhead, Tracked.Follow;
    var all := log + [p];
    assert all[..|log|] == log && all[|log|] == p;
    assert NotAhead(c.Follow(cb, all[..|log|]), all[|log|], client);
    forall i | 0 <= i < |log| ensures NotAhead(c.Follow(cb, log[..i]), log[i], client) {
      assert all[..i] == log[..i] && all[i] == log[i];
      assert NotAhead(c.Follow(cb, all[..i]), all[i], client);
    }
  }

  lemma PushHoldsNothing(r: ReasmState, s: u32, data: seq<byte>, now: nat)
    requires r.ooo == [] && (r.initialized ==> SignedDiff(s, r.nextSeq) <= 0)
    ensures r.Push(s, data, now).0.ooo == [] && !r.Push(s, data, now).1
  {
    hide ReasmState.Append, ReasmState.ForceGap, ReasmState.Hold;
    assert SignedDiff(s, s) == 0;
    if data != [] {
      var i := r.Initialize(s);
      var diff := SignedDiff(s, i.nextSeq);
      if -diff < |data| || diff == 0 { AppendHoldsNothing(i, data[-diff..]); }
    }
  }

  lemma AppendHoldsNothing(r: ReasmState, data: seq<byte>)
    requires r.ooo == []
    ensures r.Append(data).Drain().ooo == []
  {
  }

  lemma PacketHoldsNothing(cb: Codebook, c: Tracked, p: Packet, client: bool)
    requires c.Of(client).dir.r.ooo == [] && NotAhead(c, p, client)
    ensures c.OnPacket(cb, p).up == c.up && c.OnPacket(cb, p).Of(client).dir.r.ooo == []
  {
    hide ReasmState.Push, Parse, ParseEthernet, Core.OnGap;
    var t := ParseEthernet(p.data);
    if t.Some? && Owns(c.up, t.value) {
      var tr := c.Of(FromClient(c.up, t.value));
      var (mine, frames) := tr.Receive(cb, t.value, p.ts);
      CappedKeeps(c.Of(client), Capacities(frames));
      if FromClient(c.up, t.value) == client {
        NotedIs(tr, t.value);
        PushHoldsNothing(Noted(tr.dir.r, t.value), t.value.seq_, t.value.payload, p.ts);
      }
    }
  }

  /** In order, nothing is ever held: only a shared timestamp can be overlooked. */
  lemma {:induction false} InOrderHoldsNothing(cb: Codebook, c: Tracked, log: seq<Packet>, client: bool)
    requires c.Of(client).dir.r.ooo == [] && NeverAhead(cb, c, log, client)
    ensures c.Follow(cb, log).up == c.up && c.Follow(cb, log).Of(client).dir.r.ooo == []
    decreases |log|
  {
    hide NeverAhead, NotAhead, Tracked.OnPacket;
    if log != [] {
      var n := |log| - 1;
      assert log[..n] + [log[n]] == log;
      NeverAheadPart(cb, c, log[..n], log[n], client);
      InOrderHoldsNothing(cb, c, log[..n], client);
      PacketHoldsNothing(cb, c.Follow(cb, log[..n]), log[n], client);
    }
  }

  lemma InOrderHeldThen(cb: Codebook, c: Tracked, log: seq<Packet>, client: bool)
    requires c.Of(client).dir.r.ooo == [] && NeverAhead(cb, c, log, client)
    ensures HeldThen(cb, c, log, client) == []
  {
    hide Tracked.Follow, NotAhead;
    var b := Began(cb, c, log, client);
    assert forall i :: 0 <= i < b ==> log[..b][..i] == log[..i] && log[..b][i] == log[i];
    InOrderHoldsNothing(cb, c, log[..b], client);
  }

  /** In order, exactly: covered, the pending bytes are in the ring if and only if no dropped packet
      with the ring's oldest timestamp brought a pending byte that no kept packet carries. */
  lemma InOrderExactly(cb: Codebook, up: Endpoint, fromStart: bool, tableLimit: nat, before: seq<Packet>, log: seq<Packet>,
                       client: bool, limit: nat, maxAge: nat)
    requires Chronological(before + log) && NeverAhead(cb, NewConn(up, fromStart, tableLimit), log, client)
    requires var ring := After(before + log, limit, maxAge);
             NewConn(up, fromStart, tableLimit).Follow(cb, log).Of(client).PendingCovered(Oldest(ring))
    ensures var ring, evicted := After(before + log, limit, maxAge), Evicted(before + log, limit, maxAge);
            var w := NewConn(up, fromStart, tableLimit).Follow(cb, log).Of(client).dir.r.win;
            FromLog(up, client, ring, w) <==> NothingOverlooked(up, client, evicted, ring, [], w)
  {
    StartsTimed(up, fromStart, tableLimit);
    hide NewConn, After, Evicted, Tracked.Follow, HeldThen, NeverAhead, FromLog, NothingOverlooked, Chronological;
    InOrderHeldThen(cb, NewConn(up, fromStart, tableLimit), log, client);
    CoveredIffNothingOverlooked(cb, up, fromStart, tableLimit, before, log, client, limit, maxAge);
  }
}
