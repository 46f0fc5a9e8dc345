/** A direction the daemon follows, against the stream its peer sent: retransmitted, cut and
    reordered as it may come, what waits to be framed is the stream's, and what waits has
    arrived since the pending period began. */
module TrackerStream {
  import opened Basics
  import opened HpackInt
  import opened ReassemblySpec
  import R = ReassemblyTheorems
  import opened ConnSpec
  import opened ConnLifted
  import ConnArrival
  import opened ConnShown
  import opened Frame
  import opened Pkt
  import opened CaptureRing
  import opened TrackerSpec
  import opened TrackerCoverage

  // ----- whose packet it is -------------------------------------------------------------------

  /** On a connection with two different ends, a packet of it goes to the direction it travels in,
      even when both ends share an address. */
  lemma EachToItsOwn(up: Endpoint, t: TcpSegment)
    requires Owns(up, t) && (up.srcIp, up.srcPort) != (up.dstIp, up.dstPort)
    ensures FromClient(up, t) <==> Travels(t, up)
    ensures !FromClient(up, t) <==> Travels(t, up.Reversed())
  {
  }

  /** Where the two directions of a connection begin to read: from its SYN, the client's behind the
      preface and the server's at the first byte, both as a direction that expects none; joined
      midway, nowhere yet. */
  lemma WhereReadingBegins(cb: Codebook, up: Endpoint, limit: nat, base: u32, b: seq<byte>)
    ensures var c, none := NewConn(up, true, limit), FromConnectionStart(false, false).SetTableTrackLimit(limit);
            && c.s2c.dir.c == none
            && Parse(cb, c.c2s.dir.c, Window(base, 0, PREFACE + b)) == Parse(cb, none, Window(base, |PREFACE|, b))
    ensures var c := NewConn(up, false, limit);
            c.c2s.dir.c.desynced && c.s2c.dir.c.desynced && !c.c2s.dir.c.expectPreface && !c.s2c.dir.c.expectPreface
  {
    hide Parse;
    var c, none := NewConn(up, true, limit), FromConnectionStart(false, false).SetTableTrackLimit(limit);
    var w := Window(base, 0, PREFACE + b);
    assert w.avail[|PREFACE|..] == b;
    PrefaceIsOptional(cb, c.c2s.dir.c, w);
    assert c.c2s.dir.c.(expectPreface := false) == none;
    assert w.Consume(|PREFACE|) == Window(base, |PREFACE|, b);
  }

  // ----- against the stream -----------------------------------------------------------------------

  /** A captured packet, with the true stream offset of the payload it brings a direction. */
  datatype Captured = Captured(p: Packet, o: int)

  function Packets(log: seq<Captured>): (r: seq<Packet>)
    ensures |r| == |log|
  {
    seq(|log|, i requires 0 <= i < |log| => log[i].p)
  }

  lemma PacketsParts(log: seq<Captured>, n: nat)
    requires n <= |log|
    ensures Packets(log[..n]) == Packets(log)[..n] && Packets(log[n..]) == Packets(log)[n..]
  {
  }

  lemma PacketsConcat(a: seq<Captured>, b: seq<Captured>)
    ensures Packets(a + b) == Packets(a) + Packets(b)
  {
  }

  /** What it brings is the stream's, at that offset from `base`. */
  predicate Slices(up: Endpoint, client: bool, q: Captured, base: u32, str: R.Stream) {
    var h := PartOf(up, client, q.p);
    h.Some? ==> h.value.seq_ == WrappingAdd(base, q.o) && h.value.data == R.Slice(str, q.o, q.o + |h.value.data|)
  }

  /** The segments a log brings, by offset. */
  ghost function SegsOf(up: Endpoint, client: bool, log: seq<Captured>): set<R.Seg> {
    set i | 0 <= i < |log| && PartOf(up, client, log[i].p).Some? :: R.Seg(log[i].o, |PartOf(up, client, log[i].p).value.data|)
  }

  lemma SegsConcat(up: Endpoint, client: bool, a: seq<Captured>, b: seq<Captured>)
    ensures SegsOf(up, client, a + b) == SegsOf(up, client, a) + SegsOf(up, client, b)
  {
    hide PartOf;
    forall g | g in SegsOf(up, client, b) ensures g in SegsOf(up, client, a + b) {
      var i :| 0 <= i < |b| && PartOf(up, client, b[i].p).Some? && g == R.Seg(b[i].o, |PartOf(up, client, b[i].p).value.data|);
      assert (a + b)[|a| + i] == b[i];
    }
    forall g | g in SegsOf(up, client, a) ensures g in SegsOf(up, client, a + b) {
      var i :| 0 <= i < |a| && PartOf(up, client, a[i].p).Some? && g == R.Seg(a[i].o, |PartOf(up, client, a[i].p).value.data|);
      assert (a + b)[i] == a[i];
    }
  }

  lemma SegsOfOne(up: Endpoint, client: bool, q: Captured)
    ensures var h := PartOf(up, client, q.p);
            SegsOf(up, client, [q]) == if h.Some? then {R.Seg(q.o, |h.value.data|)} else {}
  {
    assert [q][0] == q;
  }

  lemma NoSegs(up: Endpoint, client: bool)
    ensures SegsOf(up, client, []) == {}
  {
  }

  /** The segment lies within 2^31 of the position expected. */
  ghost predicate Near(r: ReasmState, up: Endpoint, client: bool, q: Captured) {
    var t := SegmentOf(up, client, q.p);
    t.Some? && t.value.payload != [] ==>
      R.InWindow(Noted(r, t.value).Initialize(t.value.seq_), q.o, |t.value.payload|)
  }

  /** Every packet of the log brings a slice of the stream, near what is expected when it comes. */
  ghost predicate InStream(cb: Codebook, c: Tracked, log: seq<Captured>, client: bool, base: u32, str: R.Stream) {
    forall i :: 0 <= i < |log| ==>
      Slices(c.up, client, log[i], base, str) && Near(TrackAt(cb, c, Packets(log), client, i).dir.r, c.up, client, log[i])
  }

  // ----- one packet -----------------------------------------------------------------------------

  /** The reassembler is on the stream and has kept all of `segs`, counting from `from`. */
  ghost predicate Recorded(r: ReasmState, from: int, segs: set<R.Seg>, base: u32, str: R.Stream) {
    && from <= r.win.off
    && if r.initialized then R.Inv(r, str) && r.win.base == base && R.Tracks(r, from, segs)
       else r == NewReassembler() && from == 0 && segs == {}
  }

  lemma NotedRecorded(r: ReasmState, from: int, segs: set<R.Seg>, base: u32, str: R.Stream, t: TcpSegment)
    requires Recorded(r, from, segs, base, str)
    requires Noted(r, t).initialized ==> Noted(r, t).win.base == base
    ensures Recorded(Noted(r, t), from, segs, base, str) && Noted(r, t).gaps == r.gaps
  {
    if !r.initialized && Bit(t.flags, SYN) { R.FromSynStarts(t.seq_, str); }
  }

  lemma StartedRecorded(r: ReasmState, from: int, segs: set<R.Seg>, base: u32, str: R.Stream, s: u32)
    requires Recorded(r, from, segs, base, str) && r.Initialize(s).win.base == base
    ensures Recorded(r.Initialize(s), from, segs, base, str) && r.Initialize(s).gaps == r.gaps
  {
    if !r.initialized {
      assert R.HeldSegs(r.Initialize(s)) == {};
    }
  }

  /** A slice is delivered or held, and the part that is waiting stays behind `from`. */
  lemma PushRecorded(r: ReasmState, from: int, segs: set<R.Seg>, base: u32, str: R.Stream, o: int, len: nat, now: nat)
    requires Recorded(r, from, segs, base, str) && r.initialized && R.InWindow(r, o, len) && len > 0
    ensures var (r', gap) := R.Receive(r, str, o, len, now);
            && r'.gaps == r.gaps + (if gap then 1 else 0)
            && (!gap ==> Recorded(r', from, segs + {R.Seg(o, len)}, base, str) && r'.initialized)
  {
    hide R.Inv, R.Tracks, ReasmState.Push;
    R.PushTracks(r, str, from, segs, o, len, now);
    var (r', gap) := R.Receive(r, str, o, len, now);
    InvStarted(r', str);
    if !gap { R.PushAppends(r, str, o, len, now); }
  }

  lemma InvStarted(r: ReasmState, str: R.Stream)
    ensures R.Inv(r, str) ==> r.initialized
  {
  }

  lemma ConsumeRecorded(r: ReasmState, from: int, segs: set<R.Seg>, base: u32, str: R.Stream, k: nat)
    requires Recorded(r, from, segs, base, str) && r.initialized && k <= |r.win.avail|
    ensures Recorded(r.(win := r.win.Consume(k)), from, segs, base, str)
  {
    R.ConsumeSafe(r, str, k);
    hide R.Inv;
  }

  /** A gap costs the trust that the snapshot asks for. */
  lemma FeedTrusted(cb: Codebook, s: DirState, q: u32, data: seq<byte>, now: nat)
    requires !s.Feed(cb, q, data, now).0.c.poisoned
    ensures !s.r.Push(q, data, now).1 && !s.c.poisoned
    ensures s.Feed(cb, q, data, now).0.c == Parse(cb, s.c, s.r.Push(q, data, now).0.win).0
  {
    hide Parse, ReasmState.Push;
    var (r', gap) := s.r.Push(q, data, now);
    ParseSticks(cb, if gap then s.c.OnGap() else s.c, r'.win);
  }

  lemma ReceiveRecorded(cb: Codebook, tr: Track, up: Endpoint, client: bool, q: Captured, t: TcpSegment,
                        from: int, segs: set<R.Seg>, base: u32, str: R.Stream)
    requires Recorded(tr.dir.r, from, segs, base, str) && SegmentOf(up, client, q.p) == Some(t)
    requires Slices(up, client, q, base, str) && Near(tr.dir.r, up, client, q)
    requires var tr' := tr.Receive(cb, t, q.p.ts).0;
             !tr'.dir.c.poisoned && (tr'.dir.r.initialized ==> tr'.dir.r.win.base == base)
    ensures var tr' := tr.Receive(cb, t, q.p.ts).0;
            && Recorded(tr'.dir.r, from, segs + SegsOf(up, client, [q]), base, str)
            && tr'.dir.r.gaps == tr.dir.r.gaps && !tr.dir.c.poisoned
  {
    SegsOfOne(up, client, q);
    NotedIs(tr, t);
    var n := Noted(tr.dir.r, t);
    hide SegsOf, Parse, ReasmState.Push, Noted, Recorded, SegmentOf, R.Slice;
    if t.payload == [] {
      NotedRecorded(tr.dir.r, from, segs, base, str, t);
      assert segs + {} == segs;
    } else {
      var noted := if Bit(t.flags, SYN) then tr.NoteSyn(t.seq_) else tr;
      FeedTrusted(cb, noted.dir, t.seq_, t.payload, q.p.ts);
      BaseOfPush(n, t.seq_, t.payload, q.p.ts);
      var i, r' := n.Initialize(t.seq_), n.Push(t.seq_, t.payload, q.p.ts).0;
      var k := ConnArrival.ParseConsumes(cb, tr.dir.c, r'.win);
      assert tr.Receive(cb, t, q.p.ts).0.dir.r == r'.(win := r'.win.Consume(k));
      assert i.win.base == base;
      NotedRecorded(tr.dir.r, from, segs, base, str, t);
      StartedRecorded(n, from, segs, base, str, t.seq_);
      PushInitializes(n, t.seq_, t.payload, q.p.ts);
      PushRecorded(i, from, segs, base, str, q.o, |t.payload|, q.p.ts);
      ConsumeRecorded(r', from, segs + {R.Seg(q.o, |t.payload|)}, base, str, k);
    }
  }

  /** The base is fixed by the first SYN or segment and stays. */
  lemma BaseOfPush(r: ReasmState, s: u32, data: seq<byte>, now: nat)
    requires data != []
    ensures var i, r' := r.Initialize(s), r.Push(s, data, now).0;
            r'.win.base == i.win.base && r'.initialized && (r.initialized ==> i == r)
  {
    hide ReasmState.Drain, SignedDiff, HeldBytes;
    var i := r.Initialize(s);
    var held := i.Hold(s, data, now);
    DrainBase(held.Skip(Nearest(held.ooo, held.nextSeq)));
    var diff := SignedDiff(s, i.nextSeq);
    if diff <= 0 && (-diff < |data| || diff == 0) { DrainBase(i.Append(data[-diff..])); }
  }

  lemma {:induction false} DrainBase(r: ReasmState)
    ensures r.Drain().win.base == r.win.base && r.Drain().initialized == r.initialized
    decreases |r.ooo|
  {
    var i := FirstDue(r.ooo, r.nextSeq);
    if i < |r.ooo| { DrainBase(r.TakeDue(i)); }
  }

  lemma PushInitializes(r: ReasmState, s: u32, data: seq<byte>, now: nat)
    ensures data != [] ==> r.Push(s, data, now) == r.Initialize(s).Push(s, data, now)
  {
    hide ReasmState.PushReady;
  }

  /** One packet never undoes a base, nor a lost trust. */
  lemma PacketKeeps(cb: Codebook, c: Tracked, p: Packet, client: bool)
    ensures var tr, tr' := c.Of(client), c.OnPacket(cb, p).Of(client);
            && c.OnPacket(cb, p).up == c.up
            && (tr.dir.r.initialized ==> tr'.dir.r.initialized && tr'.dir.r.win.base == tr.dir.r.win.base)
            && (tr.dir.c.poisoned ==> tr'.dir.c.poisoned)
  {
    hide ParseEthernet, DirState.Feed, ReasmState.NoteSyn;
    var t := ParseEthernet(p.data);
    if t.Some? && Owns(c.up, t.value) {
      var (mine, frames) := c.Of(FromClient(c.up, t.value)).Receive(cb, t.value, p.ts);
      if FromClient(c.up, t.value) == client {
        ReceiveKeeps(cb, c.Of(client), t.value, p.ts);
      } else {
        CappedKeeps(c.Of(client), Capacities(frames));
      }
    }
  }

  lemma ReceiveKeeps(cb: Codebook, tr: Track, t: TcpSegment, now: nat)
    ensures var tr' := tr.Receive(cb, t, now).0;
            && (tr.dir.r.initialized ==> tr'.dir.r.initialized && tr'.dir.r.win.base == tr.dir.r.win.base)
            && (tr.dir.c.poisoned ==> tr'.dir.c.poisoned)
  {
    NotedIs(tr, t);
    var n := Noted(tr.dir.r, t);
    hide Parse, ReasmState.Push;
    if t.payload != [] {
      BaseOfPush(n, t.seq_, t.payload, now);
      var (r', gap) := n.Push(t.seq_, t.payload, now);
      var k := ConnArrival.ParseConsumes(cb, if gap then tr.dir.c.OnGap() else tr.dir.c, r'.win);
      ParseSticks(cb, if gap then tr.dir.c.OnGap() else tr.dir.c, r'.win);
    }
  }

  lemma PacketRecorded(cb: Codebook, c: Tracked, q: Captured, client: bool, from: int, segs: set<R.Seg>, base: u32, str: R.Stream)
    requires Recorded(c.Of(client).dir.r, from, segs, base, str)
    requires Slices(c.up, client, q, base, str) && Near(c.Of(client).dir.r, c.up, client, q)
    requires var tr' := c.OnPacket(cb, q.p).Of(client);
             !tr'.dir.c.poisoned && (tr'.dir.r.initialized ==> tr'.dir.r.win.base == base)
    ensures var tr' := c.OnPacket(cb, q.p).Of(client);
            Recorded(tr'.dir.r, from, segs + SegsOf(c.up, client, [q]), base, str) && tr'.dir.r.gaps == c.Of(client).dir.r.gaps
  {
    SegsOfOne(c.up, client, q);
    hide SegsOf, Track.Receive, Recorded, Slices, Near, ParseEthernet;
    assert segs + {} == segs;
    var t := ParseEthernet(q.p.data);
    if t.Some? && Owns(c.up, t.value) {
      var (mine, frames) := c.Of(FromClient(c.up, t.value)).Receive(cb, t.value, q.p.ts);
      if FromClient(c.up, t.value) == client {
        ReceiveRecorded(cb, c.Of(client), c.up, client, q, t.value, from, segs, base, str);
      } else {
        CappedKeeps(c.Of(client), Capacities(frames));
      }
    }
  }

  // ----- a log -------------------------------------------------------------------------------------

  /** Followed through a log of slices without losing trust, everything the log brought is
      recorded, and nothing else. */
  lemma {:induction false} FollowRecorded(cb: Codebook, c: Tracked, log: seq<Captured>, client: bool,
                                          from: int, segs: set<R.Seg>, base: u32, str: R.Stream)
    requires Recorded(c.Of(client).dir.r, from, segs, base, str) && InStream(cb, c, log, client, base, str)
    requires var tr := c.Follow(cb, Packets(log)).Of(client);
             !tr.dir.c.poisoned && (tr.dir.r.initialized ==> tr.dir.r.win.base == base)
    ensures var tr := c.Follow(cb, Packets(log)).Of(client);
            && c.Follow(cb, Packets(log)).up == c.up
            && Recorded(tr.dir.r, from, segs + SegsOf(c.up, client, log), base, str) && tr.dir.r.gaps == c.Of(client).dir.r.gaps
    decreases |log|
  {
    hide Recorded, SegsOf, Tracked.OnPacket, InStream, Slices, Near;
    if log == [] {
      NoSegs(c.up, client);
      assert segs + {} == segs;
    } else {
      var n := |log| - 1;
      var earlier, q := log[..n], log[n];
      assert earlier + [q] == log;
      PacketsParts(log, n);
      InStreamParts(cb, c, earlier, q, client, base, str);
      var e := c.Follow(cb, Packets(earlier));
      assert c.Follow(cb, Packets(log)) == e.OnPacket(cb, q.p);
      PacketKeeps(cb, e, q.p, client);
      FollowRecorded(cb, c, earlier, client, from, segs, base, str);
      PacketRecorded(cb, e, q, client, from, segs + SegsOf(c.up, client, earlier), base, str);
      SegsConcat(c.up, client, earlier, [q]);
      assert segs + SegsOf(c.up, client, earlier) + SegsOf(c.up, client, [q]) == segs + SegsOf(c.up, client, log);
    }
  }

  lemma InStreamParts(cb: Codebook, c: Tracked, log: seq<Captured>, q: Captured, client: bool, base: u32, str: R.Stream)
    requires InStream(cb, c, log + [q], client, base, str)
    ensures InStream(cb, c, log, client, base, str)
    ensures Slices(c.up, client, q, base, str) && Near(c.Follow(cb, Packets(log)).Of(client).dir.r, c.up, client, q)
  {
    hide Slices, Near, Tracked.Follow;
    var all := log + [q];
    PacketsConcat(log, [q]);
    var n := |log|;
    assert Packets(all)[..n] == Packets(log);
    assert all[n] == q && Near(TrackAt(cb, c, Packets(all), client, n).dir.r, c.up, client, all[n]);
    forall i | 0 <= i < n
      ensures Slices(c.up, client, log[i], base, str) && Near(TrackAt(cb, c, Packets(log), client, i).dir.r, c.up, client, log[i])
    {
      assert all[i] == log[i] && Packets(all)[..i] == Packets(log)[..i];
      assert Near(TrackAt(cb, c, Packets(all), client, i).dir.r, c.up, client, all[i]);
    }
  }

  lemma InStreamSuffix(cb: Codebook, c: Tracked, log: seq<Captured>, b: nat, client: bool, base: u32, str: R.Stream)
    requires b <= |log| && InStream(cb, c, log, client, base, str) && c.Follow(cb, Packets(log[..b])).up == c.up
    ensures InStream(cb, c, log[..b], client, base, str)
    ensures InStream(cb, c.Follow(cb, Packets(log[..b])), log[b..], client, base, str)
  {
    hide Slices, Near, Tracked.Follow;
    PacketsParts(log, b);
    forall i | 0 <= i < b
      ensures Slices(c.up, client, log[..b][i], base, str) && Near(TrackAt(cb, c, Packets(log[..b]), client, i).dir.r, c.up, client, log[..b][i])
    {
      assert Packets(log[..b])[..i] == Packets(log)[..i];
      assert Near(TrackAt(cb, c, Packets(log), client, i).dir.r, c.up, client, log[i]);
    }
    var then_ := c.Follow(cb, Packets(log[..b]));
    forall i | 0 <= i < |log| - b
      ensures Slices(c.up, client, log[b..][i], base, str) && Near(TrackAt(cb, then_, Packets(log[b..]), client, i).dir.r, c.up, client, log[b..][i])
    {
      assert Packets(log)[..b + i] == Packets(log[..b]) + Packets(log[b..])[..i];
      FollowConcat(cb, c, Packets(log[..b]), Packets(log[b..])[..i]);
      assert Near(TrackAt(cb, c, Packets(log), client, b + i).dir.r, c.up, client, log[b + i]);
    }
  }

  /** What waits to be framed is the stream's, and, if nothing was held when the present
      pending period began, all of it has arrived since. */
  lemma PendingHasArrived(cb: Codebook, c: Tracked, log: seq<Captured>, client: bool, str: R.Stream)
    requires c.Of(client).dir.r == NewReassembler() && c.Of(client).pendingSince.None?
    requires HeldThen(cb, c, Packets(log), client) == []
    requires var tr := c.Follow(cb, Packets(log)).Of(client);
             tr.dir.r.initialized && !tr.dir.c.poisoned && InStream(cb, c, log, client, tr.dir.r.win.base, str)
    ensures var r := c.Follow(cb, Packets(log)).Of(client).dir.r;
            var b := Began(cb, c, Packets(log), client);
            && R.Inv(r, str) && r.gaps == 0
            && forall x :: r.win.off <= x < r.delivered ==> R.Covered(SegsOf(c.up, client, log[b..]), x)
  {
    hide Tracked.Follow, Began, InStream, SegsOf, R.Inv, R.Tracks, R.Covered;
    var b := Began(cb, c, Packets(log), client);
    var tr := c.Follow(cb, Packets(log)).Of(client);
    var base := tr.dir.r.win.base;
    PacketsParts(log, b);
    assert log[..b] + log[b..] == log;
    PacketsConcat(log[..b], log[b..]);
    FollowConcat(cb, c, Packets(log[..b]), Packets(log[b..]));
    var then_ := c.Follow(cb, Packets(log[..b]));
    FollowKeeps(cb, c, Packets(log[..b]), client);
    FollowKeeps(cb, then_, Packets(log[b..]), client);
    InStreamSuffix(cb, c, log, b, client, base, str);
    FollowRecorded(cb, c, log[..b], client, 0, {}, base, str);
    NothingWaiting(cb, c, Packets(log), client);
    var from := StartsOver(then_.Of(client).dir.r, 0, {} + SegsOf(c.up, client, log[..b]), base, str);
    FollowRecorded(cb, then_, log[b..], client, from, {}, base, str);
    assert {} + SegsOf(c.up, client, log[b..]) == SegsOf(c.up, client, log[b..]);
    RecordedCovers(tr.dir.r, from, SegsOf(c.up, client, log[b..]), base, str);
  }

  /** With nothing waiting and nothing held, the record may start over. */
  lemma StartsOver(r: ReasmState, from: int, segs: set<R.Seg>, base: u32, str: R.Stream) returns (from': int)
    requires Recorded(r, from, segs, base, str) && r.win.avail == [] && r.ooo == []
    ensures Recorded(r, from', {}, base, str)
  {
    from' := if r.initialized then r.delivered else 0;
    assert R.HeldSegs(r) == {};
  }

  lemma RecordedCovers(r: ReasmState, from: int, segs: set<R.Seg>, base: u32, str: R.Stream)
    requires Recorded(r, from, segs, base, str) && r.initialized
    ensures R.Inv(r, str) && forall x :: r.win.off <= x < r.delivered ==> R.Covered(segs, x)
  {
  }

  lemma {:induction false} FollowKeeps(cb: Codebook, c: Tracked, log: seq<Packet>, client: bool)
    ensures var tr, tr' := c.Of(client), c.Follow(cb, log).Of(client);
            && c.Follow(cb, log).up == c.up
            && (tr.dir.r.initialized ==> tr'.dir.r.initialized && tr'.dir.r.win.base == tr.dir.r.win.base)
            && (tr.dir.c.poisoned ==> tr'.dir.c.poisoned)
    decreases |log|
  {
    hide Tracked.OnPacket;
    if log != [] {
      FollowKeeps(cb, c, log[..|log| - 1], client);
      PacketKeeps(cb, c.Follow(cb, log[..|log| - 1]), log[|log| - 1], client);
    }
  }
}
