/** The daemon's tracking of one connection as mutable objects, proved to have exactly the
    effects `TrackerSpec` gives. */
module DaemonTracker {
  import opened Basics
  import opened HpackInt
  import HpackSpec
  import opened HpackDecoder
  import opened ReassemblySpec
  import opened Reassembly
  import opened ConnSpec
  import opened Connection
  import opened Pkt
  import opened TrackerSpec

  class DirTrack {
    const dir: Direction
    var pendingSince: Option<nat>

    ghost predicate Valid()
      reads this, dir, dir.reasm, dir.dec
    {
      dir.Valid()
    }

    ghost function State(): Track
      requires Valid()
      reads this, dir, dir.reasm, dir.dec
    {
      Track(dir.State(), pendingSince)
    }

    constructor (cb: Codebook, fromStart: bool, expectPreface: bool, limit: nat)
      ensures Valid() && fresh(dir) && fresh(dir.reasm) && fresh(dir.dec) && dir.cb == cb
      ensures State() == NewTrack(fromStart, expectPreface, limit)
    {
      var d: Direction;
      if fromStart {
        d := new Direction.FromConnectionStart(cb, false, expectPreface);
      } else {
        d := new Direction.JoinedMidstream(cb, false);
      }
      dir, pendingSince := d, None;
      new;
      dir.SetTableTrackLimit(limit);
    }

    method AfterFeed(now: nat)
      requires Valid()
      modifies this
      ensures Valid() && State() == old(State()).AfterFeed(now)
    {
      if dir.reasm.Available() == [] {
        pendingSince := None;
      } else if pendingSince.None? {
        pendingSince := Some(now);
      }
    }

    method Receive(t: TcpSegment, now: nat) returns (frames: seq<ProcessedFrame>)
      requires Valid()
      modifies this, dir, dir.reasm, dir.dec
      ensures Valid() && dir.dec == old(dir.dec)
      ensures (State(), frames) == old(State()).Receive(dir.cb, t, now)
    {
      frames := [];
      if Bit(t.flags, SYN) {
        NoteSyn(t.seq_);
      }
      if t.payload != [] {
        frames := Feed(t, now);
      }
    }

    method NoteSyn(s: u32)
      requires Valid()
      modifies dir.reasm
      ensures Valid() && State() == old(State()).NoteSyn(s)
    {
      dir.reasm.NoteSyn(s);
    }

    method Feed(t: TcpSegment, now: nat) returns (frames: seq<ProcessedFrame>)
      requires Valid()
      modifies this, dir, dir.reasm, dir.dec
      ensures Valid() && dir.dec == old(dir.dec)
      ensures var (d, out) := old(State()).dir.Feed(dir.cb, t.seq_, t.payload, now);
              frames == out && State() == old(State()).(dir := d).AfterFeed(now)
    {
      hide DirState.Feed;
      frames := dir.Feed(t.seq_, t.payload, now);
      AfterFeed(now);
    }

    /** Cap the decoder by each capacity announced, in order. */
    method Cap(caps: seq<u32>)
      requires Valid()
      modifies dir.dec
      ensures Valid() && State() == old(State()).Capped(caps)
    {
      hide HpackSpec.DecState.ApplyPeerCapacity;
      for i := 0 to |caps|
        invariant Valid() && State().Capped(caps[i..]) == old(State()).Capped(caps)
      {
        assert caps[i..][1..] == caps[i + 1..];
        CapOne(caps[i]);
      }
    }

    method CapOne(n: u32)
      requires Valid()
      modifies dir.dec
      ensures Valid()
      ensures State() == var t := old(State()); t.(dir := t.dir.(c := t.dir.c.(dec := t.dir.c.dec.ApplyPeerCapacity(n))))
    {
      hide HpackSpec.DecState.ApplyPeerCapacity;
      dir.dec.ApplyPeerCapacity(n);
    }

    /** The coverage test of the snapshot. */
    predicate PendingCovered(oldest: Option<nat>)
      requires Valid()
      reads this, dir, dir.reasm, dir.dec
      ensures PendingCovered(oldest) == State().PendingCovered(oldest)
    {
      match (pendingSince, oldest)
      case (None, _) => true
      case (Some(p), Some(o)) => p >= o
      case (Some(_), None) => false
    }
  }

  /** Both directions of a connection, on objects of their own. */
  class Conn {
    const up: Endpoint
    const cb: Codebook
    const c2s: DirTrack
    const s2c: DirTrack

    ghost predicate Valid()
      reads this, c2s, c2s.dir, c2s.dir.reasm, c2s.dir.dec, s2c, s2c.dir, s2c.dir.reasm, s2c.dir.dec
    {
      && c2s.Valid() && s2c.Valid() && c2s.dir.cb == cb && s2c.dir.cb == cb
      && c2s != s2c && c2s.dir != s2c.dir && c2s.dir.reasm != s2c.dir.reasm && c2s.dir.dec != s2c.dir.dec
    }

    ghost function State(): Tracked
      requires Valid()
      reads this, c2s, c2s.dir, c2s.dir.reasm, c2s.dir.dec, s2c, s2c.dir, s2c.dir.reasm, s2c.dir.dec
    {
      Tracked(up, c2s.State(), s2c.State())
    }

    constructor (cb: Codebook, up: Endpoint, fromStart: bool, limit: nat)
      ensures Valid() && State() == NewConn(up, fromStart, limit)
      ensures fresh(c2s) && fresh(c2s.dir) && fresh(c2s.dir.reasm) && fresh(c2s.dir.dec)
      ensures fresh(s2c) && fresh(s2c.dir) && fresh(s2c.dir.reasm) && fresh(s2c.dir.dec)
    {
      this.cb, this.up := cb, up;
      c2s := new DirTrack(cb, fromStart, fromStart, limit);
      s2c := new DirTrack(cb, fromStart, false, limit);
    }

    method OnSegment(t: TcpSegment, now: nat)
      requires Valid()
      modifies c2s, c2s.dir, c2s.dir.reasm, c2s.dir.dec, s2c, s2c.dir, s2c.dir.reasm, s2c.dir.dec
      ensures Valid() && State() == old(State()).OnSegment(cb, t, now)
    {
      hide Track.Receive, Track.Capped, Capacities;
      var client := t.srcIp == up.srcIp && t.srcPort == up.srcPort;
      var mine, other := if client then c2s else s2c, if client then s2c else c2s;
      var frames := mine.Receive(t, now);
      var caps := CollectCapacities(frames);
      other.Cap(caps);
    }
  }

  method CollectCapacities(frames: seq<ProcessedFrame>) returns (caps: seq<u32>)
    ensures caps == Capacities(frames)
  {
    caps := [];
    for i := 0 to |frames|
      invariant caps + Capacities(frames[i..]) == Capacities(frames)
    {
      assert frames[i..][0] == frames[i] && frames[i..][1..] == frames[i + 1..];
      if frames[i].settingsTableSize.Some? {
        var n := frames[i].settingsTableSize.value;
        assert caps + ([n] + Capacities(frames[i + 1..])) == caps + [n] + Capacities(frames[i + 1..]);
        caps := caps + [n];
      }
    }
  }
}
