/** What the daemon does with a captured packet of one connection, as a value, and whether
    the bytes it has received but not framed are still in its ring. */
module TrackerSpec {
  import opened Basics
  import opened HpackInt
  import HpackSpec
  import opened ReassemblySpec
  import opened ConnSpec
  import opened Pkt
  import opened CaptureRing

  /** A direction, and since when it has held bytes it cannot frame yet. */
  datatype Track = Track(dir: DirState, pendingSince: Option<nat>) {
    function AfterFeed(now: nat): Track {
      this.(pendingSince := if dir.r.win.avail == [] then None
                            else if pendingSince.None? then Some(now) else pendingSince)
    }

    function NoteSyn(s: u32): Track {
      this.(dir := dir.(r := dir.r.NoteSyn(s)))
    }

    /** A segment in this direction: its SYN is noted, its payload fed. */
    function Receive(cb: Codebook, t: TcpSegment, now: nat): (Track, seq<ProcessedFrame>) {
      var noted := if Bit(t.flags, SYN) then NoteSyn(t.seq_) else this;
      if t.payload == [] then (noted, [])
      else
        var (d, frames) := noted.dir.Feed(cb, t.seq_, t.payload, now);
        (noted.(dir := d).AfterFeed(now), frames)
    }

    /** The peer's announced table capacities, in order. */
    function Capped(caps: seq<u32>): Track
      decreases |caps|
    {
      if caps == [] then this
      else this.(dir := dir.(c := dir.c.(dec := dir.c.dec.ApplyPeerCapacity(caps[0])))).Capped(caps[1..])
    }

    /** The snapshot's test, given the oldest packet in the ring. */
    predicate PendingCovered(oldest: Option<nat>) {
      pendingSince.None? || (oldest.Some? && pendingSince.value >= oldest.value)
    }

    /** Does the snapshot declare this direction usable? */
    predicate Usable(oldest: Option<nat>) {
      PendingCovered(oldest) && dir.c.IsSnapshottable()
    }
  }

  function NewTrack(fromStart: bool, expectPreface: bool, limit: nat): Track {
    var c := if fromStart then FromConnectionStart(false, expectPreface) else JoinedMidstream(false);
    Track(DirState(c.SetTableTrackLimit(limit), NewReassembler()), None)
  }

  function Capacities(frames: seq<ProcessedFrame>): seq<u32> {
    if frames == [] then []
    else (if frames[0].settingsTableSize.Some? then [frames[0].settingsTableSize.value] else []) + Capacities(frames[1..])
  }

  predicate Owns(up: Endpoint, t: TcpSegment) {
    Travels(t, up) || Travels(t, up.Reversed())
  }

  predicate FromClient(up: Endpoint, t: TcpSegment) {
    t.srcIp == up.srcIp && t.srcPort == up.srcPort
  }

  /** A connection: the addresses its client sends with, and both directions. */
  datatype Tracked = Tracked(up: Endpoint, c2s: Track, s2c: Track) {
    function Of(fromClient: bool): Track {
      if fromClient then c2s else s2c
    }

    function With(fromClient: bool, mine: Track, other: Track): Tracked {
      if fromClient then this.(c2s := mine, s2c := other) else this.(c2s := other, s2c := mine)
    }

    /** What one direction announces caps the decoder of the other. */
    function OnSegment(cb: Codebook, t: TcpSegment, now: nat): Tracked {
      var client := FromClient(up, t);
      var (mine, frames) := Of(client).Receive(cb, t, now);
      With(client, mine, Of(!client).Capped(Capacities(frames)))
    }

    /** A captured packet; whatever is not of this connection leaves it alone. */
    function OnPacket(cb: Codebook, p: Packet): Tracked {
      match ParseEthernet(p.data)
      case None => this
      case Some(t) => if Owns(up, t) then OnSegment(cb, t, p.ts) else this
    }

    function Follow(cb: Codebook, log: seq<Packet>): Tracked
      decreases |log|
    {
      if log == [] then this else Follow(cb, log[..|log| - 1]).OnPacket(cb, log[|log| - 1])
    }
  }

  function NewConn(up: Endpoint, fromStart: bool, limit: nat): Tracked {
    Tracked(up, NewTrack(fromStart, fromStart, limit), NewTrack(fromStart, false, limit))
  }
}
