/** What one direction announces caps the decoder of the other: the table size of a SETTINGS
    frame, followed from its bytes in a captured segment to the other side's capacity. */
module TrackerCapacity {
  import opened Basics
  import opened HpackInt
  import HpackSpec
  import opened HpackTable
  import opened ReassemblySpec
  import opened Frame
  import opened FrameWire
  import opened ConnSpec
  import opened ConnSegmentation
  import opened ConnTwins
  import opened Pkt
  import opened TrackerSpec

  // ----- the frames' announcements ----------------------------------------------------------

  ghost predicate Announces(frames: seq<ProcessedFrame>, n: u32) {
    exists i :: 0 <= i < |frames| && frames[i].settingsTableSize == Some(n)
  }

  /** The capacities collected are those some frame announces. */
  lemma {:induction false} CollectedExactly(frames: seq<ProcessedFrame>, n: u32)
    ensures n in Capacities(frames) <==> Announces(frames, n)
  {
    if frames != [] {
      CollectedExactly(frames[1..], n);
      if Announces(frames[1..], n) {
        var i :| 0 <= i < |frames[1..]| && frames[1..][i].settingsTableSize == Some(n);
        assert frames[i + 1].settingsTableSize == Some(n);
      }
      if Announces(frames, n) {
        var i :| 0 <= i < |frames| && frames[i].settingsTableSize == Some(n);
        if i > 0 { assert frames[1..][i - 1].settingsTableSize == Some(n); }
      }
    }
  }

  // ----- their effect ------------------------------------------------------------------------

  function Capacity(tr: Track): nat {
    tr.dir.c.dec.maxSize
  }

  lemma CapOnce(tr: Track, n: u32)
    ensures var t := tr.(dir := tr.dir.(c := tr.dir.c.(dec := tr.dir.c.dec.ApplyPeerCapacity(n))));
            && tr.Capped([n]) == t
            && Capacity(t) == (if n < Capacity(tr) then n else Capacity(tr)) && t.dir.c.dec.capacityObserved
  {
    hide Fit, Total;
    assert [n][1..] == [];
  }

  /** Capping by several leaves the least of them and the capacity before. */
  lemma {:induction false} CappedToLeast(tr: Track, caps: seq<u32>)
    ensures Capacity(tr.Capped(caps)) <= Capacity(tr)
    ensures forall n :: n in caps ==> Capacity(tr.Capped(caps)) <= n
    ensures Capacity(tr.Capped(caps)) == Capacity(tr) || Capacity(tr.Capped(caps)) in caps
    ensures caps != [] || tr.dir.c.dec.capacityObserved ==> tr.Capped(caps).dir.c.dec.capacityObserved
    decreases |caps|
  {
    hide HpackSpec.DecState.ApplyPeerCapacity;
    if caps != [] {
      var t := tr.(dir := tr.dir.(c := tr.dir.c.(dec := tr.dir.c.dec.ApplyPeerCapacity(caps[0]))));
      CapOnce(tr, caps[0]);
      CappedToLeast(t, caps[1..]);
      assert caps == [caps[0]] + caps[1..];
    }
  }

  /** A segment: the other direction's capacity becomes the least of what it was and what the
      frames the segment completes announce. */
  lemma SegmentCaps(cb: Codebook, c: Tracked, t: TcpSegment, now: nat)
    ensures var client := FromClient(c.up, t);
            var frames := c.Of(client).Receive(cb, t, now).1;
            var before, after := Capacity(c.Of(!client)), Capacity(c.OnSegment(cb, t, now).Of(!client));
            && after <= before
            && (forall n: u32 :: Announces(frames, n) ==> after <= n)
            && (after == before || (after < TWO32 && Announces(frames, after)))
  {
    hide Track.Receive, Track.Capped, Capacities, Announces;
    var client := FromClient(c.up, t);
    var frames := c.Of(client).Receive(cb, t, now).1;
    CappedToLeast(c.Of(!client), Capacities(frames));
    forall n: u32 ensures n in Capacities(frames) <==> Announces(frames, n) { CollectedExactly(frames, n); }
  }

  // ----- one SETTINGS frame in one segment --------------------------------------------------------

  /** The last table size among the entries (section 6.5.2 of RFC 9113, identifier 1). */
  function LastAnnounced(entries: seq<(u16, u32)>, found: Option<u32>): Option<u32> {
    if entries == [] then found
    else LastAnnounced(entries[1..], if entries[0].0 == 1 then Some(entries[0].1) else found)
  }

  lemma {:induction false} EntriesRead(entries: seq<(u16, u32)>, found: Option<u32>)
    ensures LastTableSize(WriteEntries(entries), found) == LastAnnounced(entries, found)
  {
    hide Enc16, Enc32, Be16, Be32;
    if entries != [] {
      var id, value, rest := Enc16(entries[0].0), Enc32(entries[0].1), WriteEntries(entries[1..]);
      var b := WriteEntries(entries);
      assert b == [] + (id + (value + rest)) && b == id + (value + rest);
      Word16At([], entries[0].0, value + rest);
      Word32At(id, entries[0].1, rest);
      assert b[6..] == rest;
      EntriesRead(entries[1..], if entries[0].0 == 1 then Some(entries[0].1) else found);
    }
  }

  /** The direction stands between frames, with nothing waiting and nothing held. */
  predicate Idle(d: DirState) {
    AtFrame(d.c) && d.r.initialized && d.r.win.avail == [] && d.r.ooo == [] && d.r.oooSince.None?
  }

  /** A SETTINGS frame alone in the window is parsed to one frame that announces its last size. */
  lemma SettingsParsed(cb: Codebook, c: Core, w: Window, flags: byte, entries: seq<(u16, u32)>)
    requires AtFrame(c) && !Bit(flags, ACK) && 6 * |entries| <= MAX_BUFFERED_FRAME
    requires w.avail == BuildFrame(SETTINGS, flags, 0, WriteEntries(entries))
    ensures var (_, _, out) := Parse(cb, c, w);
            |out| == 1 && out[0].settingsTableSize == LastAnnounced(entries, None)
  {
    hide ParseHeader, FrameHeader.Write, Parse, LastTableSize, Window.NextSeq, WriteEntries;
    var payload := WriteEntries(entries);
    var h := FrameHeader(|payload|, SETTINGS, flags, 0);
    assert w.avail == h.Write() + payload;
    HeaderRoundTrip(h, payload);
    var c', f := TakenFrame(cb, c, w);
    assert w.avail[FRAME_HEADER_LEN..h.TotalLen()] == payload;
    EntriesRead(entries, None);
    NothingLeft(cb, c', w.Consume(h.TotalLen()));
  }

  lemma NothingLeft(cb: Codebook, c: Core, w: Window)
    requires AtFrame(c) && w.avail == []
    ensures Parse(cb, c, w) == (c, w, [])
  {
    assert ParseStep(cb, c, w) == Stop(c, w);
    ParseOf(cb, c, w);
  }

  /** The segment arrives in order: one frame comes out. */
  lemma SettingsReceived(cb: Codebook, tr: Track, t: TcpSegment, now: nat, flags: byte, entries: seq<(u16, u32)>)
    requires Idle(tr.dir) && t.seq_ == tr.dir.r.nextSeq && !Bit(flags, ACK) && 6 * |entries| <= MAX_BUFFERED_FRAME
    requires t.payload == BuildFrame(SETTINGS, flags, 0, WriteEntries(entries))
    ensures var frames := tr.Receive(cb, t, now).1;
            |frames| == 1 && frames[0].settingsTableSize == LastAnnounced(entries, None)
  {
    hide Parse, Bit, BuildFrame, WriteEntries, ReasmState.Push, AtFrame;
    InOrderPush(tr.dir.r, t.payload, now);
    assert [] + t.payload == t.payload;
    SettingsParsed(cb, tr.dir.c, tr.dir.r.Append(t.payload).win, flags, entries);
  }

  /** After a SETTINGS frame announcing `n`, the other direction decodes with a table of at most
      `n`; without an announcement nothing changes there. */
  lemma SettingsCapPeer(cb: Codebook, c: Tracked, t: TcpSegment, now: nat, flags: byte, entries: seq<(u16, u32)>)
    requires var mine := c.Of(FromClient(c.up, t)).dir; Idle(mine) && t.seq_ == mine.r.nextSeq
    requires !Bit(flags, ACK) && 6 * |entries| <= MAX_BUFFERED_FRAME
    requires t.payload == BuildFrame(SETTINGS, flags, 0, WriteEntries(entries))
    ensures var client := FromClient(c.up, t);
            var before, after := c.Of(!client), c.OnSegment(cb, t, now).Of(!client);
            match LastAnnounced(entries, None)
            case None => after == before
            case Some(n) =>
              after.dir.c.dec.capacityObserved && Capacity(after) == if n < Capacity(before) then n else Capacity(before)
  {
    hide Track.Receive, Idle, Bit, BuildFrame, WriteEntries, LastAnnounced, HpackSpec.DecState.ApplyPeerCapacity;
    var client := FromClient(c.up, t);
    SettingsReceived(cb, c.Of(client), t, now, flags, entries);
    var frames := c.Of(client).Receive(cb, t, now).1;
    assert frames == [frames[0]] && frames[1..] == [];
    var last := LastAnnounced(entries, None);
    assert Capacities(frames) == if last.Some? then [last.value] else [];
    if last.Some? { CapOnce(c.Of(!client), last.value); }
  }
}
