/** The HTTP/2 frame layer (RFC 9113 section 4 and 6). */
module Frame {
  import opened Basics

  const FRAME_HEADER_LEN := 9
  const DEFAULT_MAX_FRAME_SIZE := 16_384
  const MAX_PLAUSIBLE_FRAME := 0x10_0000
  /** The connection preface, "PRI * HTTP/2.0", two line ends, "SM", two line ends. */
  const PREFACE: seq<byte> :=
    [80, 82, 73, 32, 42, 32, 72, 84, 84, 80, 47, 50, 46, 48, 13, 10, 13, 10, 83, 77, 13, 10, 13, 10]

  const DATA: byte := 0
  const HEADERS: byte := 1
  const PRIORITY: byte := 2
  const RST_STREAM: byte := 3
  const SETTINGS: byte := 4
  const PUSH_PROMISE: byte := 5
  const PING: byte := 6
  const GOAWAY: byte := 7
  const WINDOW_UPDATE: byte := 8
  const CONTINUATION: byte := 9

  const END_STREAM: byte := 0x01
  const ACK: byte := 0x01
  const END_HEADERS: byte := 0x04
  const PADDED: byte := 0x08
  const HAS_PRIORITY: byte := 0x20

  datatype FrameHeader = FrameHeader(len: u32, typ: byte, flags: byte, streamId: u32) {
    function Write(): (b: seq<byte>)
      ensures |b| == FRAME_HEADER_LEN
    {
      Enc32(len)[1..] + [typ, flags] + Enc32(streamId % TWO31)
    }

    function TotalLen(): nat {
      FRAME_HEADER_LEN + len
    }

    predicate Has(flag: nat)
      requires flag > 0
    {
      Bit(flags, flag)
    }

    /** HEADERS, CONTINUATION or PUSH_PROMISE. */
    predicate IsHeaderFrame() {
      typ == HEADERS || typ == CONTINUATION || typ == PUSH_PROMISE
    }
  }

  function ParseHeader(b: seq<byte>): Option<FrameHeader> {
    if |b| < FRAME_HEADER_LEN then None
    else Some(FrameHeader(b[0] as int * 0x1_0000 + b[1] as int * 0x100 + b[2] as int, b[3], b[4], Be32(b, 5) % TWO31))
  }

  /** The header codec round-trips exactly the headers HTTP/2 allows: a 24-bit length and a
      31-bit stream id. Everything after the nine bytes is ignored. */
  lemma HeaderRoundTrip(h: FrameHeader, rest: seq<byte>)
    ensures ParseHeader(h.Write() + rest) == Some(h.(len := h.len % 0x100_0000, streamId := h.streamId % TWO31))
    ensures ParseHeader(h.Write() + rest) == Some(h) <==> h.len < 0x100_0000 && h.streamId < TWO31
  {
    var b := h.Write() + rest;
    var l := Enc32(h.len);
    assert b[0] == l[1] && b[1] == l[2] && b[2] == l[3] && b[3] == h.typ && b[4] == h.flags;
    var sid := Enc32(h.streamId % TWO31);
    assert b[5] == sid[0] && b[6] == sid[1] && b[7] == sid[2] && b[8] == sid[3];
  }

  function BuildFrame(typ: byte, flags: byte, streamId: u32, payload: seq<byte>): (b: seq<byte>)
    ensures |b| == FRAME_HEADER_LEN + |payload|
  {
    FrameHeader(|payload| % TWO32, typ, flags, streamId).Write() + payload
  }

  function StripPadding(p: seq<byte>, pad: nat): Option<seq<byte>> {
    if pad > |p| then None else Some(p[..|p| - pad])
  }

  /** Strip padding, priority and promised stream id, leaving the header block fragment. */
  function HeaderBlockFragment(h: FrameHeader, payload: seq<byte>): Option<seq<byte>> {
    if h.Has(PADDED) && payload == [] then None
    else
      var pad := if h.Has(PADDED) then payload[0] else 0;
      var p := if h.Has(PADDED) then payload[1..] else payload;
      var skip := if h.typ == HEADERS && h.Has(HAS_PRIORITY) then 5 else if h.typ == PUSH_PROMISE then 4 else 0;
      if |p| < skip then None else StripPadding(p[skip..], pad)
  }

  /** The promised stream id of a PUSH_PROMISE, after the pad length when there is one. */
  function PromisedId(h: FrameHeader, payload: seq<byte>): Option<u32> {
    var p := if h.Has(PADDED) && payload != [] then payload[1..] else payload;
    if |p| >= 4 then Some(Be32(p, 0) % TWO31) else None
  }

  /** The last SETTINGS_HEADER_TABLE_SIZE in a SETTINGS payload; a ragged tail is ignored. */
  function LastTableSize(payload: seq<byte>, found: Option<u32>): Option<u32> {
    if |payload| < 6 then found
    else LastTableSize(payload[6..], if Be16(payload, 0) == 1 then Some(Be32(payload, 2)) else found)
  }

  function SettingsTableSize(h: FrameHeader, payload: seq<byte>): Option<u32> {
    if h.typ != SETTINGS || h.Has(ACK) then None else LastTableSize(payload, None)
  }

  /** The identifier of the `k`-th entry of a SETTINGS payload. */
  function EntryId(payload: seq<byte>, k: nat): u16
    requires 6 * k + 6 <= |payload|
  {
    Be16(payload, 6 * k)
  }

  function EntryValue(payload: seq<byte>, k: nat): u32
    requires 6 * k + 6 <= |payload|
  {
    Be32(payload, 6 * k + 2)
  }

  /** No entry from the `k`-th on announces a table size. */
  ghost predicate AnnouncesNone(payload: seq<byte>, k: nat) {
    forall j: nat :: k <= j && 6 * j + 6 <= |payload| ==> EntryId(payload, j) != 1
  }

  /** The last whole entry with identifier 1, if there is one. */
  ghost predicate IsLastTableSize(payload: seq<byte>, found: Option<u32>) {
    match found
    case None => AnnouncesNone(payload, 0)
    case Some(v) =>
      exists k: nat :: 6 * k + 6 <= |payload| && EntryId(payload, k) == 1 && EntryValue(payload, k) == v && AnnouncesNone(payload, k + 1)
  }

  /** A later entry wins, and what was found before counts only if there is none. */
  lemma {:induction false} LastTableSizeIsLast(payload: seq<byte>, found: Option<u32>)
    ensures var r := LastTableSize(payload, found);
            if AnnouncesNone(payload, 0) then r == found else r.Some? && IsLastTableSize(payload, r)
    decreases |payload|
  {
    if |payload| >= 6 {
      var rest := payload[6..];
      var found' := if Be16(payload, 0) == 1 then Some(Be32(payload, 2)) else found;
      assert EntryId(payload, 0) == Be16(payload, 0) && EntryValue(payload, 0) == Be32(payload, 2);
      LastTableSizeIsLast(rest, found');
      OneEntryOn(payload, 0);
      hide LastTableSize, EntryId, EntryValue;
      var r := LastTableSize(rest, found');
      if !AnnouncesNone(rest, 0) {
        var k: nat :| 6 * k + 6 <= |rest| && EntryId(rest, k) == 1 && EntryValue(rest, k) == r.value && AnnouncesNone(rest, k + 1);
        EntryOn(payload, k);
        OneEntryOn(payload, k + 1);
      }
    }
  }

  lemma EntryOn(payload: seq<byte>, k: nat)
    requires 6 * k + 12 <= |payload|
    ensures EntryId(payload[6..], k) == EntryId(payload, k + 1) && EntryValue(payload[6..], k) == EntryValue(payload, k + 1)
  {
  }

  /** The entries of a payload, one further on. */
  lemma OneEntryOn(payload: seq<byte>, k: nat)
    requires |payload| >= 6
    ensures AnnouncesNone(payload[6..], k) <==> AnnouncesNone(payload, k + 1)
  {
    var rest := payload[6..];
    hide EntryId;
    if AnnouncesNone(payload, k + 1) {
      forall j: nat | k <= j && 6 * j + 6 <= |rest| ensures EntryId(rest, j) != 1 {
        EntryOn(payload, j);
      }
    }
    if AnnouncesNone(rest, k) {
      forall j: nat | k + 1 <= j && 6 * j + 6 <= |payload| ensures EntryId(payload, j) != 1 {
        EntryOn(payload, j - 1);
      }
    }
  }

  method SettingsTableSizeLoop(h: FrameHeader, payload: seq<byte>) returns (found: Option<u32>)
    ensures found == SettingsTableSize(h, payload)
    ensures if h.typ == SETTINGS && !h.Has(ACK) then IsLastTableSize(payload, found) else found == None
  {
    LastTableSizeIsLast(payload, None);
    found := None;
    if h.typ != SETTINGS || h.Has(ACK) {
      return;
    }
    var rest := payload;
    while |rest| >= 6
      invariant LastTableSize(rest, found) == LastTableSize(payload, None)
      decreases |rest|
    {
      if Be16(rest, 0) == 1 {
        found := Some(Be32(rest, 2));
      }
      rest := rest[6..];
    }
  }

  // ----- plausibility, used to find a frame boundary ---------------------------

  predicate Plausible(h: FrameHeader) {
    && h.typ <= 0x0c && h.len <= MAX_PLAUSIBLE_FRAME
    && if h.typ == DATA || h.typ == HEADERS || h.typ == CONTINUATION then h.streamId != 0
       else if h.typ == PRIORITY then h.streamId != 0 && h.len == 5
       else if h.typ == RST_STREAM then h.streamId != 0 && h.len == 4
       else if h.typ == SETTINGS then h.streamId == 0 && h.len % 6 == 0
       else if h.typ == PUSH_PROMISE then h.streamId != 0 && h.len >= 4
       else if h.typ == PING then h.streamId == 0 && h.len == 8
       else if h.typ == GOAWAY then h.streamId == 0 && h.len >= 8
       else if h.typ == WINDOW_UPDATE then h.len == 4
       else true
  }

  datatype ChainCheck = ChainOk | ChainBad | ChainNeedMore

  /** The chain walk from offset `off` with `ok` frames already accepted. */
  function WalkChain(b: seq<byte>, off: nat, ok: nat, want: nat, minAccept: nat): ChainCheck
    decreases want - ok
  {
    if ok >= want then ChainOk
    else if off + FRAME_HEADER_LEN > |b| then (if ok >= minAccept then ChainOk else ChainNeedMore)
    else
      var h := ParseHeader(b[off..]).value;
      if !Plausible(h) then ChainBad else WalkChain(b, off + h.TotalLen(), ok + 1, want, minAccept)
  }

  function CheckFrameChain(b: seq<byte>, want: nat, minAccept: nat): ChainCheck {
    WalkChain(b, 0, 0, want, minAccept)
  }

  method CheckFrameChainLoop(b: seq<byte>, want: nat, minAccept: nat) returns (r: ChainCheck)
    ensures r == CheckFrameChain(b, want, minAccept)
  {
    var off: nat, ok: nat := 0, 0;
    while ok < want
      invariant WalkChain(b, off, ok, want, minAccept) == CheckFrameChain(b, want, minAccept)
      decreases want - ok
    {
      if off + FRAME_HEADER_LEN > |b| {
        return if ok >= minAccept then ChainOk else ChainNeedMore;
      }
      var h := ParseHeader(b[off..]).value;
      if !Plausible(h) {
        return ChainBad;
      }
      off := off + h.TotalLen();
      ok := ok + 1;
    }
    return ChainOk;
  }

  /** From `off` on, the bytes are back-to-back plausible frames as far as headers are visible. */
  ghost predicate TrueBoundary(b: seq<byte>, off: nat)
    decreases |b| - off
  {
    off + FRAME_HEADER_LEN <= |b| ==>
      var h := ParseHeader(b[off..]).value;
      Plausible(h) && TrueBoundary(b, off + h.TotalLen())
  }

  /** The chain walk never rejects a true boundary. */
  lemma {:induction false} TrueBoundaryNotBad(b: seq<byte>, off: nat, ok: nat, want: nat, minAccept: nat)
    requires TrueBoundary(b, off)
    ensures !WalkChain(b, off, ok, want, minAccept).ChainBad?
    decreases want - ok
  {
    if ok < want && off + FRAME_HEADER_LEN <= |b| {
      TrueBoundaryNotBad(b, off + ParseHeader(b[off..]).value.TotalLen(), ok + 1, want, minAccept);
    }
  }

  // ----- what the chain walk decides ---------------------------------------------------

  /** At least `n` plausible frames stand back to back from `off` on, headers visible. */
  predicate Chained(b: seq<byte>, off: nat, n: nat)
    decreases n
  {
    n == 0 ||
    (off + FRAME_HEADER_LEN <= |b| && Plausible(ParseHeader(b[off..]).value)
     && Chained(b, off + ParseHeader(b[off..]).value.TotalLen(), n - 1))
  }

  /** Where the next frame would start. */
  function AfterChain(b: seq<byte>, off: nat, n: nat): nat
    requires Chained(b, off, n)
    decreases n
  {
    if n == 0 then off else AfterChain(b, off + ParseHeader(b[off..]).value.TotalLen(), n - 1)
  }

  /** Exactly `n` frames chain before the bytes run out, or before a header that is not plausible. */
  predicate ChainStops(b: seq<byte>, off: nat, n: nat, runsOut: bool) {
    Chained(b, off, n) && !Chained(b, off, n + 1) && (runsOut <==> AfterChain(b, off, n) + FRAME_HEADER_LEN > |b|)
  }

  lemma {:induction false} ChainedFewer(b: seq<byte>, off: nat, m: nat, n: nat)
    requires Chained(b, off, n) && m <= n
    ensures Chained(b, off, m)
    decreases m
  {
    if m > 0 { ChainedFewer(b, off + ParseHeader(b[off..]).value.TotalLen(), m - 1, n - 1); }
  }

  /** The chain stops in one place only: the cases below exclude each other. */
  lemma ChainStopsOnce(b: seq<byte>, off: nat, m: nat, n: nat, x: bool, y: bool)
    requires ChainStops(b, off, m, x)
    ensures ChainStops(b, off, n, y) ==> m == n && x == y
    ensures Chained(b, off, n) ==> n <= m
  {
    hide Plausible, ParseHeader;
    if Chained(b, off, n) && m < n { ChainedFewer(b, off, m + 1, n); }
    if ChainStops(b, off, n, y) && n < m { ChainedFewer(b, off, n + 1, m); }
  }

  lemma ChainStopsOneOn(b: seq<byte>, off: nat, n: nat, runsOut: bool)
    requires Chained(b, off, 1)
    ensures ChainStops(b, off, n + 1, runsOut) <==> ChainStops(b, off + ParseHeader(b[off..]).value.TotalLen(), n, runsOut)
  {
    hide Plausible, ParseHeader;
  }

  /** The verdict, by the number of frames that chain: enough of them, or the bytes run out with
      enough of them to accept; too few before the bytes run out; or a header that is not plausible. */
  lemma {:induction false} ChainExactly(b: seq<byte>, off: nat, ok: nat, want: nat, minAccept: nat)
    requires ok <= want
    ensures match WalkChain(b, off, ok, want, minAccept)
            case ChainOk => Chained(b, off, want - ok) || exists n: nat :: minAccept <= ok + n < want && ChainStops(b, off, n, true)
            case ChainNeedMore => exists n: nat :: ok + n < want && ok + n < minAccept && ChainStops(b, off, n, true)
            case ChainBad => exists n: nat :: ok + n < want && ChainStops(b, off, n, false)
    decreases want - ok
  {
    hide Plausible;
    if ok < want {
      if off + FRAME_HEADER_LEN > |b| {
        assert ChainStops(b, off, 0, true);
      } else if !Plausible(ParseHeader(b[off..]).value) {
        assert ChainStops(b, off, 0, false);
      } else {
        var next := off + ParseHeader(b[off..]).value.TotalLen();
        ChainExactly(b, next, ok + 1, want, minAccept);
        assert Chained(b, off, 1) by { assert Chained(b, next, 0); }
        var r := WalkChain(b, next, ok + 1, want, minAccept);
        if !r.ChainOk? || !Chained(b, next, want - ok - 1) {
          var n: nat :| ok + 1 + n < want && ChainStops(b, next, n, !r.ChainBad?)
            && (r.ChainOk? ==> minAccept <= ok + 1 + n) && (r.ChainNeedMore? ==> ok + 1 + n < minAccept);
          ChainStopsOneOn(b, off, n, !r.ChainBad?);
        }
      }
    }
  }
}
