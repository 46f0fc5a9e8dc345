/** Frames as sections 4.2 and 6 of RFC 9113 lay them out, built part by part by a writer of
    their own: what the reader takes out of them, and which headers it holds plausible. */
module FrameWire {
  import opened Basics
  import opened Frame

  // ----- the payload of a frame that opens a header block ---------------------------------

  /** A stream dependency, its exclusive bit, and a weight: five bytes. */
  datatype Priority = Priority(exclusive: bool, dependsOn: u32, weight: byte)

  function WriteId(top: bool, id: u32): (b: seq<byte>)
    ensures |b| == 4
  {
    Enc32(id % TWO31 + if top then TWO31 else 0)
  }

  function WritePriority(p: Priority): seq<byte> {
    WriteId(p.exclusive, p.dependsOn) + [p.weight]
  }

  /** Everything a sender can put in a HEADERS or PUSH_PROMISE payload. */
  datatype Parts = Parts(padding: seq<byte>, priority: Priority, reserved: bool, promised: u32, fragment: seq<byte>)

  /** The parts between the pad length and the fragment, as the type and the flags ask for them. */
  function WriteLead(h: FrameHeader, parts: Parts): seq<byte> {
    if h.typ == HEADERS && h.Has(HAS_PRIORITY) then WritePriority(parts.priority)
    else if h.typ == PUSH_PROMISE then WriteId(parts.reserved, parts.promised)
    else []
  }

  /** Pad length, then priority or promised id, then the fragment, then the padding. */
  function WritePayload(h: FrameHeader, parts: Parts): seq<byte>
    requires |parts.padding| < 256
  {
    if h.Has(PADDED) then [|parts.padding|] + WriteLead(h, parts) + parts.fragment + parts.padding
    else WriteLead(h, parts) + parts.fragment
  }

  /** Whatever the parts, the reader takes out exactly the fragment. */
  lemma FragmentRoundTrip(h: FrameHeader, parts: Parts)
    requires |parts.padding| < 256
    ensures HeaderBlockFragment(h, WritePayload(h, parts)) == Some(parts.fragment)
  {
    hide Bit, WriteId, WriteLead;
    var lead, fragment := WriteLead(h, parts), parts.fragment;
    LeadLength(h, parts);
    if h.Has(PADDED) {
      Unpadded(lead, fragment, parts.padding);
      Leading(|parts.padding|, lead, fragment, parts.padding);
    } else {
      Unpadded(lead, fragment, []);
      assert fragment[..|fragment| - 0] == fragment;
    }
  }

  lemma Unpadded(lead: seq<byte>, fragment: seq<byte>, padding: seq<byte>)
    ensures (lead + fragment + padding)[|lead|..] == fragment + padding
    ensures (lead + fragment)[|lead|..] == fragment
    ensures StripPadding(fragment + padding, |padding|) == Some(fragment)
  {
  }

  lemma Leading(n: byte, a: seq<byte>, b: seq<byte>, c: seq<byte>)
    ensures ([n] + a + b + c)[0] == n && ([n] + a + b + c)[1..] == a + b + c
  {
  }

  lemma LeadLength(h: FrameHeader, parts: Parts)
    ensures |WriteLead(h, parts)| == if h.typ == HEADERS && h.Has(HAS_PRIORITY) then 5 else if h.typ == PUSH_PROMISE then 4 else 0
  {
  }

  lemma IdRoundTrip(top: bool, id: u32, rest: seq<byte>)
    ensures Be32(WriteId(top, id) + rest, 0) % TWO31 == id % TWO31
  {
    hide Enc32;
    var n := id % TWO31 + if top then TWO31 else 0;
    assert Be32(WriteId(top, id) + rest, 0) == Be32(Enc32(n), 0) == n;
  }

  /** And the promised stream, whatever the reserved bit. */
  lemma PromisedRoundTrip(h: FrameHeader, parts: Parts)
    requires |parts.padding| < 256 && h.typ == PUSH_PROMISE
    ensures PromisedId(h, WritePayload(h, parts)) == Some(parts.promised % TWO31)
  {
    hide Bit, WriteId, Be32;
    var id := WriteId(parts.reserved, parts.promised);
    if h.Has(PADDED) {
      assert WritePayload(h, parts)[1..] == id + (parts.fragment + parts.padding);
      IdRoundTrip(parts.reserved, parts.promised, parts.fragment + parts.padding);
    } else {
      IdRoundTrip(parts.reserved, parts.promised, parts.fragment);
    }
  }

  /** The bytes the parts before the fragment and the padding need, read off the payload. */
  function LeastLength(h: FrameHeader, payload: seq<byte>): nat {
    var lead := if h.typ == HEADERS && h.Has(HAS_PRIORITY) then 5 else if h.typ == PUSH_PROMISE then 4 else 0;
    if !h.Has(PADDED) then lead
    else if payload == [] then 1
    else 1 + lead + payload[0] as int
  }

  lemma EncOfBe(b: seq<byte>)
    requires |b| == 4
    ensures b == Enc32(Be32(b, 0)) && (b[0] >= 128 <==> Be32(b, 0) >= TWO31)
  {
    var n: int := Be32(b, 0);
    ByteSplit(b[0], b[1], b[2], b[3]);
    assert n == 0x100 * (0x100 * (0x100 * b[0] as int + b[1] as int) + b[2] as int) + b[3] as int;
  }

  lemma ByteSplit(a: byte, b: byte, c: byte, d: byte)
    ensures var m: int := 0x100 * a as int + b as int;
            var n: int := 0x100 * (0x100 * m + c as int) + d as int;
            && n / 0x100_0000 == a && n / 0x1_0000 == m && n / 0x100 == 0x100 * m + c as int
            && m % 0x100 == b && (0x100 * m + c as int) % 0x100 == c && n % 0x100 == d
  {
  }

  /** Four bytes are some id and its top bit. */
  lemma IdParts(b: seq<byte>)
    requires |b| == 4
    ensures b == WriteId(b[0] >= 128, Be32(b, 0) % TWO31)
  {
    hide Enc32, Be32;
    EncOfBe(b);
  }

  /** Any bytes of the right length are a lead. */
  lemma SomeLead(h: FrameHeader, lead: seq<byte>, padding: seq<byte>, fragment: seq<byte>) returns (parts: Parts)
    requires |lead| == if h.typ == HEADERS && h.Has(HAS_PRIORITY) then 5 else if h.typ == PUSH_PROMISE then 4 else 0
    ensures WriteLead(h, parts) == lead && parts.padding == padding && parts.fragment == fragment
  {
    hide Bit, Be32, WriteId;
    parts := Parts(padding, Priority(false, 0, 0), false, 0, fragment);
    if lead != [] {
      var id := lead[..4];
      IdParts(id);
      var top, value := id[0] >= 128, Be32(id, 0) % TWO31;
      parts := Parts(padding, Priority(top, value, lead[|lead| - 1]), top, value, fragment);
      assert |lead| == 5 ==> lead == id + [lead[4]];
      assert |lead| == 4 ==> lead == id;
    }
  }

  /** A payload is refused exactly when it is too short for its parts. */
  lemma RefusedExactly(h: FrameHeader, payload: seq<byte>)
    ensures HeaderBlockFragment(h, payload).None? <==> |payload| < LeastLength(h, payload)
  {
    hide Bit;
  }

  lemma LaidOutPlain(h: FrameHeader, payload: seq<byte>) returns (parts: Parts)
    requires !h.Has(PADDED) && |payload| >= LeastLength(h, payload)
    ensures parts.padding == [] && payload == WritePayload(h, parts)
  {
    hide Bit, WriteLead;
    var n := LeastLength(h, payload);
    parts := SomeLead(h, payload[..n], [], payload[n..]);
  }

  lemma LaidOutPadded(h: FrameHeader, payload: seq<byte>) returns (parts: Parts)
    requires h.Has(PADDED) && |payload| >= LeastLength(h, payload)
    ensures |parts.padding| < 256 && payload == WritePayload(h, parts)
  {
    hide Bit, WriteLead;
    var p, pad := payload[1..], payload[0] as int;
    var n := LeastLength(h, payload) - pad - 1;
    parts := SomeLead(h, p[..n], p[|p| - pad..], p[n..|p| - pad]);
    FourPieces(payload, n, |p| - pad);
  }

  lemma FourPieces(b: seq<byte>, m: nat, n: nat)
    requires b != [] && m <= n < |b|
    ensures var p := b[1..]; b == [b[0]] + p[..m] + p[m..n] + p[n..]
  {
  }

  /** Any other payload is laid out from some parts, whose fragment is what comes out. */
  lemma LaidOut(h: FrameHeader, payload: seq<byte>) returns (parts: Parts)
    requires HeaderBlockFragment(h, payload).Some?
    ensures |parts.padding| < 256 && payload == WritePayload(h, parts)
    ensures HeaderBlockFragment(h, payload) == Some(parts.fragment)
  {
    hide Bit, WritePayload, HeaderBlockFragment, LeastLength;
    RefusedExactly(h, payload);
    if h.Has(PADDED) {
      parts := LaidOutPadded(h, payload);
    } else {
      parts := LaidOutPlain(h, payload);
    }
    FragmentRoundTrip(h, parts);
  }

  // ----- every type of frame ----------------------------------------------------------------

  /** A frame by its type. Types 0x0a to 0x0c are extensions of any shape. */
  datatype Typed =
    | Data(stream: u32, payload: seq<byte>)
    | Opening(stream: u32, payload: seq<byte>)
    | Prioritize(stream: u32, priority: Priority)
    | Reset(stream: u32, code: u32)
    | Settings(entries: seq<(u16, u32)>)
    | Promise(stream: u32, promised: u32, rest: seq<byte>)
    | Ping(first: u32, second: u32)
    | GoAway(last: u32, code: u32, debug: seq<byte>)
    | Window(stream: u32, increment: u32)
    | Continuation(stream: u32, payload: seq<byte>)
    | Extension(kind: byte, stream: u32, payload: seq<byte>)
  {
    function Type(): byte {
      match this
      case Data(_, _) => 0
      case Opening(_, _) => 1
      case Prioritize(_, _) => 2
      case Reset(_, _) => 3
      case Settings(_) => 4
      case Promise(_, _, _) => 5
      case Ping(_, _) => 6
      case GoAway(_, _, _) => 7
      case Window(_, _) => 8
      case Continuation(_, _) => 9
      case Extension(kind, _, _) => kind
    }

    /** Settings, pings and farewells concern the connection. */
    function Stream(): u32 {
      if Settings? || Ping? || GoAway? then 0 else stream
    }

    function Payload(): seq<byte> {
      match this
      case Data(_, p) => p
      case Opening(_, p) => p
      case Prioritize(_, p) => WritePriority(p)
      case Reset(_, code) => Enc32(code)
      case Settings(entries) => WriteEntries(entries)
      case Promise(_, id, rest) => Enc32(id) + rest
      case Ping(a, b) => Enc32(a) + Enc32(b)
      case GoAway(last, code, debug) => Enc32(last) + Enc32(code) + debug
      case Window(_, n) => Enc32(n)
      case Continuation(_, p) => p
      case Extension(_, _, p) => p
    }

    /** Where a stream is needed there is one, and the frame is short enough for the scan. */
    predicate Legal() {
      && Stream() < TWO31 && |Payload()| <= MAX_PLAUSIBLE_FRAME
      && (Stream() == 0 ==> Settings? || Ping? || GoAway? || Window? || Extension?)
      && (Extension? ==> 0x0a <= kind <= 0x0c)
    }
  }

  function WriteEntries(entries: seq<(u16, u32)>): (b: seq<byte>)
    ensures |b| == 6 * |entries|
  {
    if entries == [] then [] else Enc16(entries[0].0) + Enc32(entries[0].1) + WriteEntries(entries[1..])
  }

  function HeaderFor(f: Typed, flags: byte): FrameHeader
    requires f.Legal()
  {
    FrameHeader(|f.Payload()|, f.Type(), flags, f.Stream())
  }

  /** Some frame legal by its type carries this header. */
  ghost predicate Carried(h: FrameHeader) {
    exists f: Typed :: f.Legal() && HeaderFor(f, h.flags) == h
  }

  lemma LegalIsPlausible(f: Typed, flags: byte)
    requires f.Legal()
    ensures Plausible(HeaderFor(f, flags))
  {
  }

  function Zeros(n: nat): (b: seq<byte>)
    ensures |b| == n
  {
    seq(n, _ => 0)
  }

  /** A frame for a plausible header. */
  function Example(h: FrameHeader): Typed
    requires Plausible(h)
  {
    var s, n := h.streamId, h.len;
    if h.typ == DATA then Data(s, Zeros(n))
    else if h.typ == HEADERS then Opening(s, Zeros(n))
    else if h.typ == PRIORITY then Prioritize(s, Priority(false, 0, 0))
    else if h.typ == RST_STREAM then Reset(s, 0)
    else if h.typ == SETTINGS then Settings(seq(n / 6, _ => (1, 0)))
    else if h.typ == PUSH_PROMISE then Promise(s, 2, Zeros(n - 4))
    else if h.typ == PING then Ping(0, 0)
    else if h.typ == GOAWAY then GoAway(0, 0, Zeros(n - 8))
    else if h.typ == WINDOW_UPDATE then Window(s, 1)
    else if h.typ == CONTINUATION then Continuation(s, Zeros(n))
    else Extension(h.typ, s, Zeros(n))
  }

  /** A header is plausible exactly when such a frame exists. */
  lemma PlausibleExactly(h: FrameHeader)
    requires h.streamId < TWO31
    ensures Plausible(h) <==> Carried(h)
  {
    if Plausible(h) {
      var f := Example(h);
      assert f.Legal() && HeaderFor(f, h.flags) == h;
    }
    if Carried(h) {
      var f: Typed :| f.Legal() && HeaderFor(f, h.flags) == h;
      LegalIsPlausible(f, h.flags);
    }
  }

  // ----- a run of frames ------------------------------------------------------------------------

  function WriteFrames(fs: seq<(Typed, byte)>): seq<byte>
    requires forall f :: f in fs ==> f.0.Legal()
  {
    if fs == [] then [] else HeaderFor(fs[0].0, fs[0].1).Write() + fs[0].0.Payload() + WriteFrames(fs[1..])
  }

  /** Wherever the capture stops in a run of legal frames, the start of the first is a boundary. */
  lemma {:induction false} LegalRunIsBoundary(before: seq<byte>, tail: seq<byte>, fs: seq<(Typed, byte)>)
    requires forall f :: f in fs ==> f.0.Legal()
    requires tail <= WriteFrames(fs)
    ensures TrueBoundary(before + tail, |before|)
    decreases |fs|
  {
    hide Typed.Legal, Typed.Payload, Plausible, ParseHeader, FrameHeader.Write;
    var b := before + tail;
    if |tail| >= FRAME_HEADER_LEN {
      var f, flags := fs[0].0, fs[0].1;
      var h, rest := HeaderFor(f, flags), WriteFrames(fs[1..]);
      HeaderOfLegal(f, flags, tail, rest);
      LegalIsPlausible(f, flags);
      assert b[|before|..] == tail;
      var n := h.TotalLen();
      if n <= |tail| {
        var whole := h.Write() + f.Payload();
        assert tail == whole + tail[n..] by { assert whole == tail[..n]; }
        assert tail[n..] <= rest;
        LegalRunIsBoundary(before + whole, tail[n..], fs[1..]);
        assert before + whole + tail[n..] == b;
      }
    }
  }

  lemma HeaderOfLegal(f: Typed, flags: byte, tail: seq<byte>, rest: seq<byte>)
    requires f.Legal() && |tail| >= FRAME_HEADER_LEN && tail <= HeaderFor(f, flags).Write() + f.Payload() + rest
    ensures ParseHeader(tail) == Some(HeaderFor(f, flags))
  {
    var h := HeaderFor(f, flags);
    assert tail == h.Write() + tail[FRAME_HEADER_LEN..];
    HeaderRoundTrip(h, tail[FRAME_HEADER_LEN..]);
  }

  /** So the boundary scan never skips it. */
  lemma LegalRunIsNotRejected(tail: seq<byte>, fs: seq<(Typed, byte)>, want: nat, minAccept: nat)
    requires forall f :: f in fs ==> f.0.Legal()
    requires tail <= WriteFrames(fs)
    ensures !CheckFrameChain(tail, want, minAccept).ChainBad?
  {
    LegalRunIsBoundary([], tail, fs);
    assert [] + tail == tail;
    TrueBoundaryNotBad(tail, 0, 0, want, minAccept);
  }
}
