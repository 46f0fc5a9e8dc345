/** Packets as they come off the wire, laid out field by field by a writer of their own: tags,
    options, extension headers, padding. What the parser makes of every one of them. */
module PktReceived {
  import opened Basics
  import opened Pkt

  // ----- TCP ---------------------------------------------------------------------------------

  datatype TcpHead = TcpHead(srcPort: u16, dstPort: u16, seq_: u32, ack: u32, reserved: byte, flags: byte,
                             window: u16, checksum: u16, urgent: u16, options: seq<byte>)
  {
    predicate Valid() {
      reserved < 16 && |options| % 4 == 0 && |options| <= 40
    }

    function Length(): nat {
      20 + |options|
    }

    /** The header of RFC 9293 section 3.1; its length counts words of four bytes. */
    function Write(): (b: seq<byte>)
      requires Valid()
      ensures |b| == Length()
    {
      Enc16(srcPort) + Enc16(dstPort) + Enc32(seq_) + Enc32(ack) + [(5 + |options| / 4) * 16 + reserved, flags]
      + Enc16(window) + Enc16(checksum) + Enc16(urgent) + options
    }
  }

  /** The fixed part of the header, piece by piece. */
  lemma FixedFields(h: TcpHead, tail: seq<byte>)
    requires h.Valid()
    ensures var t := h.Write() + tail;
            && Be16(t, 0) == h.srcPort && Be16(t, 2) == h.dstPort && Be32(t, 4) == h.seq_ && Be32(t, 8) == h.ack
            && t[12] == (5 + |h.options| / 4) * 16 + h.reserved && t[13] == h.flags
  {
    hide Be16, Be32, Enc16, Enc32;
    var sp, dp, sq, ak := Enc16(h.srcPort), Enc16(h.dstPort), Enc32(h.seq_), Enc32(h.ack);
    var mid: seq<byte> := [(5 + |h.options| / 4) * 16 + h.reserved, h.flags];
    var rest := Enc16(h.window) + Enc16(h.checksum) + Enc16(h.urgent) + h.options + tail;
    var t := h.Write() + tail;
    assert t == [] + (sp + (dp + sq + ak + mid + rest));
    Word16At([], h.srcPort, dp + sq + ak + mid + rest);
    assert t == sp + (dp + (sq + ak + mid + rest));
    Word16At(sp, h.dstPort, sq + ak + mid + rest);
    assert t == sp + dp + (sq + (ak + mid + rest));
    Word32At(sp + dp, h.seq_, ak + mid + rest);
    assert t == sp + dp + sq + (ak + (mid + rest));
    Word32At(sp + dp + sq, h.ack, mid + rest);
    assert t == sp + dp + sq + ak + (mid + rest);
  }

  function Min(a: nat, b: nat): nat {
    if a < b then a else b
  }

  /** What a segment is to the reader: its fields, and as much of what follows the header as
      the promised length covers and the capture holds. */
  function Segment(ethDst: seq<byte>, ethSrc: seq<byte>, src: Ip, dst: Ip, h: TcpHead, len: nat, rest: seq<byte>): Option<TcpSegment> {
    if len < h.Length() then None
    else Some(TcpSegment(ethDst, ethSrc, src, dst, h.srcPort, h.dstPort, h.seq_, h.ack, h.flags,
                         rest[..Min(|rest|, len - h.Length())]))
  }

  lemma TcpReads(ethDst: seq<byte>, ethSrc: seq<byte>, src: Ip, dst: Ip, h: TcpHead, len: nat, rest: seq<byte>)
    requires h.Valid()
    ensures ParseTcp(ethDst, ethSrc, L4(src, dst, h.Write() + rest, len)) == Segment(ethDst, ethSrc, src, dst, h, len, rest)
  {
    hide Be16, Be32, TcpHead.Write;
    FixedFields(h, rest);
    var t, n := h.Write() + rest, h.Length();
    assert t[12] / 16 * 4 == n;
    if len >= n {
      var end := Min(len, |t|);
      assert t[n..end] == rest[..end - n];
    }
  }

  // ----- IP -----------------------------------------------------------------------------------

  /** One IPv6 extension header: its type, and its body after the two leading bytes. */
  datatype Ext = Ext(kind: byte, body: seq<byte>) {
    predicate Valid() {
      kind != IPPROTO_TCP && (|body| + 2) % 8 == 0 && |body| + 2 <= 2048
    }
  }

  datatype IpHead =
    | Ip4(tos: byte, id: u16, topBits: nat, fragment: nat, ttl: byte, protocol: byte, checksum: u16,
          src: seq<byte>, dst: seq<byte>, options: seq<byte>)
    | Ip6(nibble: byte, flow: seq<byte>, hopLimit: byte, src: seq<byte>, dst: seq<byte>, chain: seq<Ext>, protocol: byte)
  {
    predicate Valid() {
      if Ip4? then
        topBits < 4 && fragment < 0x4000 && |src| == 4 && |dst| == 4 && |options| % 4 == 0 && |options| <= 40
      else
        nibble < 16 && |flow| == 3 && |src| == 16 && |dst| == 16 && !Extension(protocol) && forall e :: e in chain ==> e.Valid()
    }

    /** Everything before TCP. */
    function Length(): nat {
      if Ip4? then 20 + |options| else 40 + |WriteChain(chain, protocol)|
    }

    /** The length field: IPv4 counts its header, IPv6 only what comes after the fixed part. */
    function LengthField(len: nat): nat {
      if Ip4? then Length() + len else Length() - 40 + len
    }

    /** Section 3.1 of RFC 791 and section 3 of RFC 8200. */
    function Write(len: nat): seq<byte>
      requires Valid()
    {
      match this
      case Ip4(_, _, _, _, _, _, _, _, _, _) =>
        [0x40 + (5 + |options| / 4), tos] + Enc16(LengthField(len)) + Enc16(id) + Enc16(topBits * 0x4000 + fragment)
        + [ttl, protocol] + Enc16(checksum) + src + dst + options
      case Ip6(_, _, _, _, _, _, _) =>
        [0x60 + nibble] + flow + Enc16(LengthField(len)) + [FirstKind(chain, protocol), hopLimit] + src + dst
        + WriteChain(chain, protocol)
    }

    /** Whole, and TCP behind headers the parser knows how to skip. */
    predicate CarriesTcp() {
      protocol == IPPROTO_TCP && if Ip4? then fragment == 0 else AllKnown(chain)
    }

    function Source(): Ip {
      if Ip4? then V4(src) else V6(src)
    }

    function Destination(): Ip {
      if Ip4? then V4(dst) else V6(dst)
    }
  }

  function FirstKind(chain: seq<Ext>, protocol: byte): byte {
    if chain == [] then protocol else chain[0].kind
  }

  /** Each extension header names the next one and counts its own length in units of eight. */
  function WriteExt(e: Ext, next: byte): seq<byte>
    requires e.Valid()
  {
    [next, (|e.body| + 2) / 8 - 1] + e.body
  }

  function WriteChain(chain: seq<Ext>, protocol: byte): seq<byte>
  {
    if chain == [] || !chain[0].Valid() then []
    else WriteExt(chain[0], FirstKind(chain[1..], protocol)) + WriteChain(chain[1..], protocol)
  }

  /** One header known is skipped; one unknown ends the walk. */
  lemma ExtStep(before: seq<byte>, e: Ext, next: byte, rest: seq<byte>, m: nat)
    requires e.Valid()
    ensures |WriteExt(e, next)| == |e.body| + 2
    ensures var ip, n := before + WriteExt(e, next) + rest, |e.body| + 2;
            WalkExtensions(ip, e.kind, |before|, n + m) == if Extension(e.kind) then WalkExtensions(ip, next, |before| + n, m) else None
  {
    var one := WriteExt(e, next);
    var ip := before + one + rest;
    assert ip[|before|] == one[0] && ip[|before| + 1] == one[1];
    assert (ip[|before| + 1] as int + 1) * 8 == |e.body| + 2;
  }

  lemma ChainEnd(ip: seq<byte>, protocol: byte, cur: nat, len: nat)
    requires !Extension(protocol)
    ensures WalkExtensions(ip, protocol, cur, len) == if protocol == IPPROTO_TCP then Some((cur, len)) else None
  {
  }

  predicate AllKnown(chain: seq<Ext>) {
    forall e :: e in chain ==> Extension(e.kind)
  }

  /** The walk gets through the chain exactly when it knows every header of it. */
  lemma {:induction false} ChainWalk(before: seq<byte>, chain: seq<Ext>, protocol: byte, tail: seq<byte>, len: nat)
    requires !Extension(protocol) && forall e :: e in chain ==> e.Valid()
    ensures var all := WriteChain(chain, protocol);
            WalkExtensions(before + all + tail, FirstKind(chain, protocol), |before|, |all| + len)
            == if protocol == IPPROTO_TCP && AllKnown(chain) then Some((|before| + |all|, len)) else None
    decreases |chain|
  {
    hide Extension, WalkExtensions, WriteExt;
    if chain == [] {
      ChainEnd(before + [] + tail, protocol, |before|, len);
    } else {
      var e, next := chain[0], FirstKind(chain[1..], protocol);
      var one, more := WriteExt(e, next), WriteChain(chain[1..], protocol);
      Regroup(before, one, more, tail);
      ExtStep(before, e, next, more + tail, |more| + len);
      assert chain == [e] + chain[1..];
      ChainWalk(before + one, chain[1..], protocol, tail, len);
    }
  }

  lemma Regroup(a: seq<byte>, b: seq<byte>, c: seq<byte>, d: seq<byte>)
    ensures a + (b + c) + d == a + b + c + d == a + b + (c + d)
  {
  }

  lemma Ip4Reads(h: IpHead, len: nat, data: seq<byte>)
    requires h.Valid() && h.Ip4? && h.LengthField(len) < 0x1_0000
    ensures ParseIpv4(h.Write(len) + data) == if h.CarriesTcp() then Some(L4(h.Source(), h.Destination(), data, len)) else None
  {
    var total, frag := h.LengthField(len), h.topBits * 0x4000 + h.fragment;
    var start: seq<byte> := [0x40 + (5 + |h.options| / 4), h.tos];
    var l, id, ff, ck := Enc16(total), Enc16(h.id), Enc16(frag), Enc16(h.checksum);
    var tail := [h.ttl, h.protocol] + ck + h.src + h.dst + h.options + data;
    assert h.Write(len) == start + l + id + ff + [h.ttl, h.protocol] + ck + h.src + h.dst + h.options;
    hide Enc16, Be16, IpHead.Write;
    Ip4Regroup(start + l + id + ff, [h.ttl, h.protocol], ck, h.src, h.dst, h.options, data);
    Word16At(start, total, id + (ff + tail));
    Word16At(start + l + id, frag, tail);
    Pieces(start, l, id, ff, tail);
    Ip4Bytes(start + l + id + ff, h, ck, data);
    Nibbles(5 + |h.options| / 4);
    MulMod(h.topBits, 0x4000, h.fragment);
  }

  lemma Nibbles(n: nat)
    requires n < 16
    ensures (0x40 + n) / 16 == 4 && (0x40 + n) % 16 == n
  {
  }

  lemma Ip4Regroup(a: seq<byte>, b: seq<byte>, c: seq<byte>, d: seq<byte>, e: seq<byte>, f: seq<byte>, g: seq<byte>)
    ensures a + b + c + d + e + f + g == a + (b + c + d + e + f + g)
  {
  }

  lemma Pieces(a: seq<byte>, b: seq<byte>, c: seq<byte>, d: seq<byte>, e: seq<byte>)
    ensures a + b + c + d + e == a + (b + (c + (d + e)))
    ensures a + b + c + d + e == a + b + c + (d + e)
  {
  }

  lemma Ip4Bytes(before: seq<byte>, h: IpHead, ck: seq<byte>, data: seq<byte>)
    requires h.Valid() && h.Ip4? && |before| == 8 && |ck| == 2
    ensures var ip := before + ([h.ttl, h.protocol] + ck + h.src + h.dst + h.options + data);
            && |ip| >= h.Length() && ip[0] == before[0] && ip[9] == h.protocol
            && ip[12..16] == h.src && ip[16..20] == h.dst && ip[h.Length()..] == data
  {
  }

  lemma Ip6Reads(h: IpHead, len: nat, data: seq<byte>)
    requires h.Valid() && h.Ip6? && h.LengthField(len) < 0x1_0000
    ensures ParseIpv6(h.Write(len) + data) == if h.CarriesTcp() then Some(L4(h.Source(), h.Destination(), data, len)) else None
  {
    var field, all := h.LengthField(len), WriteChain(h.chain, h.protocol);
    var start, l := [0x60 + h.nibble] + h.flow, Enc16(field);
    var tail := [FirstKind(h.chain, h.protocol), h.hopLimit] + h.src + h.dst;
    assert h.Write(len) == start + l + [FirstKind(h.chain, h.protocol), h.hopLimit] + h.src + h.dst + all;
    hide Enc16, Be16, WriteChain, WalkExtensions, AllKnown, IpHead.Write, FirstKind;
    Ip6Regroup(start, l, FirstKind(h.chain, h.protocol), h.hopLimit, h.src, h.dst, all, data);
    Word16At(start, field, tail + all + data);
    Ip6Bytes(start + l, h, all, data);
    ChainWalk(start + l + tail, h.chain, h.protocol, data, len);
  }

  lemma Ip6Regroup(a: seq<byte>, l: seq<byte>, x: byte, y: byte, s: seq<byte>, d: seq<byte>, all: seq<byte>, data: seq<byte>)
    ensures a + l + [x, y] + s + d + all + data == a + (l + ([x, y] + s + d + all + data))
    ensures a + l + [x, y] + s + d + all + data == a + l + ([x, y] + s + d) + all + data
  {
  }

  lemma Ip6Bytes(before: seq<byte>, h: IpHead, all: seq<byte>, data: seq<byte>)
    requires h.Valid() && h.Ip6? && |before| == 6
    ensures var ip := before + ([FirstKind(h.chain, h.protocol), h.hopLimit] + h.src + h.dst) + all + data;
            && |ip| >= 40 && ip[0] == before[0] && ip[6] == FirstKind(h.chain, h.protocol)
            && ip[8..24] == h.src && ip[24..40] == h.dst && ip[40 + |all|..] == data
  {
    hide WriteChain, FirstKind;
  }

  // ----- Ethernet ---------------------------------------------------------------------------------

  /** A VLAN tag, of the customer or the service kind (IEEE 802.1Q). */
  datatype Tag = Tag(service: bool, control: u16) {
    function Type(): u16 {
      if service then ETHERTYPE_QINQ else ETHERTYPE_VLAN
    }
  }

  /** Any number of tags, then the ethertype. */
  function WriteTags(tags: seq<Tag>, ethertype: u16): (b: seq<byte>)
    ensures |b| == 4 * |tags| + 2
  {
    if tags == [] then Enc16(ethertype)
    else Enc16(tags[0].Type()) + (Enc16(tags[0].control) + WriteTags(tags[1..], ethertype))
  }

  lemma {:induction false} TagsSkipped(before: seq<byte>, tags: seq<Tag>, ethertype: u16, tail: seq<byte>)
    requires ethertype != ETHERTYPE_VLAN && ethertype != ETHERTYPE_QINQ
    ensures var frame := before + WriteTags(tags, ethertype) + tail;
            SkipTags(frame, |before| + 2, Be16(frame, |before|)) == Some((|before| + |WriteTags(tags, ethertype)|, ethertype))
    decreases |tags|
  {
    hide Enc16, Be16, SkipTags;
    if tags == [] {
      assert before + Enc16(ethertype) + tail == before + (Enc16(ethertype) + tail);
      Word16At(before, ethertype, tail);
      TagStep(before + Enc16(ethertype) + tail, |before| + 2, ethertype);
    } else {
      var kind, control, more := Enc16(tags[0].Type()), Enc16(tags[0].control), WriteTags(tags[1..], ethertype);
      var frame := before + (kind + (control + more)) + tail;
      assert frame == before + (kind + (control + more + tail));
      Word16At(before, tags[0].Type(), control + more + tail);
      assert frame == before + kind + control + more + tail;
      TagsSkipped(before + kind + control, tags[1..], ethertype, tail);
      TagStep(frame, |before| + 2, tags[0].Type());
    }
  }

  lemma TagStep(frame: seq<byte>, off: nat, kind: u16)
    ensures SkipTags(frame, off, kind)
         == if kind != ETHERTYPE_VLAN && kind != ETHERTYPE_QINQ then Some((off, kind))
            else if |frame| < off + 4 then None
            else SkipTags(frame, off + 4, Be16(frame, off + 2))
  {
  }

  /** A frame as received: `rest` is what the capture holds behind the TCP header, payload first
      and then whatever pads the frame, or less than the payload if it was cut short. */
  function WriteFrame(ethDst: seq<byte>, ethSrc: seq<byte>, tags: seq<Tag>, ip: IpHead, tcp: TcpHead, len: nat, rest: seq<byte>): seq<byte>
    requires ip.Valid() && tcp.Valid()
  {
    ethDst + ethSrc + WriteTags(tags, if ip.Ip4? then ETHERTYPE_IPV4 else ETHERTYPE_IPV6) + (ip.Write(len) + (tcp.Write() + rest))
  }

  /** Whatever was received: the parser returns exactly the addresses, ports, numbers and flags
      written, with the payload that the length field covers, if the packet is whole, carries
      TCP behind headers it knows and has room for its TCP header; and nothing otherwise. */
  lemma ReceivedReads(ethDst: seq<byte>, ethSrc: seq<byte>, tags: seq<Tag>, ip: IpHead, tcp: TcpHead, len: nat, rest: seq<byte>)
    requires |ethDst| == 6 && |ethSrc| == 6 && ip.Valid() && tcp.Valid() && ip.LengthField(len) < 0x1_0000
    ensures ParseEthernet(WriteFrame(ethDst, ethSrc, tags, ip, tcp, len, rest))
         == if ip.CarriesTcp() then Segment(ethDst, ethSrc, ip.Source(), ip.Destination(), tcp, len, rest) else None
  {
    hide ParseIpv4, ParseIpv6, ParseTcp, TcpHead.Write, IpHead.Write, WriteTags, SkipTags, Be16;
    var ethertype := if ip.Ip4? then ETHERTYPE_IPV4 else ETHERTYPE_IPV6;
    var macs, all, data := ethDst + ethSrc, WriteTags(tags, ethertype), tcp.Write() + rest;
    var inner := ip.Write(len) + data;
    var frame := macs + all + inner;
    assert frame == WriteFrame(ethDst, ethSrc, tags, ip, tcp, len, rest);
    TagsSkipped(macs, tags, ethertype, inner);
    Offsets(ethDst, ethSrc, all, inner);
    if ip.Ip4? {
      Ip4Reads(ip, len, data);
    } else {
      Ip6Reads(ip, len, data);
    }
    TcpReads(ethDst, ethSrc, ip.Source(), ip.Destination(), tcp, len, rest);
  }

  lemma Offsets(a: seq<byte>, b: seq<byte>, c: seq<byte>, d: seq<byte>)
    requires |a| == 6 && |b| == 6
    ensures (a + b + c + d)[0..6] == a && (a + b + c + d)[6..12] == b && (a + b + c + d)[12 + |c|..] == d
  {
  }

  /** An uncut packet with its padding: the payload exactly. */
  lemma PayloadReads(ethDst: seq<byte>, ethSrc: seq<byte>, tags: seq<Tag>, ip: IpHead, tcp: TcpHead, payload: seq<byte>, pad: seq<byte>)
    requires |ethDst| == 6 && |ethSrc| == 6 && ip.Valid() && tcp.Valid() && ip.CarriesTcp()
    requires ip.LengthField(tcp.Length() + |payload|) < 0x1_0000
    ensures ParseEthernet(WriteFrame(ethDst, ethSrc, tags, ip, tcp, tcp.Length() + |payload|, payload + pad))
         == Some(TcpSegment(ethDst, ethSrc, ip.Source(), ip.Destination(), tcp.srcPort, tcp.dstPort, tcp.seq_, tcp.ack, tcp.flags, payload))
  {
    hide ParseEthernet, WriteFrame;
    ReceivedReads(ethDst, ethSrc, tags, ip, tcp, tcp.Length() + |payload|, payload + pad);
    assert (payload + pad)[..|payload|] == payload;
  }
}
