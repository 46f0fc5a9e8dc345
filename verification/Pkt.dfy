/** Ethernet / IPv4 / IPv6 / TCP parsing and synthesis, and the round trip between them. */
module Pkt {
  import opened Basics

  const ETHERTYPE_IPV4 := 0x0800
  const ETHERTYPE_IPV6 := 0x86dd
  const ETHERTYPE_VLAN := 0x8100
  const ETHERTYPE_QINQ := 0x88a8
  const IPPROTO_TCP: byte := 6

  const FIN: byte := 0x01
  const SYN: byte := 0x02
  const PSH: byte := 0x08
  const TCP_ACK: byte := 0x10

  datatype Ip = V4(octets: seq<byte>) | V6(octets: seq<byte>) {
    predicate Valid() {
      |octets| == if V4? then 4 else 16
    }
  }

  datatype TcpSegment = TcpSegment(
    ethDst: seq<byte>, ethSrc: seq<byte>, srcIp: Ip, dstIp: Ip, srcPort: u16, dstPort: u16,
    seq_: u32, ack: u32, flags: byte, payload: seq<byte>)

  /** Does the segment go from the source of `ep` to its destination? */
  predicate Travels(t: TcpSegment, ep: Endpoint) {
    t.srcIp == ep.srcIp && t.srcPort == ep.srcPort && t.dstIp == ep.dstIp && t.dstPort == ep.dstPort
  }

  // ----- parsing -----------------------------------------------------------------------

  /** Skip any number of VLAN tags: the offset after them and the ethertype found there. */
  function SkipTags(frame: seq<byte>, off: nat, ethertype: u16): Option<(nat, u16)>
    decreases |frame| - off
  {
    if ethertype != ETHERTYPE_VLAN && ethertype != ETHERTYPE_QINQ then Some((off, ethertype))
    else if |frame| < off + 4 then None
    else SkipTags(frame, off + 4, Be16(frame, off + 2))
  }

  /** An IP packet taken apart: addresses, what follows the headers, and the length the
      headers promise for it. */
  datatype L4 = L4(src: Ip, dst: Ip, data: seq<byte>, len: nat)

  function ParseIpv4(ip: seq<byte>): Option<L4> {
    if |ip| < 20 || ip[0] / 16 != 4 then None
    else
      var ihl := ip[0] % 16 * 4;
      if ihl < 20 || |ip| < ihl || Be16(ip, 6) % 0x4000 != 0 || ip[9] != IPPROTO_TCP || Be16(ip, 2) < ihl then None
      else Some(L4(V4(ip[12..16]), V4(ip[16..20]), ip[ihl..], Be16(ip, 2) - ihl))
  }

  predicate Extension(next: byte) {
    next == 0 || next == 43 || next == 60 || next == 135
  }

  /** Walk IPv6 extension headers to TCP: where it starts and how much is left. */
  function WalkExtensions(ip: seq<byte>, next: byte, cur: nat, remaining: nat): Option<(nat, nat)>
    decreases remaining
  {
    if next == IPPROTO_TCP then Some((cur, remaining))
    else if !Extension(next) || cur + 2 > |ip| then None
    else
      var len := (ip[cur + 1] as int + 1) * 8;
      if remaining < len then None else WalkExtensions(ip, ip[cur], cur + len, remaining - len)
  }

  function ParseIpv6(ip: seq<byte>): Option<L4> {
    if |ip| < 40 || ip[0] / 16 != 6 then None
    else match WalkExtensions(ip, ip[6], 40, Be16(ip, 4))
      case None => None
      case Some((cur, remaining)) =>
        if cur > |ip| then None
        else Some(L4(V6(ip[8..24]), V6(ip[24..40]), ip[cur..], remaining))
  }

  function ParseTcp(ethDst: seq<byte>, ethSrc: seq<byte>, l: L4): Option<TcpSegment> {
    if |l.data| < 20 || l.len < 20 then None
    else
      var dataOff := l.data[12] / 16 * 4;
      if dataOff < 20 || dataOff > l.len || dataOff > |l.data| then None
      else
        var end := if l.len < |l.data| then l.len else |l.data|;
        Some(TcpSegment(ethDst, ethSrc, l.src, l.dst, Be16(l.data, 0), Be16(l.data, 2), Be32(l.data, 4), Be32(l.data, 8),
                        l.data[13], l.data[dataOff..end]))
  }

  function ParseIp(frame: seq<byte>, off: nat, ethertype: u16): Option<L4> {
    if off > |frame| then None
    else if ethertype == ETHERTYPE_IPV4 then ParseIpv4(frame[off..])
    else if ethertype == ETHERTYPE_IPV6 then ParseIpv6(frame[off..])
    else None
  }

  function ParseEthernet(frame: seq<byte>): Option<TcpSegment> {
    if |frame| < 14 then None
    else match SkipTags(frame, 14, Be16(frame, 12))
      case None => None
      case Some((off, ethertype)) =>
        match ParseIp(frame, off, ethertype)
        case None => None
        case Some(l4) => ParseTcp(frame[0..6], frame[6..12], l4)
  }

  /** The tag walk as the source runs it. */
  method SkipTagsLoop(frame: seq<byte>) returns (r: Option<(nat, u16)>)
    requires |frame| >= 14
    ensures r == SkipTags(frame, 14, Be16(frame, 12))
  {
    var off: nat, ethertype: u16 := 14, Be16(frame, 12);
    while ethertype == ETHERTYPE_VLAN || ethertype == ETHERTYPE_QINQ
      invariant SkipTags(frame, off, ethertype) == SkipTags(frame, 14, Be16(frame, 12))
      decreases |frame| - off
    {
      if |frame| < off + 4 {
        return None;
      }
      ethertype := Be16(frame, off + 2);
      off := off + 4;
    }
    return Some((off, ethertype));
  }

  /** The extension-header walk as the source runs it. */
  method WalkExtensionsLoop(ip: seq<byte>, first: byte, payloadLen: nat) returns (r: Option<(nat, nat)>)
    ensures r == WalkExtensions(ip, first, 40, payloadLen)
  {
    var next: byte, cur: nat, remaining: nat := first, 40, payloadLen;
    while next != IPPROTO_TCP
      invariant WalkExtensions(ip, next, cur, remaining) == WalkExtensions(ip, first, 40, payloadLen)
      decreases remaining
    {
      if !Extension(next) || cur + 2 > |ip| {
        return None;
      }
      var len := (ip[cur + 1] as int + 1) * 8;
      if remaining < len {
        return None;
      }
      next := ip[cur];
      cur := cur + len;
      remaining := remaining - len;
    }
    return Some((cur, remaining));
  }

  // ----- checksums (RFC 1071) -----------------------------------------------------------

  /** The sum of 16-bit words, an odd last byte padded on the right. */
  function Sum16(data: seq<byte>): nat {
    if data == [] then 0
    else if |data| == 1 then data[0] as int * 0x100
    else Be16(data, 0) + Sum16(data[2..])
  }

  /** End-around-carry folding to sixteen bits. */
  function FoldSum(acc: nat): u16 {
    if acc < 0x1_0000 then acc else FoldSum(acc % 0x1_0000 + acc / 0x1_0000)
  }

  function Fold(acc: nat): u16 {
    0xffff - FoldSum(acc)
  }

  /** Bytes that can be summed on top of a pseudo header without leaving 32 bits. */
  const SUMMABLE := 0x1_ff00

  /** `sum16` as the source runs it; the 32-bit accumulator does not overflow up to 130 816 bytes. */
  method Sum16Loop(data: seq<byte>, start: nat) returns (acc: nat)
    ensures acc == start + Sum16(data)
    ensures |data| <= SUMMABLE && start <= 0x40_0000 ==> acc < TWO32
  {
    acc := start;
    var i := 0;
    while i + 1 < |data|
      invariant 0 <= i <= |data|
      invariant acc + Sum16(data[i..]) == start + Sum16(data)
    {
      assert data[i..][2..] == data[i + 2..];
      acc := acc + Be16(data, i);
      i := i + 2;
    }
    if i < |data| {
      acc := acc + data[i] as int * 0x100;
    }
    Sum16Bound(data);
  }

  method FoldLoop(start: nat) returns (r: u16)
    ensures r == Fold(start)
  {
    var acc := start;
    while acc >= 0x1_0000
      invariant FoldSum(acc) == FoldSum(start)
    {
      acc := acc % 0x1_0000 + acc / 0x1_0000;
    }
    r := 0xffff - acc;
  }

  lemma {:induction false} Sum16Bound(data: seq<byte>)
    ensures Sum16(data) <= 0xffff * ((|data| + 1) / 2)
  {
    if |data| >= 2 {
      Sum16Bound(data[2..]);
    }
  }

  lemma {:induction false} Sum16Concat(a: seq<byte>, b: seq<byte>)
    requires |a| % 2 == 0
    ensures Sum16(a + b) == Sum16(a) + Sum16(b)
  {
    if a == [] {
      assert a + b == b;
    } else {
      assert (a + b)[2..] == a[2..] + b;
      Sum16Concat(a[2..], b);
    }
  }

  lemma {:induction false} FoldSumMod(acc: nat)
    ensures FoldSum(acc) % 0xffff == acc % 0xffff
    ensures FoldSum(acc) == 0 <==> acc == 0
  {
    if acc >= 0x1_0000 {
      var q, r := acc / 0x1_0000, acc % 0x1_0000;
      assert acc == (r + q) + 0xffff * q;
      FoldSumMod(r + q);
      FoldSumStep(acc);
      hide FoldSum;
      SameResidue(acc, r + q, q);
    }
  }

  lemma FoldSumStep(acc: nat)
    requires acc >= 0x1_0000
    ensures FoldSum(acc) == FoldSum(acc % 0x1_0000 + acc / 0x1_0000)
  {
  }

  lemma SameResidue(x: nat, y: nat, k: nat)
    requires x == y + 0xffff * k
    ensures x % 0xffff == y % 0xffff
  {
    MulMod(k + y / 0xffff, 0xffff, y % 0xffff);
  }

  /** Adding the complement of the folded sum makes the whole verify. */
  lemma ChecksumVerifies(sum: nat)
    ensures Fold(sum + Fold(sum)) == 0
  {
    hide FoldSum;
    var x := FoldSum(sum);
    FoldSumMod(sum);
    FoldSumMod(sum + (0xffff - x));
    ComplementMod(sum, x);
  }

  lemma ComplementMod(sum: nat, x: nat)
    requires x % 0xffff == sum % 0xffff && x <= 0xffff
    ensures (sum + (0xffff - x)) % 0xffff == 0
  {
    var a, b := sum / 0xffff, x / 0xffff;
    assert sum + (0xffff - x) == 0xffff * (a - b + 1);
  }

  // ----- synthesis ------------------------------------------------------------------------

  datatype Endpoint = Endpoint(ethDst: seq<byte>, ethSrc: seq<byte>, srcIp: Ip, dstIp: Ip, srcPort: u16, dstPort: u16) {
    predicate Valid() {
      |ethDst| == 6 && |ethSrc| == 6 && srcIp.Valid() && dstIp.Valid()
    }

    predicate SameFamily() {
      srcIp.V4? == dstIp.V4?
    }

    function Reversed(): Endpoint {
      Endpoint(ethSrc, ethDst, dstIp, srcIp, dstPort, srcPort)
    }
  }

  function TcpStart(ep: Endpoint, s: u32, ack: u32, flags: byte, window: u16): (b: seq<byte>)
    ensures |b| == 16
  {
    Enc16(ep.srcPort) + Enc16(ep.dstPort) + Enc32(s) + Enc32(ack) + [0x50, flags] + Enc16(window)
  }

  function TcpBytes(ep: Endpoint, s: u32, ack: u32, flags: byte, window: u16, checksum: u16, payload: seq<byte>): (b: seq<byte>)
    ensures |b| == 20 + |payload|
  {
    TcpStart(ep, s, ack, flags, window) + (Enc16(checksum) + ([0, 0] + payload))
  }

  /** The pseudo-header sum; the IPv6 form splits the length into two words. */
  function PseudoSum(ep: Endpoint, tcpLen: nat): nat {
    if !ep.SameFamily() then 0
    else if ep.srcIp.V4? then Sum16(ep.srcIp.octets) + Sum16(ep.dstIp.octets) + IPPROTO_TCP + tcpLen
    else Sum16(ep.srcIp.octets) + Sum16(ep.dstIp.octets) + tcpLen / 0x1_0000 + tcpLen % 0x1_0000 + IPPROTO_TCP
  }

  function TcpChecksum(ep: Endpoint, s: u32, ack: u32, flags: byte, window: u16, payload: seq<byte>): u16 {
    Fold(PseudoSum(ep, 20 + |payload|) + Sum16(TcpBytes(ep, s, ack, flags, window, 0, payload)))
  }

  function Ipv4Header(ep: Endpoint, tcpLen: nat, ipId: u16, checksum: u16): seq<byte> {
    ([0x45, 0] + Enc16((20 + tcpLen) % 0x1_0000) + Enc16(ipId) + Enc16(0x4000) + [64, IPPROTO_TCP])
    + (Enc16(checksum) + (ep.srcIp.octets + ep.dstIp.octets))
  }

  function Ipv4Checksum(ep: Endpoint, tcpLen: nat, ipId: u16): u16 {
    Fold(Sum16(Ipv4Header(ep, tcpLen, ipId, 0)))
  }

  function Ipv6Header(ep: Endpoint, tcpLen: nat): seq<byte> {
    ([0x60, 0, 0, 0] + Enc16(tcpLen % 0x1_0000) + [IPPROTO_TCP, 64]) + (ep.srcIp.octets + ep.dstIp.octets)
  }

  function IpHeader(ep: Endpoint, tcpLen: nat, ipId: u16): seq<byte> {
    if ep.srcIp.V4? then Ipv4Header(ep, tcpLen, ipId, Ipv4Checksum(ep, tcpLen, ipId)) else Ipv6Header(ep, tcpLen)
  }

  /** One Ethernet frame; endpoints of different families have no packet. */
  function BuildTcpPacket(ep: Endpoint, s: u32, ack: u32, flags: byte, window: u16, ipId: u16, payload: seq<byte>): seq<byte> {
    if !ep.SameFamily() then []
    else
      var tcp := TcpBytes(ep, s, ack, flags, window, TcpChecksum(ep, s, ack, flags, window, payload), payload);
      ep.ethDst + ep.ethSrc + Enc16(if ep.srcIp.V4? then ETHERTYPE_IPV4 else ETHERTYPE_IPV6)
      + (IpHeader(ep, |tcp|, ipId) + tcp)
  }

  /** `build_tcp_packet` as the source runs it: headers with zero checksums, summed, and the
      results written over the placeholders. */
  method BuildTcpPacketLoop(ep: Endpoint, s: u32, ack: u32, flags: byte, window: u16, ipId: u16, payload: seq<byte>)
    returns (out: seq<byte>)
    requires ep.Valid()
    ensures out == BuildTcpPacket(ep, s, ack, flags, window, ipId, payload)
  {
    if !ep.SameFamily() {
      return [];
    }
    var tcp := TcpStart(ep, s, ack, flags, window) + [0, 0] + [0, 0] + payload;
    var pseudo := PseudoHeader(ep, |tcp|);
    assert tcp == TcpBytes(ep, s, ack, flags, window, 0, payload);
    var sum := Sum16Loop(tcp, pseudo);
    var ck := FoldLoop(sum);
    assert ck == TcpChecksum(ep, s, ack, flags, window, payload);
    tcp := tcp[16 := ck / 0x100][17 := ck % 0x100];
    assert tcp == TcpBytes(ep, s, ack, flags, window, ck, payload);
    hide TcpBytes, TcpStart, Fold, Sum16, PseudoSum, Ipv4Checksum, Ipv6Header;
    out := ep.ethDst + ep.ethSrc;
    if ep.srcIp.V4? {
      var ip := Ipv4HeaderLoop(ep, |tcp|, ipId);
      out := out + Enc16(ETHERTYPE_IPV4) + (ip + tcp);
    } else {
      out := out + Enc16(ETHERTYPE_IPV6) + (Ipv6Header(ep, |tcp|) + tcp);
    }
  }

  method PseudoHeader(ep: Endpoint, tcpLen: nat) returns (pseudo: nat)
    requires ep.Valid() && ep.SameFamily()
    ensures pseudo == PseudoSum(ep, tcpLen) && (tcpLen <= SUMMABLE ==> pseudo <= 0x40_0000)
  {
    pseudo := Sum16Loop(ep.srcIp.octets, 0);
    Sum16Bound(ep.srcIp.octets);
    Sum16Bound(ep.dstIp.octets);
    pseudo := Sum16Loop(ep.dstIp.octets, pseudo);
    if ep.srcIp.V4? {
      pseudo := pseudo + IPPROTO_TCP + tcpLen;
    } else {
      pseudo := pseudo + tcpLen / 0x1_0000 + tcpLen % 0x1_0000 + IPPROTO_TCP;
    }
  }

  method Ipv4HeaderLoop(ep: Endpoint, tcpLen: nat, ipId: u16) returns (ip: seq<byte>)
    requires ep.Valid() && ep.srcIp.V4? && ep.dstIp.V4?
    ensures ip == Ipv4Header(ep, tcpLen, ipId, Ipv4Checksum(ep, tcpLen, ipId))
  {
    hide Sum16, Fold;
    ip := Ipv4Header(ep, tcpLen, ipId, 0);
    var sum := Sum16Loop(ip, 0);
    var ck := FoldLoop(sum);
    ip := ip[10 := ck / 0x100][11 := ck % 0x100];
    assert ip == Ipv4Header(ep, tcpLen, ipId, ck);
  }

  /** Both checksums verify: the ones' complement sum over the IPv4 header, and over TCP with
      its pseudo header, folds to zero. */
  lemma ChecksumsVerify(ep: Endpoint, s: u32, ack: u32, flags: byte, window: u16, ipId: u16, payload: seq<byte>)
    requires ep.Valid() && ep.SameFamily()
    ensures var tcp := TcpBytes(ep, s, ack, flags, window, TcpChecksum(ep, s, ack, flags, window, payload), payload);
            && Fold(PseudoSum(ep, |tcp|) + Sum16(tcp)) == 0
            && Fold(Sum16(Ipv4Header(ep, |tcp|, ipId, Ipv4Checksum(ep, |tcp|, ipId)))) == 0
  {
    hide Fold, PseudoSum, Enc16, Enc32;
    TcpSum(ep, s, ack, flags, window, 0, payload);
    TcpSum(ep, s, ack, flags, window, TcpChecksum(ep, s, ack, flags, window, payload), payload);
    Ipv4Sum(ep, 20 + |payload|, ipId, 0);
    Ipv4Sum(ep, 20 + |payload|, ipId, Ipv4Checksum(ep, 20 + |payload|, ipId));
    ChecksumVerifies(PseudoSum(ep, 20 + |payload|) + Sum16(TcpBytes(ep, s, ack, flags, window, 0, payload)));
    ChecksumVerifies(Sum16(Ipv4Header(ep, 20 + |payload|, ipId, 0)));
  }

  lemma Sum16Word(n: u16, rest: seq<byte>)
    ensures Sum16(Enc16(n) + rest) == n + Sum16(rest)
  {
    var b := Enc16(n) + rest;
    assert b[2..] == rest;
    assert Be16(b, 0) == Be16(Enc16(n), 0);
  }

  /** The checksum field contributes its own value to the sum. */
  lemma TcpSum(ep: Endpoint, s: u32, ack: u32, flags: byte, window: u16, checksum: u16, payload: seq<byte>)
    ensures Sum16(TcpBytes(ep, s, ack, flags, window, checksum, payload))
         == Sum16(TcpStart(ep, s, ack, flags, window)) + checksum + Sum16([0, 0] + payload)
  {
    hide Sum16, TcpStart;
    Sum16Concat(TcpStart(ep, s, ack, flags, window), Enc16(checksum) + ([0, 0] + payload));
    Sum16Word(checksum, [0, 0] + payload);
  }

  lemma Ipv4Sum(ep: Endpoint, tcpLen: nat, ipId: u16, checksum: u16)
    ensures Sum16(Ipv4Header(ep, tcpLen, ipId, checksum)) == Sum16(Ipv4Header(ep, tcpLen, ipId, 0)) + checksum
  {
    hide Sum16, Enc16;
    var head := [0x45, 0] + Enc16((20 + tcpLen) % 0x1_0000) + Enc16(ipId) + Enc16(0x4000) + [64, IPPROTO_TCP];
    var addrs := ep.srcIp.octets + ep.dstIp.octets;
    Sum16Concat(head, Enc16(checksum) + addrs);
    Sum16Concat(head, Enc16(0) + addrs);
    Sum16Word(checksum, addrs);
    Sum16Word(0, addrs);
  }

  // ----- the round trip ---------------------------------------------------------------------

  /** The 16-bit length field of the IP header can hold the packet. */
  predicate LengthFits(ep: Endpoint, payload: seq<byte>) {
    |payload| + (if ep.srcIp.V4? then 40 else 20) < 0x1_0000
  }

  function Expected(ep: Endpoint, s: u32, ack: u32, flags: byte, payload: seq<byte>): TcpSegment {
    TcpSegment(ep.ethDst, ep.ethSrc, ep.srcIp, ep.dstIp, ep.srcPort, ep.dstPort, s, ack, flags, payload)
  }

  lemma Word16At(a: seq<byte>, n: u16, b: seq<byte>)
    ensures Be16(a + (Enc16(n) + b), |a|) == n
  {
    var e := Enc16(n);
    var all := a + (e + b);
    assert all[|a|] == e[0] && all[|a| + 1] == e[1];
    assert Be16(all, |a|) == Be16(e, 0);
  }

  lemma Word32At(a: seq<byte>, n: u32, b: seq<byte>)
    ensures Be32(a + (Enc32(n) + b), |a|) == n
  {
    var e := Enc32(n);
    var all := a + (e + b);
    assert all[|a|] == e[0] && all[|a| + 1] == e[1] && all[|a| + 2] == e[2] && all[|a| + 3] == e[3];
    assert Be32(all, |a|) == Be32(e, 0);
  }

  /** The fields of a synthesized TCP header, read back with anything behind it. */
  lemma TcpFields(ep: Endpoint, s: u32, ack: u32, flags: byte, window: u16, checksum: u16, payload: seq<byte>, pad: seq<byte>)
    ensures var t := TcpBytes(ep, s, ack, flags, window, checksum, payload) + pad;
            && Be16(t, 0) == ep.srcPort && Be16(t, 2) == ep.dstPort && Be32(t, 4) == s && Be32(t, 8) == ack
            && t[12] == 0x50 && t[13] == flags && t[20..] == payload + pad
  {
    hide Be16, Be32, Enc16, Enc32;
    var sp, dp, sq, ak := Enc16(ep.srcPort), Enc16(ep.dstPort), Enc32(s), Enc32(ack);
    var tail := Enc16(window) + (Enc16(checksum) + ([0, 0] + payload)) + pad;
    var t := TcpBytes(ep, s, ack, flags, window, checksum, payload) + pad;
    assert t == [] + (sp + (dp + sq + ak + [0x50, flags] + tail));
    Word16At([], ep.srcPort, dp + sq + ak + [0x50, flags] + tail);
    assert t == sp + (dp + (sq + ak + [0x50, flags] + tail));
    Word16At(sp, ep.dstPort, sq + ak + [0x50, flags] + tail);
    assert t == sp + dp + (sq + (ak + [0x50, flags] + tail));
    Word32At(sp + dp, s, ak + [0x50, flags] + tail);
    assert t == sp + dp + sq + (ak + ([0x50, flags] + tail));
    Word32At(sp + dp + sq, ack, [0x50, flags] + tail);
    assert t == sp + dp + sq + ak + ([0x50, flags] + tail);
  }

  /** Reading TCP back: the payload is what the promised length covers. */
  lemma TcpReadBack(ep: Endpoint, s: u32, ack: u32, flags: byte, window: u16, checksum: u16, payload: seq<byte>, pad: seq<byte>, len: nat)
    ensures var l := L4(ep.srcIp, ep.dstIp, TcpBytes(ep, s, ack, flags, window, checksum, payload) + pad, len);
            var end := (if len < 20 + |payload + pad| then len else 20 + |payload + pad|) - 20;
            ParseTcp(ep.ethDst, ep.ethSrc, l) == if len < 20 then None else Some(Expected(ep, s, ack, flags, (payload + pad)[..end]))
  {
    TcpFields(ep, s, ack, flags, window, checksum, payload, pad);
    hide TcpBytes, Be16, Be32;
    var t := TcpBytes(ep, s, ack, flags, window, checksum, payload) + pad;
    if len >= 20 {
      var end := if len < |t| then len else |t|;
      assert t[20..end] == t[20..][..end - 20];
    }
  }

  /** What the IPv4 parser makes of a synthesized header. */
  lemma Ipv4ReadBack(ep: Endpoint, tcpLen: nat, ipId: u16, checksum: u16, data: seq<byte>)
    requires ep.Valid() && ep.srcIp.V4? && ep.dstIp.V4?
    ensures ParseIpv4(Ipv4Header(ep, tcpLen, ipId, checksum) + data)
         == if (20 + tcpLen) % 0x1_0000 < 20 then None
            else Some(L4(ep.srcIp, ep.dstIp, data, (20 + tcpLen) % 0x1_0000 - 20))
  {
    var total := (20 + tcpLen) % 0x1_0000;
    var ip := Ipv4Header(ep, tcpLen, ipId, checksum) + data;
    var df, l, id := Enc16(0x4000), Enc16(total), Enc16(ipId);
    var addrs := ep.srcIp.octets + ep.dstIp.octets;
    assert ip == [0x45, 0] + (l + (id + df + [64, IPPROTO_TCP] + (Enc16(checksum) + addrs) + data));
    Word16At([0x45, 0], total, id + df + [64, IPPROTO_TCP] + (Enc16(checksum) + addrs) + data);
    assert ip == ([0x45, 0] + l + id) + (df + ([64, IPPROTO_TCP] + (Enc16(checksum) + addrs) + data));
    Word16At([0x45, 0] + l + id, 0x4000, [64, IPPROTO_TCP] + (Enc16(checksum) + addrs) + data);
    assert ip[9] == IPPROTO_TCP && ip[0] == 0x45;
    assert ip[12..16] == ep.srcIp.octets && ip[16..20] == ep.dstIp.octets;
    assert ip[20..] == data;
  }

  lemma Ipv6ReadBack(ep: Endpoint, tcpLen: nat, data: seq<byte>)
    requires ep.Valid() && ep.srcIp.V6? && ep.dstIp.V6?
    ensures ParseIpv6(Ipv6Header(ep, tcpLen) + data) == Some(L4(ep.srcIp, ep.dstIp, data, tcpLen % 0x1_0000))
  {
    var ip := Ipv6Header(ep, tcpLen) + data;
    var addrs := ep.srcIp.octets + ep.dstIp.octets;
    assert ip == [0x60, 0, 0, 0] + (Enc16(tcpLen % 0x1_0000) + ([IPPROTO_TCP, 64] + addrs + data));
    Word16At([0x60, 0, 0, 0], tcpLen % 0x1_0000, [IPPROTO_TCP, 64] + addrs + data);
    assert ip[6] == IPPROTO_TCP && ip[0] == 0x60;
    assert ip[8..24] == ep.srcIp.octets && ip[24..40] == ep.dstIp.octets;
    assert ip[40..] == data;
  }

  lemma EthernetReadBack(ep: Endpoint, ethertype: u16, ip: seq<byte>)
    requires ep.Valid() && (ethertype == ETHERTYPE_IPV4 || ethertype == ETHERTYPE_IPV6)
    ensures var frame := ep.ethDst + ep.ethSrc + Enc16(ethertype) + ip;
            ParseEthernet(frame) ==
              match (if ethertype == ETHERTYPE_IPV4 then ParseIpv4(ip) else ParseIpv6(ip))
              case None => None
              case Some(l4) => ParseTcp(ep.ethDst, ep.ethSrc, l4)
  {
    hide ParseIpv4, ParseIpv6, ParseTcp, Be16, Enc16;
    var frame := ep.ethDst + ep.ethSrc + Enc16(ethertype) + ip;
    assert frame == (ep.ethDst + ep.ethSrc) + (Enc16(ethertype) + ip);
    Word16At(ep.ethDst + ep.ethSrc, ethertype, ip);
    assert frame[0..6] == ep.ethDst && frame[6..12] == ep.ethSrc && frame[14..] == ip;
  }

  /** Packets round-trip: parsing a synthesized frame, with any padding behind it, returns the
      same addresses, ports, numbers, flags and payload if and only if the packet's length
      fits the 16-bit field of its IP header. */
  lemma PacketRoundTrip(ep: Endpoint, s: u32, ack: u32, flags: byte, window: u16, ipId: u16, payload: seq<byte>, pad: seq<byte>)
    requires ep.Valid() && ep.SameFamily()
    ensures ParseEthernet(BuildTcpPacket(ep, s, ack, flags, window, ipId, payload) + pad) == Some(Expected(ep, s, ack, flags, payload))
       <==> LengthFits(ep, payload)
  {
    hide TcpBytes, TcpChecksum, ParseEthernet, ParseIpv4, ParseIpv6, ParseTcp, Ipv4Header, Ipv6Header, Ipv4Checksum, Enc16;
    var ck := TcpChecksum(ep, s, ack, flags, window, payload);
    var tcp := TcpBytes(ep, s, ack, flags, window, ck, payload);
    var n := |tcp|;
    var ethertype := if ep.srcIp.V4? then ETHERTYPE_IPV4 else ETHERTYPE_IPV6;
    var head := IpHeader(ep, n, ipId);
    assert BuildTcpPacket(ep, s, ack, flags, window, ipId, payload) + pad
        == ep.ethDst + ep.ethSrc + Enc16(ethertype) + (head + (tcp + pad));
    EthernetReadBack(ep, ethertype, head + (tcp + pad));
    var len := if ep.srcIp.V4? then (20 + n) % 0x1_0000 - 20 else n % 0x1_0000;
    if ep.srcIp.V4? {
      Ipv4ReadBack(ep, n, ipId, Ipv4Checksum(ep, n, ipId), tcp + pad);
    } else {
      Ipv6ReadBack(ep, n, tcp + pad);
    }
    if len >= 0 {
      TcpReadBack(ep, s, ack, flags, window, ck, payload, pad, len);
      if LengthFits(ep, payload) {
        assert (payload + pad)[..|payload|] == payload;
      } else {
        assert len < n;
      }
    }
  }
}
