/** The wire forms of RFC 7541 section 6, written by an encoder that is free to choose among
    them and to code any string with Huffman or not, and read back. */
module HpackWire {
  import opened Basics
  import opened HpackInt
  import opened HpackTable
  import HpackSpec
  import opened HpackReference
  import opened HpackNeverWrong
  import opened HpackExact

  // ----- strings ------------------------------------------------------------------

  /** A string literal as the peer chose to send it (section 5.2). */
  datatype Text = Raw(bytes: seq<byte>) | Coded(bytes: seq<byte>)

  function WriteText(t: Text): (b: seq<byte>)
    ensures b != []
  {
    WriteInt(|t.bytes|, 7, if t.Coded? then 0x80 else 0) + t.bytes
  }

  /** What the peer meant by it, or why it cannot be read. */
  function Meaning(cb: Codebook, t: Text): Result<seq<byte>> {
    if |t.bytes| >= Pow2(35) + 127 then Err(IntOverflow)
    else if t.Raw? then Ok(t.bytes)
    else match cb.huffman(t.bytes)
      case None => Err(Huffman)
      case Some(s) => Ok(s)
  }

  /** Raw or Huffman-coded, a string reads as what the peer meant by it. */
  lemma TextRoundTrip(cb: Codebook, t: Text, rest: seq<byte>)
    ensures ReadString(cb, WriteText(t) + rest)
         == match Meaning(cb, t)
            case Err(e) => Err(e)
            case Ok(s) => Ok((s, rest))
  {
    hide Pow2, ReadInt, WriteInt;
    var n, flags := |t.bytes|, if t.Coded? then 0x80 else 0;
    var b := WriteText(t) + rest;
    Pow2Values();
    FirstByte(n, 7, flags, t.bytes + rest);
    Regroup(WriteInt(n, 7, flags), t.bytes, rest);
    IntRoundTrip(n, 7, flags, t.bytes + rest);
    CutAt(t.bytes, rest);
  }

  lemma Regroup(a: seq<byte>, b: seq<byte>, c: seq<byte>)
    ensures a + b + c == a + (b + c)
  {
  }

  lemma CutAt(a: seq<byte>, b: seq<byte>)
    ensures (a + b)[..|a|] == a && (a + b)[|a|..] == b
  {
  }

  /** The flags of an integer survive in its first byte: they tell the representations apart. */
  lemma FirstByte(v: nat, n: nat, flags: byte, rest: seq<byte>)
    requires flags + Pow2(n) <= 256
    ensures var b := WriteInt(v, n, flags) + rest; b != [] && flags <= b[0] < flags + Pow2(n)
  {
  }

  // ----- representations ------------------------------------------------------------

  /** One representation as the peer chose to send it: the name by index, or as a string. */
  datatype Wire =
    | WireIndexed(idx: nat)
    | WireNamed(mode: Mode, nameIdx: nat, value: Text)
    | WireLiteral(mode: Mode, name: Text, value: Text)
    | WireSize(n: nat)
  {
    /** A name index of zero announces a literal name. */
    predicate Valid() {
      WireNamed? ==> nameIdx > 0
    }
  }

  /** Sections 6.2.1 to 6.2.3: `01` and six bits, `0000` and four, `0001` and four. */
  function WriteName(mode: Mode, idx: nat): (b: seq<byte>)
    ensures b != []
  {
    Pow2Values();
    match mode
    case Indexing => WriteInt(idx, 6, 0x40)
    case Plain => WriteInt(idx, 4, 0x00)
    case Never => WriteInt(idx, 4, 0x10)
  }

  function WriteRep(w: Wire): (b: seq<byte>)
    ensures b != []
  {
    Pow2Values();
    match w
    case WireIndexed(idx) => WriteInt(idx, 7, 0x80)
    case WireNamed(mode, idx, value) => WriteName(mode, idx) + WriteText(value)
    case WireLiteral(mode, name, value) => WriteName(mode, 0) + WriteText(name) + WriteText(value)
    case WireSize(n) => WriteInt(n, 5, 0x20)
  }

  /** The largest integer the decoder takes with an `n`-bit prefix, and one more. */
  function IntBound(n: nat): nat {
    Pow2(35) + Pow2(n) - 1
  }

  function NameBits(mode: Mode): nat {
    if mode == Indexing then 6 else 4
  }

  /** What the peer meant, or the first reason why it cannot be read. */
  function Denotes(cb: Codebook, w: Wire): Result<Rep> {
    match w
    case WireIndexed(idx) => if idx < IntBound(7) then Ok(Indexed(idx)) else Err(IntOverflow)
    case WireSize(n) => if n < IntBound(5) then Ok(SizeUpdate(n)) else Err(IntOverflow)
    case WireNamed(mode, idx, value) =>
      if idx >= IntBound(NameBits(mode)) then Err(IntOverflow)
      else (match Meaning(cb, value)
        case Err(e) => Err(e)
        case Ok(v) => Ok(Literal(mode, idx, [], v)))
    case WireLiteral(mode, name, value) =>
      match Meaning(cb, name)
      case Err(e) => Err(e)
      case Ok(s) =>
        match Meaning(cb, value)
        case Err(e) => Err(e)
        case Ok(v) => Ok(Literal(mode, 0, s, v))
  }

  /** The index that starts a literal tells its mode by its first byte and reads back. */
  lemma NameReads(mode: Mode, idx: nat, rest: seq<byte>)
    ensures var b := WriteName(mode, idx) + rest;
            && b[0] < 0x80 && !(0x20 <= b[0] < 0x40)
            && (b[0] >= 0x40 <==> mode == Indexing) && (0x10 <= b[0] < 0x40 <==> mode == Never)
            && ReadInt(b, NameBits(mode)) == if idx < IntBound(NameBits(mode)) then Ok((idx, rest)) else Err(IntOverflow)
  {
    hide Pow2, ReadInt, WriteInt;
    Pow2Values();
    var n, flags := NameBits(mode), if mode == Indexing then 0x40 else if mode == Never then 0x10 else 0;
    FirstByte(idx, n, flags, rest);
    IntRoundTrip(idx, n, flags, rest);
  }

  /** Every representation reads back as what the peer meant by it, and an unreadable one is
      refused with its own error: the prefix widths and flags of section 6 are the code's. */
  lemma RepRoundTrip(cb: Codebook, w: Wire, rest: seq<byte>)
    requires w.Valid()
    ensures ReadRep(cb, WriteRep(w) + rest)
         == match Denotes(cb, w)
            case Err(e) => Err(e)
            case Ok(rep) => Ok((rep, rest))
  {
    hide Pow2, ReadInt, WriteInt, ReadString, WriteText, WriteName, Meaning;
    Pow2Values();
    match w
    case WireIndexed(idx) =>
      FirstByte(idx, 7, 0x80, rest);
      IntRoundTrip(idx, 7, 0x80, rest);
    case WireSize(n) =>
      FirstByte(n, 5, 0x20, rest);
      IntRoundTrip(n, 5, 0x20, rest);
    case WireNamed(mode, idx, value) =>
      Regroup(WriteName(mode, idx), WriteText(value), rest);
      NameReads(mode, idx, WriteText(value) + rest);
      TextRoundTrip(cb, value, rest);
    case WireLiteral(mode, name, value) =>
      Regroup(WriteName(mode, 0) + WriteText(name), WriteText(value), rest);
      Regroup(WriteName(mode, 0), WriteText(name), WriteText(value) + rest);
      NameReads(mode, 0, WriteText(name) + (WriteText(value) + rest));
      ZeroFits(NameBits(mode));
      TextRoundTrip(cb, name, WriteText(value) + rest);
      TextRoundTrip(cb, value, rest);
  }

  lemma ZeroFits(n: nat)
    ensures 0 < IntBound(n)
  {
  }

  // ----- whole blocks -----------------------------------------------------------------

  function WriteBlock(ws: seq<Wire>): seq<byte> {
    if ws == [] then [] else WriteRep(ws[0]) + WriteBlock(ws[1..])
  }

  predicate InRange(w: Wire) {
    match w
    case WireIndexed(idx) => idx < IntBound(7)
    case WireNamed(mode, idx, _) => idx < IntBound(NameBits(mode))
    case WireLiteral(_, _, _) => true
    case WireSize(n) => n < IntBound(5)
  }

  /** `w` is a way of sending the field `f` to a decoder whose table is `p`'s. */
  predicate Sends(cb: Codebook, p: Peer, w: Wire, f: Field) {
    && InRange(w)
    && match w
       case WireIndexed(idx) => p.Lookup(cb, idx) == Some(f)
       case WireNamed(mode, idx, value) =>
         && p.Lookup(cb, idx).Some? && p.Lookup(cb, idx).value.name == f.name
         && Meaning(cb, value) == Ok(f.value) && f.sensitive == (mode == Never) && !f.unknown
       case WireLiteral(mode, name, value) =>
         && Meaning(cb, name) == Ok(f.name)
         && Meaning(cb, value) == Ok(f.value) && f.sensitive == (mode == Never) && !f.unknown
       case WireSize(_) => false
  }

  /** The encoder's own table after sending `f` as `w`: only the indexing forms are kept. */
  function AfterSending(p: Peer, w: Wire, f: Field): Peer {
    if (w.WireNamed? || w.WireLiteral?) && w.mode == Indexing then p.Insert(f) else p
  }

  /** `ws` sends the fields `fs`, in order, with size updates anywhere between them, and takes
      the encoder's table from `p` to `q`. */
  predicate Encodes(cb: Codebook, p: Peer, ws: seq<Wire>, fs: seq<Field>, q: Peer)
    decreases |ws|
  {
    if ws == [] then fs == [] && q == p
    else if ws[0].WireSize? then InRange(ws[0]) && Encodes(cb, p.Resize(ws[0].n), ws[1..], fs, q)
    else fs != [] && Sends(cb, p, ws[0], fs[0]) && Encodes(cb, AfterSending(p, ws[0], fs[0]), ws[1..], fs[1..], q)
  }

  /** One field sent is one representation applied. */
  lemma SentIsApplied(cb: Codebook, p: Peer, w: Wire, f: Field)
    requires Sends(cb, p, w, f)
    ensures w.Valid() && Denotes(cb, w).Ok?
    ensures p.Apply(cb, Denotes(cb, w).value) == Some((AfterSending(p, w, f), [f]))
  {
    hide Meaning, Peer.Insert, IntBound;
    ZeroFits(4);
    ZeroFits(6);
  }

  lemma SizeIsApplied(cb: Codebook, p: Peer, w: Wire)
    requires w.WireSize? && InRange(w)
    ensures w.Valid() && Denotes(cb, w).Ok?
    ensures p.Apply(cb, Denotes(cb, w).value) == Some((p.Resize(w.n), []))
  {
  }

  lemma DecodeNothing(cb: Codebook, p: Peer)
    ensures p.Decode(cb, []) == Some((p, []))
  {
  }

  lemma DecodeFirst(cb: Codebook, p: Peer, w: Wire, rest: seq<byte>)
    requires w.Valid() && Denotes(cb, w).Ok? && p.Apply(cb, Denotes(cb, w).value).Some?
    ensures var (p', fs) := p.Apply(cb, Denotes(cb, w).value).value;
            p.Decode(cb, WriteRep(w) + rest) == match p'.Decode(cb, rest)
              case None => None
              case Some((p'', fs')) => Some((p'', fs + fs'))
  {
    hide ReadRep, WriteRep, Denotes, Peer.Apply;
    RepRoundTrip(cb, w, rest);
  }

  /** The reference decoder undoes every encoder, whatever forms and codings it chose, and ends
      with the encoder's table. */
  lemma {:induction false} ReferenceReadsAnyEncoder(cb: Codebook, p: Peer, ws: seq<Wire>, fs: seq<Field>, q: Peer)
    requires Encodes(cb, p, ws, fs, q)
    ensures p.Decode(cb, WriteBlock(ws)) == Some((q, fs))
    decreases |ws|
  {
    hide WriteRep, Denotes, Sends, AfterSending, Peer.Apply, Peer.Decode, IntBound;
    if ws == [] {
      DecodeNothing(cb, p);
    } else if ws[0].WireSize? {
      SizeIsApplied(cb, p, ws[0]);
      DecodeFirst(cb, p, ws[0], WriteBlock(ws[1..]));
      ReferenceReadsAnyEncoder(cb, p.Resize(ws[0].n), ws[1..], fs, q);
      assert [] + fs == fs;
    } else {
      SentIsApplied(cb, p, ws[0], fs[0]);
      DecodeFirst(cb, p, ws[0], WriteBlock(ws[1..]));
      ReferenceReadsAnyEncoder(cb, AfterSending(p, ws[0], fs[0]), ws[1..], fs[1..], q);
      assert [fs[0]] + fs[1..] == fs;
    }
  }

  /** Our decoder on the same block: once exact it yields the encoder's fields, unless the block
      negotiates a table beyond our memory cap. */
  lemma ExactReadsAnyEncoder(cb: Codebook, d: HpackSpec.DecState, p: Peer, ws: seq<Wire>, fs: seq<Field>, q: Peer, tight: bool)
    requires Encodes(cb, p, ws, fs, q) && Coupled(d, p, tight) && d.IsExact()
    ensures var (d', r) := HpackSpec.Decode(cb, d, WriteBlock(ws));
            d'.overLimit || (r == Ok(fs) && d'.IsExact() && Coupled(d', q, tight))
  {
    hide Peer.Decode, HpackSpec.Decode, Coupled, Encodes, WriteBlock;
    ReferenceReadsAnyEncoder(cb, p, ws, fs, q);
    ExactBlock(cb, d, p, WriteBlock(ws), tight);
  }

  /** Short of that, with tables that agree, every field is the encoder's or flagged, or the
      block is refused with a bad index. */
  lemma AgreeingReadsAnyEncoder(cb: Codebook, d: HpackSpec.DecState, p: Peer, ws: seq<Wire>, fs: seq<Field>, q: Peer)
    requires Encodes(cb, p, ws, fs, q) && Agree(d.table, p.table) && (d.overLimit ==> d.table == [])
    ensures var (d', r) := HpackSpec.Decode(cb, d, WriteBlock(ws));
            if r.Err? then r.error.BadIndex? else FieldsAgree(r.value, fs) && Agree(d'.table, q.table)
  {
    ReferenceReadsAnyEncoder(cb, p, ws, fs, q);
    NeverWrongBlock(cb, d, p, WriteBlock(ws));
  }

  // ----- the index space -----------------------------------------------------------------

  /** Section 2.3.3 of RFC 7541: the static table, then the dynamic one, newest entry first. */
  function IndexSpace(cb: Codebook, table: seq<Field>): (r: seq<Field>)
    ensures |r| == STATIC_LEN + |table|
  {
    seq(STATIC_LEN, i requires 0 <= i < STATIC_LEN => Field(cb.fixed[i].0, cb.fixed[i].1, false, false)) + table
  }

  /** Both decoders look an index up there, counting from one. */
  lemma LookupsAre(cb: Codebook, d: HpackSpec.DecState, p: Peer, idx: nat)
    ensures p.Lookup(cb, idx) == if 1 <= idx <= STATIC_LEN + |p.table| then Some(IndexSpace(cb, p.table)[idx - 1]) else None
    ensures d.Lookup(cb, idx) == if 1 <= idx <= STATIC_LEN + |d.table| then Some(IndexSpace(cb, d.table)[idx - 1]) else None
  {
  }

  /** An entry that fits takes the lowest dynamic index; every older one still held moves up by
      one, and what is held is as much as fits. */
  lemma InsertShifts(cb: Codebook, p: Peer, f: Field, idx: nat)
    requires FieldSize(f) <= p.maxSize
    ensures var q := p.Insert(f);
            && q.Lookup(cb, STATIC_LEN + 1) == Some(f)
            && (STATIC_LEN < idx && idx + 1 <= STATIC_LEN + |q.table| ==> q.Lookup(cb, idx + 1) == p.Lookup(cb, idx))
            && Total(q.table) <= p.maxSize
            && (Total(p.table) + FieldSize(f) <= p.maxSize ==> |q.table| == |p.table| + 1)
  {
    var all := [f] + p.table;
    assert all[1..] == p.table;
    FitIsLongest(all, p.maxSize, [f]);
    FitIsLongest(all, p.maxSize, all);
    assert [f][1..] == [];
    assert Total([f]) == FieldSize(f);
    TotalAppend([f], p.table);
    hide Fit, Total;
  }
}
