/** A conforming RFC 7541 decoder with the full dynamic table, and the link between
    its steps and those of the tolerant decoder. */
module HpackReference {
  import opened Basics
  import opened HpackInt
  import opened HpackTable
  import opened HpackSpec

  // ----- the reference decoder ---------------------------------------------

  datatype Mode = Indexing | Plain | Never

  /** The representations of RFC 7541 section 6, read without looking at any table. */
  datatype Rep =
    | Indexed(idx: nat)
    | Literal(mode: Mode, nameIdx: nat, name: seq<byte>, value: seq<byte>)
    | SizeUpdate(n: nat)

  function ReadRep(cb: Codebook, b: seq<byte>): (r: Result<(Rep, seq<byte>)>)
    requires b != []
    ensures r.Ok? ==> |r.value.1| < |b|
  {
    if b[0] >= 0x80 then
      match ReadInt(b, 7)
      case Err(e) => Err(e)
      case Ok((idx, rest)) => Ok((Indexed(idx), rest))
    else if 0x20 <= b[0] < 0x40 then
      match ReadInt(b, 5)
      case Err(e) => Err(e)
      case Ok((n, rest)) => Ok((SizeUpdate(n), rest))
    else
      match ReadInt(b, if b[0] >= 0x40 then 6 else 4)
      case Err(e) => Err(e)
      case Ok((idx, rest)) =>
        match (if idx == 0 then ReadString(cb, rest) else Ok(([], rest)))
        case Err(e) => Err(e)
        case Ok((name, rest')) =>
          match ReadString(cb, rest')
          case Err(e) => Err(e)
          case Ok((value, rest'')) =>
            var mode := if b[0] >= 0x40 then Indexing else if b[0] >= 0x10 then Never else Plain;
            Ok((Literal(mode, idx, name, value), rest''))
  }

  /** The peer's full table and its real capacity. */
  datatype Peer = Peer(table: seq<Field>, maxSize: nat) {
    /** A real table: within its capacity, and of real fields. */
    predicate Valid() {
      Total(table) <= maxSize && forall f :: f in table ==> !f.unknown && !f.sensitive
    }

    function Insert(f: Field): Peer {
      this.(table := Fit([f] + table, maxSize))
    }

    function Resize(n: nat): Peer {
      Peer(Fit(table, n), n)
    }

    /** The index space of section 2.3.3. */
    function Lookup(cb: Codebook, idx: nat): Option<Field> {
      if 1 <= idx <= STATIC_LEN then Some(Field(cb.fixed[idx - 1].0, cb.fixed[idx - 1].1, false, false))
      else if STATIC_LEN < idx <= STATIC_LEN + |table| then Some(table[idx - STATIC_LEN - 1])
      else None
    }

    /** The effect of one representation; `None` is a decoding error. */
    function Apply(cb: Codebook, rep: Rep): Option<(Peer, seq<Field>)> {
      match rep
      case Indexed(idx) =>
        (match Lookup(cb, idx)
         case None => None
         case Some(f) => Some((this, [f])))
      case Literal(mode, idx, name, value) =>
        (match (if idx == 0 then Some(Field(name, [], false, false)) else Lookup(cb, idx))
         case None => None
         case Some(e) =>
           var f := Field(e.name, value, mode == Never, false);
           Some((if mode == Indexing then Insert(f) else this, [f])))
      case SizeUpdate(n) => Some((Resize(n), []))
    }

    function Decode(cb: Codebook, b: seq<byte>): Option<(Peer, seq<Field>)>
      decreases |b|
    {
      if b == [] then Some((this, []))
      else match ReadRep(cb, b)
        case Err(_) => None
        case Ok((rep, rest)) =>
          match Apply(cb, rep)
          case None => None
          case Some((p, fs)) =>
            match p.Decode(cb, rest)
            case None => None
            case Some((p', fs')) => Some((p', fs + fs'))
    }
  }

  // ----- our decoder, one representation at a time ----------------------------

  function ApplyOurs(cb: Codebook, d: DecState, rep: Rep): (DecState, Result<seq<Field>>) {
    match rep
    case Indexed(idx) =>
      if idx == 0 then (d, Err(ZeroIndex))
      else
        var (d', r) := d.Resolve(cb, idx);
        (d', if r.Ok? then Ok([r.value]) else Err(r.error))
    case Literal(mode, idx, name, value) =>
      var (d', r) := if idx == 0 then (d, Ok(Field(name, [], false, false))) else d.Resolve(cb, idx);
      (match r
       case Err(e) => (d', Err(e))
       case Ok(e) =>
         var f := Field(e.name, value, mode == Never, e.unknown);
         (if mode == Indexing then d'.Insert(f) else d', Ok([f])))
    case SizeUpdate(n) => (d.Resize(n), Ok([]))
  }

  /** The byte-level step is the table-free reading followed by its effect. */
  lemma StepIsReadThenApply(cb: Codebook, d: DecState, b: seq<byte>)
    requires b != [] && ReadRep(cb, b).Ok?
    ensures var (rep, rest) := ReadRep(cb, b).value;
            var (d', r) := ApplyOurs(cb, d, rep);
            DecodeStep(cb, d, b) == (d', if r.Ok? then Ok((r.value, rest)) else Err(r.error))
  {
  }

  /** What `finish_block` leaves behind: after an error the table is forgotten. */
  function AfterBlock(cb: Codebook, d: DecState, b: seq<byte>): DecState {
    var (d', r) := Decode(cb, d, b);
    if r.Ok? then d' else d'.ResetPartial()
  }

  // ----- two decoders side by side -------------------------------------------

  /** One event in the life of a direction, as seen by our decoder and by the peer. */
  datatype Event =
    | Block(bytes: seq<byte>)                                // a header block both process
    | Missed(after: Peer)                                    // blocks we lost: the peer moved on, we reset
    | Capacity(ours: Option<nat>, peers: Option<nat>)        // SETTINGS, applied by either or both
    | TrackLimit(n: nat)                                     // our memory cap

  datatype World = World(ours: DecState, peer: Peer)

  /** `None` when the peer rejects the block: the connection is over. */
  function Next(cb: Codebook, w: World, e: Event): Option<World> {
    match e
    case Block(b) =>
      (match w.peer.Decode(cb, b)
       case None => None
       case Some((p, _)) => Some(World(AfterBlock(cb, w.ours, b), p)))
    case Missed(p) => Some(World(w.ours.ResetPartial(), p))
    case Capacity(o, q) =>
      Some(World(if o.Some? then w.ours.ApplyPeerCapacity(o.value) else w.ours,
                 if q.Some? then w.peer.Resize(q.value) else w.peer))
    case TrackLimit(n) => Some(w.(ours := w.ours.SetTrackLimit(n)))
  }

  function Run(cb: Codebook, w: World, events: seq<Event>): Option<World>
    decreases |events|
  {
    if events == [] then Some(w)
    else match Next(cb, w, events[0])
      case None => None
      case Some(w') => Run(cb, w', events[1..])
  }
}
