/** The tolerant HPACK decoder as a value: its state and the effect of every operation. */
module HpackSpec {
  import opened Basics
  import opened HpackInt
  import opened HpackTable

  // ----- state and table operations ----------------------------------------

  datatype DecState = DecState(
    table: seq<Field>,         // observed entries, newest first
    maxSize: nat,
    exact: bool,
    unresolved: nat,
    capacityObserved: bool,
    trackLimit: nat,
    overLimit: bool)
  {
    predicate IsExact() {
      exact && !overLimit
    }

    function Size(): nat {
      Total(table)
    }

    function ResetPartial(): DecState {
      this.(table := [], exact := false)
    }

    /** Eviction by the declarative rule. Losing an entry of ours proves the older,
        unobserved ones gone, provided the capacity is not a guess. */
    function Evict(): DecState {
      this.(table := Fit(table, maxSize), exact := exact || (capacityObserved && Total(table) > maxSize))
    }

    function EnforceLimit(): DecState {
      if maxSize > trackLimit then this.(overLimit := true, table := []) else this
    }

    function SetTrackLimit(n: nat): DecState {
      this.(trackLimit := n).EnforceLimit()
    }

    function RecheckExact(): DecState {
      if capacityObserved && !overLimit && Size() + MIN_ENTRY_SIZE > maxSize then this.(exact := true) else this
    }

    function Resize(n: nat): DecState {
      this.(capacityObserved := true, maxSize := n).Evict().EnforceLimit().RecheckExact()
    }

    function ApplyPeerCapacity(n: nat): DecState {
      if n < maxSize then Resize(n) else this.(capacityObserved := true)
    }

    function Insert(f: Field): DecState {
      if overLimit then this
      else if FieldSize(f) > maxSize then this.(table := [], exact := true)
      else this.(table := [f] + table).Evict().RecheckExact()
    }

    function Lookup(cb: Codebook, idx: nat): Option<Field> {
      if idx == 0 then None
      else if idx <= STATIC_LEN then Some(Field(cb.fixed[idx - 1].0, cb.fixed[idx - 1].1, false, false))
      else if idx - STATIC_LEN - 1 < |table| then Some(table[idx - STATIC_LEN - 1])
      else None
    }

    /** An index is resolved, refused (only when the table is fully known), or replaced. */
    function Resolve(cb: Codebook, idx: nat): (DecState, Result<Field>) {
      match Lookup(cb, idx)
      case Some(f) => (this, Ok(f))
      case None =>
        if IsExact() then (this, Err(BadIndex(idx)))
        else (this.(unresolved := unresolved + 1), Ok(Placeholder(idx)))
    }
  }

  function NewPartial(): DecState {
    DecState([], DEFAULT_TABLE_SIZE, false, 0, false, USIZE_MAX, false)
  }

  function NewExact(): DecState {
    NewPartial().(exact := true, capacityObserved := true)
  }

  function FromEntries(entries: seq<Field>, maxSize: nat): DecState {
    DecState(entries, maxSize, true, 0, true, USIZE_MAX, false)
  }

  /** A table as a snapshot carries it: names and values only. */
  function SnapshotEntries(t: seq<Field>): (r: seq<Field>)
    ensures |r| == |t|
  {
    seq(|t|, i requires 0 <= i < |t| => Field(t[i].name, t[i].value, false, false))
  }

  function Ascii(s: string): (b: seq<byte>)
    ensures |b| == |s|
  {
    seq(|s|, i requires 0 <= i < |s| => s[i] as int % 256)
  }

  function Decimal(n: nat): (b: seq<byte>)
    ensures b != []
  {
    if n < 10 then [48 + n] else Decimal(n / 10) + [48 + n % 10]
  }

  function Placeholder(idx: nat): Field {
    Field(Ascii("@unresolved-idx-") + Decimal(idx), [], false, true)
  }

  // ----- decoding a block ---------------------------------------------------

  function ReadLiteral(cb: Codebook, d: DecState, b: seq<byte>, prefix: nat): (r: (DecState, Result<(Field, seq<byte>)>))
    ensures r.1.Ok? ==> |r.1.value.1| < |b|
  {
    match ReadInt(b, prefix)
    case Err(e) => (d, Err(e))
    case Ok((idx, rest)) =>
      if idx == 0 then
        match ReadString(cb, rest)
        case Err(e) => (d, Err(e))
        case Ok((name, rest')) => (d, ReadValue(cb, Field(name, [], false, false), rest'))
      else
        var (d', r) := d.Resolve(cb, idx);
        match r
        case Err(e) => (d', Err(e))
        case Ok(f) => (d', ReadValue(cb, Field(f.name, [], false, f.unknown), rest))
  }

  function ReadValue(cb: Codebook, f: Field, b: seq<byte>): (r: Result<(Field, seq<byte>)>)
    ensures r.Ok? ==> |r.value.1| < |b|
  {
    match ReadString(cb, b)
    case Err(e) => Err(e)
    case Ok((value, rest)) => Ok((f.(value := value), rest))
  }

  /** One representation: the fields it emits (none for a size update) and what follows it. */
  function DecodeStep(cb: Codebook, d: DecState, b: seq<byte>): (r: (DecState, Result<(seq<Field>, seq<byte>)>))
    requires b != []
    ensures r.1.Ok? ==> |r.1.value.1| < |b|
  {
    var first := b[0];
    if first >= 0x80 then
      match ReadInt(b, 7)
      case Err(e) => (d, Err(e))
      case Ok((idx, rest)) =>
        if idx == 0 then (d, Err(ZeroIndex))
        else
          var (d', r) := d.Resolve(cb, idx);
          (d', if r.Ok? then Ok(([r.value], rest)) else Err(r.error))
    else if first >= 0x40 then
      var (d', r) := ReadLiteral(cb, d, b, 6);
      match r
      case Err(e) => (d', Err(e))
      case Ok((f, rest)) => (d'.Insert(f), Ok(([f], rest)))
    else if first >= 0x20 then
      match ReadInt(b, 5)
      case Err(e) => (d, Err(e))
      case Ok((n, rest)) => (d.Resize(n), Ok(([], rest)))
    else
      var (d', r) := ReadLiteral(cb, d, b, 4);
      match r
      case Err(e) => (d', Err(e))
      case Ok((f, rest)) => (d', Ok(([if first >= 0x10 then f.(sensitive := true) else f], rest)))
  }

  function Decode(cb: Codebook, d: DecState, b: seq<byte>): (DecState, Result<seq<Field>>)
    decreases |b|
  {
    if b == [] then (d, Ok([]))
    else
      var (d', r) := DecodeStep(cb, d, b);
      match r
      case Err(e) => (d', Err(e))
      case Ok((fs, rest)) =>
        var (d'', r') := Decode(cb, d', rest);
        (d'', if r'.Ok? then Ok(fs + r'.value) else r')
  }
}
