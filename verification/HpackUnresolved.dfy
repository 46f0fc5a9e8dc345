/** What the count of unresolved references counts, and what a block without any is worth. */
module HpackUnresolved {
  import opened Basics
  import opened HpackInt
  import opened HpackTable
  import opened HpackSpec
  import opened HpackReference
  import opened HpackNeverWrong

  /** The index the representation at the front refers to; 0 when it refers to none. */
  function FrontIndex(b: seq<byte>): nat
    requires b != []
  {
    if 0x20 <= b[0] < 0x40 then 0
    else match ReadInt(b, if b[0] >= 0x80 then 7 else if b[0] >= 0x40 then 6 else 4)
      case Err(_) => 0
      case Ok((idx, _)) => idx
  }

  function IndexOf(rep: Rep): nat {
    match rep
    case Indexed(idx) => idx
    case Literal(_, idx, _, _) => idx
    case SizeUpdate(_) => 0
  }

  /** The representation at the front refers to an entry our table does not hold. */
  predicate FrontMisses(d: DecState, b: seq<byte>)
    requires b != []
  {
    FrontIndex(b) > STATIC_LEN + |d.table|
  }

  /** How many representations of a block refer to an entry our table does not hold when they
      are read. With the table fully known such a one is refused, and the block with it. */
  function Misses(cb: Codebook, d: DecState, b: seq<byte>): nat
    decreases |b|
  {
    if b == [] || (FrontMisses(d, b) && d.IsExact()) then 0
    else
      (if FrontMisses(d, b) then 1 else 0)
      + match DecodeStep(cb, d, b)
        case (_, Err(_)) => 0
        case (d', Ok((_, rest))) => Misses(cb, d', rest)
  }

  lemma FrontIndexIsTheReps(cb: Codebook, b: seq<byte>)
    requires b != [] && ReadRep(cb, b).Ok?
    ensures FrontIndex(b) == IndexOf(ReadRep(cb, b).value.0)
  {
  }

  lemma ResolveCounts(cb: Codebook, d: DecState, idx: nat)
    requires idx > 0
    ensures var (d', r) := d.Resolve(cb, idx);
            var missed := idx > STATIC_LEN + |d.table|;
            && d' == d.(unresolved := d.unresolved + if missed && !d.IsExact() then 1 else 0)
            && (r.Err? <==> missed && d.IsExact())
  {
  }

  lemma TableOpsKeepCount(d: DecState, f: Field, n: nat)
    ensures d.Insert(f).unresolved == d.unresolved && d.Resize(n).unresolved == d.unresolved
  {
  }

  lemma LiteralCounts(cb: Codebook, d: DecState, b: seq<byte>)
    requires b != [] && b[0] < 0x80 && !(0x20 <= b[0] < 0x40)
    ensures var (d', r) := ReadLiteral(cb, d, b, if b[0] >= 0x40 then 6 else 4);
            && d'.unresolved == d.unresolved + (if FrontMisses(d, b) && !d.IsExact() then 1 else 0)
            && (FrontMisses(d, b) && d.IsExact() ==> r.Err?)
  {
    hide DecState.Resolve;
    var i := ReadInt(b, if b[0] >= 0x40 then 6 else 4);
    if i.Ok? && i.value.0 > 0 {
      ResolveCounts(cb, d, i.value.0);
    }
  }

  lemma StepCounts(cb: Codebook, d: DecState, b: seq<byte>)
    requires b != []
    ensures var (d', r) := DecodeStep(cb, d, b);
            && d'.unresolved == d.unresolved + (if FrontMisses(d, b) && !d.IsExact() then 1 else 0)
            && (FrontMisses(d, b) && d.IsExact() ==> r.Err?)
  {
    hide DecState.Resolve, DecState.Insert, DecState.Resize, ReadLiteral;
    if b[0] < 0x80 && !(0x20 <= b[0] < 0x40) {
      LiteralCounts(cb, d, b);
      if b[0] >= 0x40 {
        var (d', r) := ReadLiteral(cb, d, b, 6);
        if r.Ok? { TableOpsKeepCount(d', r.value.0, 0); }
      }
    } else {
      var i := ReadInt(b, if b[0] >= 0x80 then 7 else 5);
      if i.Ok? && b[0] >= 0x80 && i.value.0 > 0 {
        ResolveCounts(cb, d, i.value.0);
      } else if i.Ok? && b[0] < 0x80 {
        TableOpsKeepCount(d, Placeholder(0), i.value.0);
      }
    }
  }

  /** Over every block, accepted or not, the counter grows by exactly the references we could
      not follow. */
  lemma {:induction false} UnresolvedCounts(cb: Codebook, d: DecState, b: seq<byte>)
    ensures Decode(cb, d, b).0.unresolved == d.unresolved + Misses(cb, d, b)
    decreases |b|
  {
    hide DecodeStep, FrontMisses;
    if b != [] {
      StepCounts(cb, d, b);
      var (d', r) := DecodeStep(cb, d, b);
      if r.Ok? { UnresolvedCounts(cb, d', r.value.1); }
    }
  }

  // ----- a block with none ------------------------------------------------------------------

  /** No entry was inserted under a name we did not know. */
  predicate Unflagged(t: seq<Field>) {
    forall f :: f in t ==> !f.unknown
  }

  lemma UnflaggedInsert(d: DecState, f: Field, n: nat)
    requires Unflagged(d.table)
    ensures Unflagged(d.Resize(n).table)
    ensures !f.unknown ==> Unflagged(d.Insert(f).table)
  {
    var t := [f] + d.table;
    assert forall g :: g in Fit(t, d.maxSize) ==> g in t;
    assert forall g :: g in Fit(d.table, n) ==> g in d.table;
    hide Fit, Total;
  }

  lemma KnownStep(cb: Codebook, d: DecState, p: Peer, rep: Rep)
    requires Agree(d.table, p.table) && Unflagged(d.table)
    requires p.Apply(cb, rep).Some? && IndexOf(rep) <= STATIC_LEN + |d.table|
    ensures var (d', r) := ApplyOurs(cb, d, rep);
            r == Ok(p.Apply(cb, rep).value.1) && Unflagged(d'.table)
  {
    hide DecState.Insert, DecState.Resize, Peer.Insert, Peer.Resize;
    match rep
    case Indexed(_) =>
    case SizeUpdate(n) => UnflaggedInsert(d, Placeholder(0), n);
    case Literal(mode, idx, name, value) =>
      assert idx > 0 ==> d.Lookup(cb, idx) == p.Lookup(cb, idx);
      UnflaggedInsert(d, p.Apply(cb, rep).value.1[0], 0);
  }

  /** With tables that agree and nothing flagged in ours, a block that refers to nothing we do
      not hold is shown exactly as the peer meant it, whether or not the table is known to be
      complete, and it leaves nothing flagged. */
  lemma {:induction false} NoMissIsRight(cb: Codebook, d: DecState, p: Peer, b: seq<byte>)
    requires Agree(d.table, p.table) && Unflagged(d.table) && (d.overLimit ==> d.table == [])
    requires p.Decode(cb, b).Some?
    requires Misses(cb, d, b) == 0 && Decode(cb, d, b).1.Ok?
    ensures var (d', r) := Decode(cb, d, b);
            && r == Ok(p.Decode(cb, b).value.1)
            && Unflagged(d'.table) && Agree(d'.table, p.Decode(cb, b).value.0.table)
    decreases |b|
  {
    hide Agree, Unflagged, ApplyOurs, Peer.Apply, ReadRep, DecodeStep;
    if b != [] {
      var (rep, rest) := ReadRep(cb, b).value;
      StepIsReadThenApply(cb, d, b);
      StepCounts(cb, d, b);
      FrontIndexIsTheReps(cb, b);
      NeverWrongStep(cb, d, p, rep);
      KnownStep(cb, d, p, rep);
      NoMissIsRight(cb, ApplyOurs(cb, d, rep).0, p.Apply(cb, rep).value.0, rest);
    }
  }

  // ----- the placeholder ------------------------------------------------------------------------

  /** The number a run of decimal digits stands for. */
  function Reads(digits: seq<byte>): int {
    if digits == [] then 0 else 10 * Reads(digits[..|digits| - 1]) + digits[|digits| - 1] as int - 48
  }

  lemma {:induction false} DecimalReads(n: nat)
    ensures Reads(Decimal(n)) == n
    ensures forall d :: d in Decimal(n) ==> 48 <= d <= 57
  {
    if n >= 10 {
      DecimalReads(n / 10);
      var last: byte := 48 + n % 10;
      assert (Decimal(n / 10) + [last])[..|Decimal(n / 10)|] == Decimal(n / 10);
    } else {
      assert [48 + n][..0] == [];
    }
  }

  /** A placeholder names the index it stands for, in digits that read back as it. */
  lemma PlaceholderNames(idx: nat)
    ensures var f, prefix := Placeholder(idx), Ascii("@unresolved-idx-");
            && f.unknown && f.value == [] && !f.sensitive
            && |f.name| >= |prefix| && f.name[..|prefix|] == prefix && Reads(f.name[|prefix|..]) == idx
  {
    hide Decimal;
    var prefix := Ascii("@unresolved-idx-");
    DecimalReads(idx);
    assert (prefix + Decimal(idx))[|prefix|..] == Decimal(idx);
  }
}
