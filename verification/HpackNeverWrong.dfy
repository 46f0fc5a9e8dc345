/** The tolerant decoder never shows a wrong header, whatever it missed and whatever the
    two capacities are. */
module HpackNeverWrong {
  import opened Basics
  import opened HpackInt
  import opened HpackTable
  import opened HpackSpec
  import opened HpackReference

  /** A field we show is the peer's, or says that it is not known. */
  predicate FieldAgrees(ours: Field, theirs: Field) {
    ours.unknown || ours == theirs
  }

  predicate FieldsAgree(ours: seq<Field>, theirs: seq<Field>) {
    |ours| == |theirs| && forall i :: 0 <= i < |ours| ==> FieldAgrees(ours[i], theirs[i])
  }

  /** The tables agree on every index both hold. */
  predicate Agree(ours: seq<Field>, theirs: seq<Field>) {
    forall i :: 0 <= i < |ours| && i < |theirs| ==> FieldAgrees(ours[i], theirs[i])
  }

  lemma AgreeInsert(d: DecState, p: Peer, f: Field, g: Field)
    requires Agree(d.table, p.table) && FieldAgrees(f, g) && (d.overLimit ==> d.table == [])
    ensures Agree(d.Insert(f).table, p.Insert(g).table)
  {
    assert Agree([f] + d.table, [g] + p.table);
  }

  /** One representation that the peer accepts. */
  lemma NeverWrongStep(cb: Codebook, d: DecState, p: Peer, rep: Rep)
    requires Agree(d.table, p.table) && (d.overLimit ==> d.table == [])
    requires p.Apply(cb, rep).Some?
    ensures var (p', theirs) := p.Apply(cb, rep).value;
            var (d', r) := ApplyOurs(cb, d, rep);
            (d'.overLimit ==> d'.table == []) &&
            (match r
             case Err(e) => e.BadIndex? && d.IsExact()
             case Ok(ours) => FieldsAgree(ours, theirs) && Agree(d'.table, p'.table))
  {
    match rep
    case Indexed(_) =>
    case SizeUpdate(n) =>
    case Literal(mode, idx, name, value) =>
      var theirs := p.Apply(cb, rep).value.1;
      var (d', r) := if idx == 0 then (d, Ok(Field(name, [], false, false))) else d.Resolve(cb, idx);
      if r.Ok? && mode == Indexing {
        AgreeInsert(d', p, Field(r.value.name, value, false, r.value.unknown), theirs[0]);
      }
  }

  /** A whole block the peer accepts: we fail with a bad index, or every field is right or flagged. */
  lemma {:induction false} NeverWrongBlock(cb: Codebook, d: DecState, p: Peer, b: seq<byte>)
    requires Agree(d.table, p.table) && (d.overLimit ==> d.table == [])
    requires p.Decode(cb, b).Some?
    ensures var (p', theirs) := p.Decode(cb, b).value;
            var (d', r) := Decode(cb, d, b);
            (d'.overLimit ==> d'.table == []) &&
            (match r
             case Err(e) => e.BadIndex?
             case Ok(ours) => FieldsAgree(ours, theirs) && Agree(d'.table, p'.table))
    decreases |b|
  {
    hide Agree, FieldAgrees, Peer.Apply, ApplyOurs, ReadRep, DecodeStep;
    if b != [] {
      var (rep, rest) := ReadRep(cb, b).value;
      StepIsReadThenApply(cb, d, b);
      NeverWrongStep(cb, d, p, rep);
      var (d', r) := ApplyOurs(cb, d, rep);
      if r.Ok? {
        NeverWrongBlock(cb, d', p.Apply(cb, rep).value.0, rest);
      }
    }
  }

  predicate Consistent(w: World) {
    Agree(w.ours.table, w.peer.table) && (w.ours.overLimit ==> w.ours.table == [])
  }

  lemma {:induction false} ConsistentAlongRun(cb: Codebook, w: World, events: seq<Event>)
    requires Consistent(w) && Run(cb, w, events).Some?
    ensures Consistent(Run(cb, w, events).value)
    decreases |events|
  {
    hide FieldAgrees, Decode, Peer.Decode;
    if events != [] {
      var w' := Next(cb, w, events[0]).value;
      if events[0].Block? {
        NeverWrongBlock(cb, w.ours, w.peer, events[0].bytes);
      }
      assert Consistent(w');
      ConsistentAlongRun(cb, w', events[1..]);
    }
  }

  /** Our table starts empty (from the first byte or joined midway) or is a snapshot of the peer's. */
  ghost predicate FreshStart(w: World) {
    || w.ours == NewExact()
    || w.ours == NewPartial()
    || exists max: nat :: w.ours == FromEntries(w.peer.table, max)
  }

  /** Over every run of blocks, losses, capacity changes on either side and track limits:
      for each block the peer accepts, we report a bad index or a list of the same length
      in which every field equals the peer's or is flagged unknown. */
  lemma NeverAWrongHeader(cb: Codebook, w: World, events: seq<Event>, block: seq<byte>)
    requires FreshStart(w)
    requires Run(cb, w, events).Some? && Run(cb, w, events).value.peer.Decode(cb, block).Some?
    ensures var w' := Run(cb, w, events).value;
            match Decode(cb, w'.ours, block).1
            case Err(e) => e.BadIndex?
            case Ok(ours) => FieldsAgree(ours, w'.peer.Decode(cb, block).value.1)
  {
    ConsistentAlongRun(cb, w, events);
    var w' := Run(cb, w, events).value;
    NeverWrongBlock(cb, w'.ours, w'.peer, block);
  }
}
