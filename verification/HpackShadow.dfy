/** Exactness with unresolved names in the table: a placeholder is right about its place and
    its value but not about its name, nor its size. As long as it is no longer than the name it
    stands for, being exact still means holding an entry for every one of the peer's. */
module HpackShadow {
  import opened Basics
  import opened HpackInt
  import opened HpackTable
  import opened HpackSpec
  import opened HpackReference
  import opened HpackNeverWrong
  import opened HpackExact

  /** Our entry stands for theirs: equal, or flagged, with the same value and a name no longer. */
  predicate Shadows(ours: Field, theirs: Field) {
    ours.value == theirs.value && |ours.name| <= |theirs.name| && FieldAgrees(ours, theirs)
  }

  predicate AllShadow(ours: seq<Field>, theirs: seq<Field>) {
    forall i :: 0 <= i < |ours| && i < |theirs| ==> Shadows(ours[i], theirs[i])
  }

  /** The coupling of the two tables, by length and up to flagged entries. */
  predicate Shadowed(d: DecState, p: Peer) {
    && p.Valid() && AllShadow(d.table, p.table)
    && (d.overLimit ==> d.table == [])
    && (d.capacityObserved ==> d.maxSize == p.maxSize)
    && (d.IsExact() ==> d.capacityObserved && |p.table| <= |d.table|)
  }

  // ----- what fits ----------------------------------------------------------------------------

  lemma {:induction false} PrefixTotals(ours: seq<Field>, theirs: seq<Field>, n: nat)
    requires AllShadow(ours, theirs) && n <= |ours| && n <= |theirs|
    ensures Total(ours[..n]) <= Total(theirs[..n])
  {
    if n > 0 {
      assert AllShadow(ours[1..], theirs[1..]) by {
        assert forall i :: 0 <= i < |ours| - 1 ==> ours[1..][i] == ours[i + 1];
        assert forall i :: 0 <= i < |theirs| - 1 ==> theirs[1..][i] == theirs[i + 1];
      }
      PrefixTotals(ours[1..], theirs[1..], n - 1);
      assert ours[..n][1..] == ours[1..][..n - 1] && theirs[..n][1..] == theirs[1..][..n - 1];
      assert Shadows(ours[0], theirs[0]);
    }
  }

  lemma TotalOneMore(t: seq<Field>, n: nat)
    requires n < |t|
    ensures Total(t[..n + 1]) >= Total(t[..n]) + MIN_ENTRY_SIZE
  {
    assert t[..n] <= t[..n + 1];
    TotalPrefix(t[..n], t[..n + 1]);
  }

  /** We keep at least as many entries as the peer if we had as many, or dropped one of ours,
      or have no room left for even an empty one. */
  lemma KeepsAsMany(ours: seq<Field>, theirs: seq<Field>, max: nat)
    requires AllShadow(ours, theirs)
    ensures var kept, peers := Fit(ours, max), Fit(theirs, max);
            |theirs| <= |ours| || Total(ours) > max || Total(kept) + MIN_ENTRY_SIZE > max ==> |peers| <= |kept|
  {
    hide Fit, Total, AllShadow;
    var n := |Fit(ours, max)|;
    FitByLength(ours, max, n);
    if n < |Fit(theirs, max)| {
      FitByLength(theirs, max, n + 1);
      PrefixTotals(ours, theirs, n);
      TotalOneMore(theirs, n);
      if n < |ours| {
        PrefixTotals(ours, theirs, n + 1);
        FitByLength(ours, max, n + 1);
      } else {
        assert ours[..n] == ours;
      }
    }
  }

  /** `Fit` by the number of entries it keeps. */
  lemma FitByLength(t: seq<Field>, max: nat, n: nat)
    requires n <= |t|
    ensures |Fit(t, max)| <= |t| && Fit(t, max) == t[..|Fit(t, max)|]
    ensures n <= |Fit(t, max)| <==> Total(t[..n]) <= max
  {
    FitIsLongest(t, max, t[..n]);
  }

  lemma FitShadow(ours: seq<Field>, theirs: seq<Field>, m: int, n: int)
    requires AllShadow(ours, theirs)
    ensures AllShadow(Fit(ours, m), Fit(theirs, n))
  {
  }

  // ----- insertion and resizing -------------------------------------------------------------------

  /** When an insertion makes our copy count as exact, it is right, that is the peer holds no
      more entries than we do, if and only if the peer's entry and as many of its older ones as
      we hold entries exceed its capacity. */
  lemma GainedExactnessIsRight(d: DecState, p: Peer, f: Field, g: Field)
    requires d.capacityObserved && !d.overLimit && d.maxSize == p.maxSize && |d.table| < |p.table|
    ensures var n := |d.Insert(g).table|;
            n <= |p.table| && (|p.Insert(f).table| <= n <==> FieldSize(f) + Total(p.table[..n]) > p.maxSize)
  {
    var n := |d.Insert(g).table|;
    FitIsLongest([g] + d.table, d.maxSize, []);
    var q := [f] + p.table[..n];
    assert q == ([f] + p.table)[..n + 1] && q[1..] == p.table[..n];
    FitIsLongest([f] + p.table, p.maxSize, q);
  }

  /** The same for a size update: it leaves the peer with no more entries than us if and only if as
      many of the peer's entries as we keep, and one more, exceed the new capacity. */
  lemma ResizeGainIsRight(d: DecState, p: Peer, n: nat)
    requires !d.overLimit && n <= d.trackLimit && |d.table| < |p.table|
    ensures var m := |d.Resize(n).table|;
            m < |p.table| && (|p.Resize(n).table| <= m <==> Total(p.table[..m + 1]) > n)
  {
    hide Fit, Total;
    FitByLength(d.table, n, 0);
    assert d.Resize(n).table == Fit(d.table, n);
    FitByLength(p.table, n, |Fit(d.table, n)| + 1);
  }

  lemma InsertShadowed(d: DecState, p: Peer, f: Field, g: Field)
    requires Shadowed(d, p) && Shadows(g, f) && !f.unknown && !f.sensitive
    requires d.capacityObserved || FieldSize(g) <= d.maxSize
    ensures Shadowed(d.Insert(g), p.Insert(f))
    ensures d.IsExact() ==> d.Insert(g).IsExact()
  {
    var ours, theirs := [g] + d.table, [f] + p.table;
    FitIsLongest(theirs, p.maxSize, []);
    assert p.Insert(f).Valid();
    if !d.overLimit {
      assert AllShadow(ours, theirs);
      KeepsAsMany(ours, theirs, d.maxSize);
      FitShadow(ours, theirs, d.maxSize, p.maxSize);
      hide Fit, Total;
    }
  }

  lemma ResizeShadowed(d: DecState, p: Peer, n: nat)
    requires Shadowed(d, p)
    ensures Shadowed(d.Resize(n), p.Resize(n))
    ensures d.IsExact() && !d.Resize(n).overLimit ==> d.Resize(n).IsExact()
  {
    FitIsLongest(p.table, n, []);
    assert p.Resize(n).Valid();
    KeepsAsMany(d.table, p.table, n);
    FitShadow(d.table, p.table, n, n);
    hide Fit, Total;
    var d1 := d.(capacityObserved := true, maxSize := n).Evict();
    var d2 := d1.EnforceLimit();
    assert d.Resize(n) == d2.RecheckExact();
  }

  // ----- one representation, one block ----------------------------------------------------------------

  /** The entry whose name we take: the one found, or the placeholder for one we never saw. */
  function NameTaken(cb: Codebook, d: DecState, idx: nat, name: seq<byte>): Field {
    if idx == 0 then Field(name, [], false, false)
    else if d.Lookup(cb, idx).Some? then d.Lookup(cb, idx).value else Placeholder(idx)
  }

  /** The guards that are left: no oversize entry while the capacity is a guess, and no
      placeholder inserted that is longer than the name it stands for. */
  predicate Named(cb: Codebook, d: DecState, p: Peer, rep: Rep) {
    match rep
    case Literal(mode, idx, name, value) =>
      mode == Indexing ==>
        && (d.capacityObserved || FieldSize(NameTaken(cb, d, idx, name).(value := value)) <= d.maxSize)
        && (idx != 0 && d.Lookup(cb, idx).None? && p.Lookup(cb, idx).Some? ==>
              |Placeholder(idx).name| <= |p.Lookup(cb, idx).value.name|)
    case _ => true
  }

  /** What the peer finds we find, or a placeholder; exact, always an entry. */
  lemma LookupShadows(cb: Codebook, d: DecState, p: Peer, idx: nat)
    requires Shadowed(d, p) && p.Lookup(cb, idx).Some?
    ensures d.Lookup(cb, idx).Some? ==> Shadows(d.Lookup(cb, idx).value, p.Lookup(cb, idx).value)
    ensures d.IsExact() ==> d.Lookup(cb, idx).Some?
    ensures !p.Lookup(cb, idx).value.unknown && !p.Lookup(cb, idx).value.sensitive
  {
    if idx > STATIC_LEN {
      assert p.table[idx - STATIC_LEN - 1] in p.table;
    }
  }

  lemma ShadowedStep(cb: Codebook, d: DecState, p: Peer, rep: Rep)
    requires Shadowed(d, p) && p.Apply(cb, rep).Some? && Named(cb, d, p, rep)
    ensures var (p', theirs) := p.Apply(cb, rep).value;
            var (d', r) := ApplyOurs(cb, d, rep);
            && r.Ok? && FieldsAgree(r.value, theirs) && Shadowed(d', p')
            && (d.IsExact() ==> d'.unresolved == d.unresolved && (d'.overLimit || d'.IsExact()))
  {
    match rep
    case Indexed(idx) =>
      LookupShadows(cb, d, p, idx);
      hide DecState.Lookup, Peer.Lookup;
    case SizeUpdate(n) =>
      ResizeShadowed(d, p, n);
      hide DecState.Resize, Peer.Resize, Shadowed;
    case Literal(mode, idx, name, value) =>
      if idx != 0 { LookupShadows(cb, d, p, idx); }
      LiteralShadowed(cb, d, p, mode, idx, name, value);
  }

  lemma LiteralShadowed(cb: Codebook, d: DecState, p: Peer, mode: Mode, idx: nat, name: seq<byte>, value: seq<byte>)
    requires Shadowed(d, p) && p.Apply(cb, Literal(mode, idx, name, value)).Some?
    requires Named(cb, d, p, Literal(mode, idx, name, value))
    ensures var (p', theirs) := p.Apply(cb, Literal(mode, idx, name, value)).value;
            var (d', r) := ApplyOurs(cb, d, Literal(mode, idx, name, value));
            && r.Ok? && FieldsAgree(r.value, theirs) && Shadowed(d', p')
            && (d.IsExact() ==> d'.unresolved == d.unresolved && (d'.overLimit || d'.IsExact()))
  {
    if idx != 0 { LookupShadows(cb, d, p, idx); }
    hide DecState.Lookup, Peer.Lookup, DecState.Insert, Peer.Insert, Placeholder;
    var theirs := p.Apply(cb, Literal(mode, idx, name, value)).value.1;
    var taken := NameTaken(cb, d, idx, name);
    var (d1, r) := if idx == 0 then (d, Ok(Field(name, [], false, false))) else d.Resolve(cb, idx);
    assert r == Ok(taken);
    assert Shadowed(d1, p);
    if mode == Indexing {
      PlaceholderIsFlagged(idx);
      InsertShadowed(d1, p, theirs[0], Field(taken.name, value, false, taken.unknown));
    }
  }

  lemma PlaceholderIsFlagged(idx: nat)
    ensures Placeholder(idx).unknown
  {
  }

  /** Exact, the guards hold of every representation the peer accepts. */
  lemma ExactIsNamed(cb: Codebook, d: DecState, p: Peer, rep: Rep)
    requires Shadowed(d, p) && d.IsExact() && p.Apply(cb, rep).Some?
    ensures Named(cb, d, p, rep)
  {
  }

  predicate NamedBlock(cb: Codebook, d: DecState, p: Peer, b: seq<byte>)
    requires p.Decode(cb, b).Some?
    decreases |b|
  {
    b == [] ||
    var (rep, rest) := ReadRep(cb, b).value;
    Named(cb, d, p, rep) && NamedBlock(cb, ApplyOurs(cb, d, rep).0, p.Apply(cb, rep).value.0, rest)
  }

  lemma {:induction false} ShadowedBlock(cb: Codebook, d: DecState, p: Peer, b: seq<byte>)
    requires Shadowed(d, p) && p.Decode(cb, b).Some? && NamedBlock(cb, d, p, b)
    ensures Decode(cb, d, b).1.Ok? && FieldsAgree(Decode(cb, d, b).1.value, p.Decode(cb, b).value.1)
    ensures Shadowed(Decode(cb, d, b).0, p.Decode(cb, b).value.0)
    decreases |b|
  {
    hide Shadowed, Named, Peer.Apply, ApplyOurs, ReadRep, DecodeStep;
    if b != [] {
      var (rep, rest) := ReadRep(cb, b).value;
      StepIsReadThenApply(cb, d, b);
      ShadowedStep(cb, d, p, rep);
      ShadowedBlock(cb, ApplyOurs(cb, d, rep).0, p.Apply(cb, rep).value.0, rest);
    }
  }

  /** An exact decoder finds an entry for whatever the peer refers to: no bad index and no new
      placeholder, every field the peer's or flagged, unless the block exceeds our limit. */
  lemma {:induction false} ExactUpToFlags(cb: Codebook, d: DecState, p: Peer, b: seq<byte>)
    requires Shadowed(d, p) && d.IsExact() && p.Decode(cb, b).Some?
    ensures var (p', theirs) := p.Decode(cb, b).value;
            var (d', r) := Decode(cb, d, b);
            || d'.overLimit
            || (r.Ok? && FieldsAgree(r.value, theirs) && d'.unresolved == d.unresolved && d'.IsExact() && Shadowed(d', p'))
    decreases |b|
  {
    hide Shadowed, Named, Peer.Apply, ApplyOurs, ReadRep, DecodeStep;
    if b != [] {
      var (rep, rest) := ReadRep(cb, b).value;
      StepIsReadThenApply(cb, d, b);
      ExactIsNamed(cb, d, p, rep);
      ShadowedStep(cb, d, p, rep);
      var d' := ApplyOurs(cb, d, rep).0;
      if d'.overLimit {
        OverLimitStays(cb, d', rest);
      } else {
        ExactUpToFlags(cb, d', p.Apply(cb, rep).value.0, rest);
      }
    }
  }

  // ----- whole runs ---------------------------------------------------------------------------------

  /** The hypotheses on the environment, event by event: an observed capacity equals the
      peer's afterwards, and no placeholder is inserted that is too long. */
  predicate NamedEvent(cb: Codebook, w: World, e: Event)
    requires Next(cb, w, e).Some?
  {
    var w' := Next(cb, w, e).value;
    && (w'.ours.capacityObserved ==> w'.ours.maxSize == w'.peer.maxSize)
    && (match e
        case Block(b) => NamedBlock(cb, w.ours, w.peer, b)
        case Missed(after) => after.Valid()
        case _ => true)
  }

  predicate NamedRun(cb: Codebook, w: World, events: seq<Event>)
    requires Run(cb, w, events).Some?
    decreases |events|
  {
    events == [] || (NamedEvent(cb, w, events[0]) && NamedRun(cb, Next(cb, w, events[0]).value, events[1..]))
  }

  lemma CapacityShadowed(d: DecState, p: Peer, ours: Option<nat>, n: nat)
    requires Shadowed(d, p)
    requires ApplyOptional(d, ours).capacityObserved ==> ApplyOptional(d, ours).maxSize == n
    ensures Shadowed(ApplyOptional(d, ours), p.Resize(n))
  {
    FitIsLongest(p.table, n, []);
    assert p.Resize(n).Valid();
    if ours.Some? && ours.value < d.maxSize {
      ResizeShadowed(d, p, n);
    } else if d.capacityObserved {
      FitAll(p.table, n);
    } else {
      assert AllShadow(d.table, Fit(p.table, n));
    }
  }

  lemma ShadowedNext(cb: Codebook, w: World, e: Event)
    requires Shadowed(w.ours, w.peer) && Next(cb, w, e).Some? && NamedEvent(cb, w, e)
    ensures var w' := Next(cb, w, e).value; Shadowed(w'.ours, w'.peer)
  {
    match e
    case Block(b) =>
      ShadowedBlock(cb, w.ours, w.peer, b);
    case Capacity(o, q) =>
      FitAll(w.peer.table, w.peer.maxSize);
      CapacityShadowed(w.ours, w.peer, o, if q.Some? then q.value else w.peer.maxSize);
    case Missed(_) =>
    case TrackLimit(_) =>
  }

  lemma {:induction false} ShadowedAlongRun(cb: Codebook, w: World, events: seq<Event>)
    requires Shadowed(w.ours, w.peer) && Run(cb, w, events).Some? && NamedRun(cb, w, events)
    ensures var w' := Run(cb, w, events).value; Shadowed(w'.ours, w'.peer)
    decreases |events|
  {
    hide Shadowed, NamedEvent, Next;
    if events != [] {
      ShadowedNext(cb, w, events[0]);
      ShadowedAlongRun(cb, Next(cb, w, events[0]).value, events[1..]);
    }
  }

  lemma StartIsShadowed(w: World)
    requires SoundStart(w)
    ensures Shadowed(w.ours, w.peer)
  {
    forall i | 0 <= i < |w.peer.table| ensures Shadows(w.peer.table[i], w.peer.table[i]) {
    }
  }

  /** Exactness with unresolved names. Over every run in which no placeholder inserted is longer
      than the name it stands for: whenever `is_exact` holds, by any of its routes, we hold an
      entry for every one of the peer's, and every block the peer accepts decodes with no bad
      index and nothing newly unresolved, every field the peer's or flagged. */
  lemma ExactnessUpToFlags(cb: Codebook, w: World, events: seq<Event>, block: seq<byte>)
    requires SoundStart(w) && Run(cb, w, events).Some? && NamedRun(cb, w, events)
    requires Run(cb, w, events).value.ours.IsExact()
    ensures var w' := Run(cb, w, events).value;
            && |w'.peer.table| <= |w'.ours.table| && AllShadow(w'.ours.table, w'.peer.table)
            && (w'.peer.Decode(cb, block).Some? && !Decode(cb, w'.ours, block).0.overLimit ==>
                  var (d', r) := Decode(cb, w'.ours, block);
                  r.Ok? && FieldsAgree(r.value, w'.peer.Decode(cb, block).value.1) && d'.unresolved == w'.ours.unresolved)
  {
    hide Run, NamedRun, Decode, Peer.Decode;
    StartIsShadowed(w);
    ShadowedAlongRun(cb, w, events);
    var w' := Run(cb, w, events).value;
    if w'.peer.Decode(cb, block).Some? { ExactUpToFlags(cb, w'.ours, w'.peer, block); }
  }
}
