/** When the tolerant decoder calls itself exact, it is. */
module HpackExact {
  import opened Basics
  import opened HpackInt
  import opened HpackTable
  import opened HpackSpec
  import opened HpackReference

  // ----- the coupling of the two tables ----------------------------------------

  /** An observed capacity is the peer's; the tables never contradict each other; an exact
      table holds everything the peer's does. `tight` adds that ours holds nothing more
      than the peer's once the real capacity is applied. */
  predicate Coupled(d: DecState, p: Peer, tight: bool) {
    && p.Valid()
    && Comparable(d.table, p.table)
    && (d.overLimit ==> d.table == [])
    && (d.capacityObserved ==> d.maxSize == p.maxSize)
    && (d.IsExact() ==> d.capacityObserved && p.table <= d.table)
    && (tight ==> Fit(d.table, p.maxSize) <= p.table && Total(d.table) <= d.maxSize)
  }

  /** The three guards the exactness argument needs of a representation: no name inserted
      that we could not resolve, no oversize entry while the capacity is a guess, and (for
      `tight`) no size update raising a capacity we had only guessed. */
  predicate Clean(cb: Codebook, d: DecState, p: Peer, rep: Rep, tight: bool) {
    match rep
    case Indexed(_) => true
    case SizeUpdate(n) => tight && !d.capacityObserved ==> n <= p.maxSize
    case Literal(mode, idx, name, value) =>
      mode == Indexing ==>
        && (idx == 0 || d.Lookup(cb, idx).Some?)
        && (d.capacityObserved || InsertedSize(cb, d, idx, name, value) <= d.maxSize)
  }

  function InsertedSize(cb: Codebook, d: DecState, idx: nat, name: seq<byte>, value: seq<byte>): nat
    requires idx == 0 || d.Lookup(cb, idx).Some?
  {
    FieldSize(Field(if idx == 0 then name else d.Lookup(cb, idx).value.name, value, false, false))
  }

  // ----- why eviction and saturation prove anything -----------------------------

  /** If our entries leave no room for even an empty one, a comparable table that fits the
      same capacity holds nothing we do not. */
  lemma SaturatedCovers(ours: seq<Field>, theirs: seq<Field>, max: nat)
    requires Comparable(ours, theirs) && Total(ours) + MIN_ENTRY_SIZE > max
    ensures Fit(theirs, max) <= Fit(ours, max)
  {
    var q := Fit(theirs, max);
    FitIsLongest(theirs, max, []);
    if q <= ours {
      FitIsLongest(ours, max, q);
    } else {
      assert ours <= q && ours != q;
      TotalPrefix(ours, q);
    }
  }

  lemma FitAnyOfFit(t: seq<Field>, m: nat, n: int)
    ensures Fit(Fit(t, n), m) <= Fit(t, m)
  {
    FitIsLongest(Fit(t, n), m, []);
    FitIsLongest(t, m, Fit(Fit(t, n), m));
  }

  lemma FitConsMonotone(f: Field, t: seq<Field>, p: seq<Field>, m: nat)
    requires Fit(t, m) <= p
    ensures Fit([f] + t, m) <= Fit([f] + p, m)
  {
    if FieldSize(f) <= m {
      var n := m - FieldSize(f);
      assert ([f] + t)[1..] == t && ([f] + p)[1..] == p;
      FitIsLongest(t, n, []);
      FitIsLongest(t, m, Fit(t, n));
      FitIsLongest(p, n, Fit(t, n));
    }
  }

  lemma InsertedVersusPeers(d: DecState, p: Peer, f: Field, tight: bool)
    requires Coupled(d, p, tight) && !d.overLimit
    ensures var ours, theirs := [f] + d.table, [f] + p.table;
            var kept, peers := Fit(ours, d.maxSize), Fit(theirs, p.maxSize);
            && Total(kept) <= d.maxSize && Total(peers) <= p.maxSize
            && Comparable(kept, peers)
            && (d.IsExact() ==> peers <= kept)
            && (d.capacityObserved && (Total(ours) > d.maxSize || Total(kept) + MIN_ENTRY_SIZE > d.maxSize) ==> peers <= kept)
            && (tight ==> Fit(kept, p.maxSize) <= peers)
  {
    var ours, theirs := [f] + d.table, [f] + p.table;
    assert Comparable(ours, theirs);
    FitIsLongest(theirs, p.maxSize, []);
    FitIsLongest(ours, d.maxSize, []);
    FitComparable(ours, theirs, d.maxSize, p.maxSize);
    var kept, peers := Fit(ours, d.maxSize), Fit(theirs, p.maxSize);
    if d.IsExact() {
      FitMonotone(theirs, ours, p.maxSize, d.maxSize);
    } else if d.capacityObserved && Total(ours) > d.maxSize {
      SaturatedCovers(ours, theirs, d.maxSize);
    } else if d.capacityObserved && Total(kept) + MIN_ENTRY_SIZE > d.maxSize {
      SaturatedCovers(kept, peers, d.maxSize);
      FitAll(kept, d.maxSize);
      FitAll(peers, d.maxSize);
    }
    if tight {
      FitAnyOfFit(ours, p.maxSize, d.maxSize);
      FitConsMonotone(f, d.table, p.table, p.maxSize);
    }
  }

  lemma InsertCoupled(d: DecState, p: Peer, f: Field, tight: bool)
    requires Coupled(d, p, tight)
    requires (d.capacityObserved || FieldSize(f) <= d.maxSize) && !f.unknown && !f.sensitive
    ensures Coupled(d.Insert(f), p.Insert(f), tight)
    ensures d.IsExact() ==> d.Insert(f).IsExact()
  {
    FitIsLongest([f] + p.table, p.maxSize, []);
    assert p.Insert(f).Valid();
    if !d.overLimit {
      InsertedVersusPeers(d, p, f, tight);
      hide Fit, Total;
    }
  }

  /** What fits `n` on each side, before the flags are looked at. */
  lemma KeptVersusPeers(d: DecState, p: Peer, n: nat, tight: bool)
    requires Coupled(d, p, tight)
    requires tight && !d.capacityObserved ==> n <= p.maxSize
    ensures var kept, peers := Fit(d.table, n), Fit(p.table, n);
            && Total(kept) <= n && Total(peers) <= n && Fit(kept, n) == kept
            && Comparable(kept, peers)
            && (d.IsExact() || Total(d.table) > n || Total(kept) + MIN_ENTRY_SIZE > n ==> peers <= kept)
            && (tight ==> kept <= peers)
  {
    var kept, peers := Fit(d.table, n), Fit(p.table, n);
    FitIsLongest(d.table, n, []);
    FitIsLongest(p.table, n, []);
    FitComparable(d.table, p.table, n, n);
    FitAll(kept, n);
    FitAll(peers, n);
    if d.IsExact() {
      FitMonotone(p.table, d.table, n, n);
    } else if Total(d.table) > n {
      SaturatedCovers(d.table, p.table, n);
    } else if Total(kept) + MIN_ENTRY_SIZE > n {
      SaturatedCovers(kept, peers, n);
    }
    if tight {
      if d.capacityObserved {
        FitAll(d.table, p.maxSize);
        FitMonotone(d.table, p.table, n, n);
      } else {
        FitIsLongest(d.table, p.maxSize, kept);
        FitIsLongest(p.table, n, kept);
      }
    }
  }

  lemma ResizeCoupled(d: DecState, p: Peer, n: nat, tight: bool)
    requires Coupled(d, p, tight)
    requires tight && !d.capacityObserved ==> n <= p.maxSize
    ensures Coupled(d.Resize(n), p.Resize(n), tight)
    ensures d.IsExact() && !d.Resize(n).overLimit ==> d.Resize(n).IsExact()
  {
    KeptVersusPeers(d, p, n, tight);
    var d1 := d.(capacityObserved := true, maxSize := n).Evict();
    var d2 := d1.EnforceLimit();
    assert d2.overLimit || d2 == d1;
    assert d2.overLimit ==> d2.table == [];
    assert d.Resize(n) == d2.RecheckExact();
    assert [] <= Fit(p.table, n);
  }

  // ----- one representation, one block ------------------------------------------

  lemma CoupledStep(cb: Codebook, d: DecState, p: Peer, rep: Rep, tight: bool)
    requires Coupled(d, p, tight) && p.Apply(cb, rep).Some?
    requires Clean(cb, d, p, rep, tight)
    ensures var (p', theirs) := p.Apply(cb, rep).value;
            var (d', r) := ApplyOurs(cb, d, rep);
            && r.Ok? && Coupled(d', p', tight)
            && (d.IsExact() ==> r.value == theirs && d'.unresolved == d.unresolved && (d'.overLimit || d'.IsExact()))
  {
    match rep
    case Indexed(_) =>
      hide DecState.Insert, DecState.Resize;
    case SizeUpdate(n) =>
      ResizeCoupled(d, p, n, tight);
      hide DecState.Resize, Peer.Resize, Coupled;
    case Literal(mode, idx, name, value) =>
      var theirs := p.Apply(cb, rep).value.1;
      if mode == Indexing {
        assert idx != 0 ==> d.Lookup(cb, idx) == p.Lookup(cb, idx);
        InsertCoupled(d, p, theirs[0], tight);
        hide DecState.Insert, Peer.Insert;
      }
  }

  /** With the table fully known the guards hold of every representation the peer accepts. */
  lemma ExactIsClean(cb: Codebook, d: DecState, p: Peer, rep: Rep, tight: bool)
    requires Coupled(d, p, tight) && p.Apply(cb, rep).Some? && d.IsExact()
    ensures Clean(cb, d, p, rep, tight)
  {
  }

  predicate CleanBlock(cb: Codebook, d: DecState, p: Peer, b: seq<byte>, tight: bool)
    requires p.Decode(cb, b).Some?
    decreases |b|
  {
    b == [] ||
    var (rep, rest) := ReadRep(cb, b).value;
    && Clean(cb, d, p, rep, tight)
    && CleanBlock(cb, ApplyOurs(cb, d, rep).0, p.Apply(cb, rep).value.0, rest, tight)
  }

  lemma {:induction false} CoupledBlock(cb: Codebook, d: DecState, p: Peer, b: seq<byte>, tight: bool)
    requires Coupled(d, p, tight) && p.Decode(cb, b).Some? && CleanBlock(cb, d, p, b, tight)
    ensures Decode(cb, d, b).1.Ok?
    ensures Coupled(Decode(cb, d, b).0, p.Decode(cb, b).value.0, tight)
    decreases |b|
  {
    if b != [] {
      var (rep, rest) := ReadRep(cb, b).value;
      StepIsReadThenApply(cb, d, b);
      CoupledStep(cb, d, p, rep, tight);
      CoupledBlock(cb, ApplyOurs(cb, d, rep).0, p.Apply(cb, rep).value.0, rest, tight);
    }
  }

  lemma {:induction false} OverLimitStays(cb: Codebook, d: DecState, b: seq<byte>)
    requires d.overLimit
    ensures Decode(cb, d, b).0.overLimit
    decreases |b|
  {
    if b != [] {
      var (d', r) := DecodeStep(cb, d, b);
      if r.Ok? { OverLimitStays(cb, d', r.value.1); }
    }
  }

  /** An exact decoder is the reference decoder: same fields, nothing unresolved, still exact
      and still coupled, unless the block negotiates a table beyond our memory cap. */
  lemma {:induction false} ExactBlock(cb: Codebook, d: DecState, p: Peer, b: seq<byte>, tight: bool)
    requires Coupled(d, p, tight) && d.IsExact() && p.Decode(cb, b).Some?
    ensures var (p', theirs) := p.Decode(cb, b).value;
            var (d', r) := Decode(cb, d, b);
            || d'.overLimit
            || (r == Ok(theirs) && d'.unresolved == d.unresolved && d'.IsExact() && Coupled(d', p', tight))
    decreases |b|
  {
    if b != [] {
      var (rep, rest) := ReadRep(cb, b).value;
      StepIsReadThenApply(cb, d, b);
      ExactIsClean(cb, d, p, rep, tight);
      CoupledStep(cb, d, p, rep, tight);
      var d' := ApplyOurs(cb, d, rep).0;
      if d'.overLimit {
        OverLimitStays(cb, d', rest);
      } else {
        ExactBlock(cb, d', p.Apply(cb, rep).value.0, rest, tight);
      }
    }
  }

  // ----- whole runs ---------------------------------------------------------------

  /** The hypotheses on the environment, event by event: an observed capacity equals the
      peer's afterwards, and blocks are clean. */
  predicate Faithful(cb: Codebook, w: World, e: Event, tight: bool)
    requires Next(cb, w, e).Some?
  {
    var w' := Next(cb, w, e).value;
    && (w'.ours.capacityObserved ==> w'.ours.maxSize == w'.peer.maxSize)
    && (match e
        case Block(b) => CleanBlock(cb, w.ours, w.peer, b, tight)
        case Missed(after) => after.Valid()
        case Capacity(_, _) => tight && !w.ours.capacityObserved ==> w'.peer.maxSize <= w.peer.maxSize
        case TrackLimit(_) => true)
  }

  predicate FaithfulRun(cb: Codebook, w: World, events: seq<Event>, tight: bool)
    requires Run(cb, w, events).Some?
    decreases |events|
  {
    events == [] ||
    (Faithful(cb, w, events[0], tight) && FaithfulRun(cb, Next(cb, w, events[0]).value, events[1..], tight))
  }

  /** While our capacity is a guess the peer's may move under us, or turn out to be the guess. */
  lemma GuessCoupled(d: DecState, p: Peer, n: nat, tight: bool, observed: bool)
    requires Coupled(d, p, tight) && !d.capacityObserved
    requires (tight ==> n <= p.maxSize) && (observed ==> d.maxSize == n)
    ensures Coupled(d.(capacityObserved := observed), p.Resize(n), tight)
  {
    KeptVersusPeers(d, p, n, tight);
    var peers := Fit(p.table, n);
    assert d.table <= p.table ==> Comparable(d.table, peers);
    assert p.table <= d.table ==> Comparable(d.table, peers);
    assert !d.exact || d.overLimit;
    assert p.Resize(n).Valid();
  }

  function ApplyOptional(d: DecState, ours: Option<nat>): DecState {
    if ours.Some? then d.ApplyPeerCapacity(ours.value) else d
  }

  lemma CapacityCoupled(d: DecState, p: Peer, ours: Option<nat>, n: nat, tight: bool)
    requires Coupled(d, p, tight)
    requires tight && !d.capacityObserved ==> n <= p.maxSize
    requires ApplyOptional(d, ours).capacityObserved ==> ApplyOptional(d, ours).maxSize == n
    ensures Coupled(ApplyOptional(d, ours), p.Resize(n), tight)
  {
    if ours.Some? && ours.value < d.maxSize {
      ResizeCoupled(d, p, n, tight);
    } else if d.capacityObserved {
      FitAll(p.table, n);
    } else {
      GuessCoupled(d, p, n, tight, ours.Some?);
      assert ApplyOptional(d, ours) == d.(capacityObserved := ours.Some?);
    }
  }

  lemma CoupledNext(cb: Codebook, w: World, e: Event, tight: bool)
    requires Coupled(w.ours, w.peer, tight)
    requires Next(cb, w, e).Some? && Faithful(cb, w, e, tight)
    ensures var w' := Next(cb, w, e).value; Coupled(w'.ours, w'.peer, tight)
  {
    match e
    case Block(b) => CoupledBlock(cb, w.ours, w.peer, b, tight);
    case Capacity(o, q) =>
      FitAll(w.peer.table, w.peer.maxSize);
      CapacityCoupled(w.ours, w.peer, o, if q.Some? then q.value else w.peer.maxSize, tight);
    case Missed(_) =>
    case TrackLimit(_) =>
  }

  lemma {:induction false} CoupledAlongRun(cb: Codebook, w: World, events: seq<Event>, tight: bool)
    requires Coupled(w.ours, w.peer, tight)
    requires Run(cb, w, events).Some? && FaithfulRun(cb, w, events, tight)
    ensures var w' := Run(cb, w, events).value; Coupled(w'.ours, w'.peer, tight)
    decreases |events|
  {
    if events != [] {
      CoupledNext(cb, w, events[0], tight);
      CoupledAlongRun(cb, Next(cb, w, events[0]).value, events[1..], tight);
    }
  }

  /** The three ways a decoder comes into being, each with a peer it may face. */
  ghost predicate SoundStart(w: World) {
    || (w.ours == NewPartial() && w.peer.Valid())
    || (w.ours == NewExact() && w.peer == Peer([], DEFAULT_TABLE_SIZE))
    || (w.ours == FromEntries(w.peer.table, w.peer.maxSize) && w.peer.Valid())
  }

  lemma StartIsCoupled(w: World)
    requires SoundStart(w)
    ensures Coupled(w.ours, w.peer, true) && Coupled(w.ours, w.peer, false)
  {
    FitAll(w.peer.table, w.peer.maxSize);
  }

  /** Exactness is sound. Whenever `is_exact` holds, by any of its routes, we hold every entry
      the peer holds, and decoding any block the peer accepts is the reference decoding.
      If no guessed capacity was ever raised, the two tables are equal. */
  lemma ExactnessIsSound(cb: Codebook, w: World, events: seq<Event>, tight: bool, block: seq<byte>)
    requires SoundStart(w)
    requires Run(cb, w, events).Some? && FaithfulRun(cb, w, events, tight)
    requires Run(cb, w, events).value.ours.IsExact()
    ensures var w' := Run(cb, w, events).value;
            && w'.peer.table <= w'.ours.table
            && (tight ==> w'.peer.table == w'.ours.table)
            && (w'.peer.Decode(cb, block).Some? && !Decode(cb, w'.ours, block).0.overLimit ==>
                  Decode(cb, w'.ours, block).1 == Ok(w'.peer.Decode(cb, block).value.1))
  {
    StartIsCoupled(w);
    CoupledAlongRun(cb, w, events, tight);
    var w' := Run(cb, w, events).value;
    if w'.peer.Decode(cb, block).Some? {
      ExactBlock(cb, w'.ours, w'.peer, block, tight);
    }
    if tight {
      FitAll(w'.ours.table, w'.peer.maxSize);
    }
  }
}
