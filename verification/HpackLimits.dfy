/** Where exactness is claimed too early, and exactly when. Each guard of `HpackExact.Clean`
    is needed: without it the code says "exact" of a table that is not the peer's. */
module HpackLimits {
  import opened Basics
  import opened HpackInt
  import opened HpackTable
  import opened HpackSpec
  import opened HpackReference
  import opened HpackExact

  /** An oversize entry sets `exact` even while the capacity is a guess. The claim is right
      if and only if the entry was too big for the peer's real table as well. */
  lemma OversizeEntryWhileGuessing(d: DecState, p: Peer, f: Field)
    requires p.Valid() && !d.overLimit && !d.capacityObserved && FieldSize(f) > d.maxSize
    ensures d.Insert(f).IsExact()
    ensures p.Insert(f).table <= d.Insert(f).table <==> FieldSize(f) > p.maxSize
  {
  }

  /** A size update that raises a guessed capacity can leave us with entries the peer has
      already dropped. We hold only the peer's entries afterwards if and only if what we
      keep would have fitted the peer's old capacity. */
  lemma RaisedGuess(d: DecState, p: Peer, n: nat)
    requires Coupled(d, p, true) && !d.capacityObserved && n >= p.maxSize && n <= d.trackLimit
    ensures d.Resize(n).table <= p.Resize(n).table <==> Total(Fit(d.table, n)) <= p.maxSize
  {
    FitAll(p.table, n);
    var kept := Fit(d.table, n);
    FitIsLongest(d.table, p.maxSize, kept);
    if kept <= p.table { TotalPrefix(kept, p.table); }
  }

  /** So exact tables need not be equal: a peer without a table, one entry that only we keep,
      then a size update. */
  lemma ExactNeedNotBeEqual(f: Field)
    requires FieldSize(f) <= DEFAULT_TABLE_SIZE
    ensures var n := FieldSize(f);
            var d := NewPartial().Insert(f).Resize(n);
            var p := Peer([], 0).Insert(f).Resize(n);
            d.IsExact() && d.table == [f] && p.table == []
  {
    assert [f][1..] == [];
    assert Total([f]) == FieldSize(f);
    FitAll([f], DEFAULT_TABLE_SIZE);
    FitAll([f], FieldSize(f));
  }

  /** A placeholder name has the wrong length, so the sizes drift: here one unresolved name
      saturates our copy while the peer keeps an older entry, which we then refuse. */
  lemma UnresolvedNameBreaksExactness(cb: Codebook)
    ensures var d := DecState([], 64, false, 0, true, USIZE_MAX, false);
            var p := Peer([Field([], [], false, false)], 64);
            var rep := Literal(Indexing, 62, [], []);
            && Coupled(d, p, true) && !Clean(cb, d, p, rep, true) && p.Apply(cb, rep).Some?
            && var d', p' := ApplyOurs(cb, d, rep).0, p.Apply(cb, rep).value.0;
               d'.IsExact() && ApplyOurs(cb, d', Indexed(63)).1 == Err(BadIndex(63)) && p'.Apply(cb, Indexed(63)).Some?
  {
    var d := DecState([], 64, false, 0, true, USIZE_MAX, false);
    var x := Field([], [], false, false);
    var ph := Placeholder(62);
    assert |Decimal(62)| == 2;
    assert FieldSize(ph) == 50;
    assert [ph] + [] == [ph] && [ph][1..] == [];
    assert Fit([ph], 64) == [ph];
    assert Total([x]) == 32 by { assert [x][1..] == []; }
    assert [x, x][1..] == [x] && [x][1..] == [];
    assert Fit([x, x], 64) == [x, x];
    assert [x] + [x] == [x, x];
    assert d.Resolve(cb, 62) == (d.(unresolved := 1), Ok(ph));
    assert ApplyOurs(cb, d, Literal(Indexing, 62, [], [])).0 == d.(unresolved := 1).Insert(ph);
  }
}
