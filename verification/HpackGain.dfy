/** When the tolerant decoder begins to call itself exact: as soon as it can know, and no sooner. */
module HpackGain {
  import opened Basics
  import opened HpackTable
  import opened HpackSpec

  /** Whatever older entries the peer's table had behind those we have seen, with this capacity
      none of them is left. */
  ghost predicate NothingBehind(seen: seq<Field>, max: nat) {
    forall older: seq<Field> :: Fit(seen + older, max) == Fit(seen, max)
  }

  lemma FitIgnores(seen: seq<Field>, max: nat, older: seq<Field>)
    requires Total(seen) > max || Total(Fit(seen, max)) + MIN_ENTRY_SIZE > max
    ensures Fit(seen + older, max) == Fit(seen, max)
  {
    var all, kept := Fit(seen + older, max), Fit(seen, max);
    FitIsLongest(seen, max, kept);
    FitIsLongest(seen + older, max, kept);
    if |all| > |seen| {
      TotalPrefix(seen, all);
      FitAll(seen, max);
    } else {
      assert all <= seen;
      FitIsLongest(seen, max, all);
    }
  }

  /** Nothing is left behind exactly when an entry we have seen was dropped, or what we keep
      leaves no room for even an empty one. */
  lemma NothingBehindExactly(seen: seq<Field>, max: nat)
    ensures NothingBehind(seen, max) <==> Total(seen) > max || Total(Fit(seen, max)) + MIN_ENTRY_SIZE > max
  {
    if Total(seen) > max || Total(Fit(seen, max)) + MIN_ENTRY_SIZE > max {
      forall older: seq<Field> ensures Fit(seen + older, max) == Fit(seen, max) { FitIgnores(seen, max, older); }
    } else {
      var empty := [Field([], [], false, false)];
      FitAll(seen, max);
      TotalAppend(seen, empty);
      TotalOne(empty[0]);
      FitAll(seen + empty, max);
      assert |seen + empty| == |seen| + 1;
    }
  }

  lemma TotalOne(f: Field)
    ensures Total([f]) == FieldSize(f)
  {
    assert [f][1..] == [];
  }

  /** An insertion by a decoder that was not exact: with a known capacity it is exact from then on
      if and only if the peer can hold nothing but what we have seen; while the capacity is a
      guess only an oversize entry makes it so; and a table given up never is. */
  lemma InsertGainsExactly(d: DecState, f: Field)
    requires !d.IsExact()
    ensures d.Insert(f).IsExact() <==>
              && !d.overLimit
              && if d.capacityObserved then NothingBehind([f] + d.table, d.maxSize) else FieldSize(f) > d.maxSize
  {
    var seen := [f] + d.table;
    NothingBehindExactly(seen, d.maxSize);
    if FieldSize(f) > d.maxSize {
      TotalAppend([f], d.table);
      TotalOne(f);
    }
    hide Fit, Total;
  }

  /** A size update: exact from then on if and only if it was, or the peer can hold nothing but
      what we have seen, and the new capacity is within our limit. */
  lemma ResizeGainsExactly(d: DecState, n: nat)
    ensures d.Resize(n).IsExact() <==>
              !d.overLimit && n <= d.trackLimit && (d.exact || NothingBehind(d.table, n))
  {
    NothingBehindExactly(d.table, n);
    hide Fit, Total;
  }
}
