/** Dynamic table accounting (RFC 7541 section 4) on newest-first lists of fields. */
module HpackTable {
  import opened Basics

  datatype Field = Field(name: seq<byte>, value: seq<byte>, sensitive: bool, unknown: bool)

  const MIN_ENTRY_SIZE := 32
  const DEFAULT_TABLE_SIZE := 4096

  function FieldSize(f: Field): nat {
    |f.name| + |f.value| + MIN_ENTRY_SIZE
  }

  function Total(t: seq<Field>): nat {
    if t == [] then 0 else FieldSize(t[0]) + Total(t[1..])
  }

  /** The declarative rule: keep the longest newest-first prefix whose total size fits. */
  function Fit(t: seq<Field>, max: int): (r: seq<Field>)
    ensures r <= t
  {
    if t == [] || FieldSize(t[0]) > max then [] else [t[0]] + Fit(t[1..], max - FieldSize(t[0]))
  }

  /** Two tables that never contradict each other: one is a prefix of the other. */
  predicate Comparable(t: seq<Field>, p: seq<Field>) {
    t <= p || p <= t
  }

  lemma {:induction false} TotalAppend(t: seq<Field>, u: seq<Field>)
    ensures Total(t + u) == Total(t) + Total(u)
  {
    if t == [] {
      assert t + u == u;
    } else {
      assert (t + u)[1..] == t[1..] + u;
      TotalAppend(t[1..], u);
    }
  }

  lemma TotalPrefix(t: seq<Field>, p: seq<Field>)
    requires t <= p
    ensures Total(t) <= Total(p)
    ensures t != p ==> Total(t) + MIN_ENTRY_SIZE <= Total(p)
  {
    assert p == t + p[|t|..];
    TotalAppend(t, p[|t|..]);
  }

  /** `Fit` is exactly "the longest prefix that fits": it fits, and every prefix that fits
      is contained in it. */
  lemma {:induction false} FitIsLongest(t: seq<Field>, max: int, q: seq<Field>)
    requires q <= t
    ensures Fit(t, max) <= t
    ensures max >= 0 ==> Total(Fit(t, max)) <= max
    ensures max >= 0 ==> (Total(q) <= max <==> q <= Fit(t, max))
  {
    if t != [] && FieldSize(t[0]) <= max {
      var rest := if q == [] then [] else q[1..];
      FitIsLongest(t[1..], max - FieldSize(t[0]), rest);
      if q != [] {
        assert q == [t[0]] + rest;
        assert Fit(t, max)[1..] == Fit(t[1..], max - FieldSize(t[0]));
        assert q <= Fit(t, max) <==> rest <= Fit(t[1..], max - FieldSize(t[0]));
      }
    } else if q != [] {
      assert q[0] == t[0];
    }
  }

  lemma FitAll(t: seq<Field>, max: int)
    requires Total(t) <= max
    ensures Fit(t, max) == t
  {
    FitIsLongest(t, max, t);
  }

  /** Dropping the oldest entry of a list that is too big does not change what fits. */
  lemma PopKeepsFit(t: seq<Field>, max: nat)
    requires t != [] && Total(t) > max
    ensures Fit(t[..|t| - 1], max) == Fit(t, max)
    ensures Total(t) == Total(t[..|t| - 1]) + FieldSize(t[|t| - 1])
  {
    var init := t[..|t| - 1];
    assert t == init + [t[|t| - 1]];
    TotalAppend(init, [t[|t| - 1]]);
    FitIsLongest(t, max, t);
    assert Fit(t, max) <= init;
    FitIsLongest(init, max, Fit(t, max));
    FitIsLongest(t, max, Fit(init, max));
  }

  /** Fitting keeps the prefix order, in the list and in the capacity. */
  lemma FitMonotone(t: seq<Field>, p: seq<Field>, m: nat, n: nat)
    requires t <= p && m <= n
    ensures Fit(t, m) <= Fit(p, n)
  {
    FitIsLongest(t, m, []);
    FitIsLongest(p, n, Fit(t, m));
  }

  lemma FitComparable(t: seq<Field>, p: seq<Field>, m: int, n: int)
    requires Comparable(t, p)
    ensures Comparable(Fit(t, m), Fit(p, n))
  {
    var l := if t <= p then p else t;
    assert Fit(t, m) <= l && Fit(p, n) <= l;
  }
}
