/** The mutable `Decoder`, proved to have exactly the effects `HpackSpec` gives. */
module HpackDecoder {
  import opened Basics
  import opened HpackInt
  import opened HpackTable
  import opened HpackSpec

  class Decoder {
    const cb: Codebook
    var table: seq<Field>
    var size: nat
    var maxSize: nat
    var exact: bool
    var unresolved: nat
    var capacityObserved: bool
    var trackLimit: nat
    var overLimit: bool

    ghost predicate Valid()
      reads this
    {
      size == Total(table)
    }

    ghost function State(): DecState
      reads this
    {
      DecState(table, maxSize, exact, unresolved, capacityObserved, trackLimit, overLimit)
    }

    constructor NewPartial(cb: Codebook)
      ensures Valid() && State() == HpackSpec.NewPartial() && this.cb == cb
    {
      this.cb := cb;
      table, size, maxSize, exact := [], 0, DEFAULT_TABLE_SIZE, false;
      unresolved, capacityObserved, trackLimit, overLimit := 0, false, USIZE_MAX, false;
    }

    constructor NewExact(cb: Codebook)
      ensures Valid() && State() == HpackSpec.NewExact() && this.cb == cb
    {
      this.cb := cb;
      table, size, maxSize, exact := [], 0, DEFAULT_TABLE_SIZE, true;
      unresolved, capacityObserved, trackLimit, overLimit := 0, true, USIZE_MAX, false;
    }

    constructor FromEntries(cb: Codebook, entries: seq<Field>, maxSize: nat)
      ensures Valid() && State() == HpackSpec.FromEntries(entries, maxSize) && this.cb == cb
    {
      this.cb := cb;
      table, size, this.maxSize, exact := entries, Total(entries), maxSize, true;
      unresolved, capacityObserved, trackLimit, overLimit := 0, true, USIZE_MAX, false;
    }

    method ResetPartial()
      requires Valid()
      modifies this
      ensures Valid() && State() == old(State()).ResetPartial()
    {
      table, size, exact := [], 0, false;
    }

    /** The pop-from-the-back loop computes the longest prefix that fits. */
    method Evict()
      requires Valid()
      modifies this
      ensures Valid() && State() == old(State()).Evict()
    {
      ghost var t0 := table;
      while size > maxSize
        invariant Valid() && Fit(table, maxSize) == Fit(t0, maxSize)
        invariant State() == old(State()).(table := table, exact := exact)
        invariant exact == (old(exact) || (capacityObserved && |table| < |t0|))
        invariant |table| <= |t0| && (|table| < |t0| <==> Total(t0) > maxSize >= 0 && table != t0)
      {
        if table == [] {
          break;
        }
        PopKeepsFit(table, maxSize);
        var f := table[|table| - 1];
        table := table[..|table| - 1];
        size := size - FieldSize(f);
        if capacityObserved {
          exact := true;
        }
      }
      FitAll(table, maxSize);
    }

    method EnforceLimit()
      requires Valid()
      modifies this
      ensures Valid() && State() == old(State()).EnforceLimit()
    {
      if maxSize > trackLimit {
        overLimit, table, size := true, [], 0;
      }
    }

    method SetTrackLimit(n: nat)
      requires Valid()
      modifies this
      ensures Valid() && State() == old(State()).SetTrackLimit(n)
    {
      trackLimit := n;
      EnforceLimit();
    }

    method RecheckExact()
      requires Valid()
      modifies this
      ensures Valid() && State() == old(State()).RecheckExact()
    {
      if !capacityObserved || overLimit {
        return;
      }
      if !exact && size + MIN_ENTRY_SIZE > maxSize {
        exact := true;
      }
    }

    method Resize(n: nat)
      requires Valid()
      modifies this
      ensures Valid() && State() == old(State()).Resize(n)
    {
      capacityObserved := true;
      maxSize := n;
      Evict();
      EnforceLimit();
      RecheckExact();
    }

    method ApplyPeerCapacity(n: nat)
      requires Valid()
      modifies this
      ensures Valid() && State() == old(State()).ApplyPeerCapacity(n)
    {
      capacityObserved := true;
      if n < maxSize {
        Resize(n);
      }
    }

    method Insert(f: Field)
      requires Valid()
      modifies this
      ensures Valid() && State() == old(State()).Insert(f)
    {
      if overLimit {
        return;
      }
      if FieldSize(f) > maxSize {
        table, size, exact := [], 0, true;
        return;
      }
      size := size + FieldSize(f);
      table := [f] + table;
      Evict();
      RecheckExact();
    }

    method Resolve(idx: nat) returns (r: Result<Field>)
      requires Valid()
      modifies this
      ensures Valid() && (State(), r) == old(State()).Resolve(cb, idx)
    {
      var found: Option<Field> := None;
      if idx == 0 {
      } else if idx <= STATIC_LEN {
        found := Some(Field(cb.fixed[idx - 1].0, cb.fixed[idx - 1].1, false, false));
      } else if idx - STATIC_LEN - 1 < |table| {
        found := Some(table[idx - STATIC_LEN - 1]);
      }
      match found {
        case Some(f) => r := Ok(f);
        case None =>
          if exact && !overLimit {
            r := Err(BadIndex(idx));
          } else {
            unresolved := unresolved + 1;
            r := Ok(Placeholder(idx));
          }
      }
    }

    method ReadLiteral(b: seq<byte>, prefix: nat) returns (r: Result<(Field, seq<byte>)>)
      requires Valid()
      modifies this
      ensures Valid() && (State(), r) == HpackSpec.ReadLiteral(cb, old(State()), b, prefix)
    {
      var i := ReadIntLoop(b, prefix);
      if i.Err? {
        return Err(i.error);
      }
      var (idx, rest) := i.value;
      var f;
      if idx == 0 {
        var s := ReadString(cb, rest);
        if s.Err? {
          return Err(s.error);
        }
        f, rest := Field(s.value.0, [], false, false), s.value.1;
      } else {
        var e := Resolve(idx);
        if e.Err? {
          return Err(e.error);
        }
        f := Field(e.value.name, [], false, e.value.unknown);
      }
      var v := ReadString(cb, rest);
      if v.Err? {
        return Err(v.error);
      }
      return Ok((f.(value := v.value.0), v.value.1));
    }

    /** Decode one complete header block. */
    method Decode(block: seq<byte>) returns (r: Result<seq<Field>>)
      requires Valid()
      modifies this
      ensures Valid() && (State(), r) == HpackSpec.Decode(cb, old(State()), block)
    {
      var out: seq<Field> := [];
      var b := block;
      PrependNothing(HpackSpec.Decode(cb, State(), b));
      while b != []
        invariant Valid()
        invariant HpackSpec.Decode(cb, old(State()), block) == Prepended(out, HpackSpec.Decode(cb, State(), b))
        decreases |b|
      {
        ghost var here, b0, before := State(), b, out;
        var first := b[0];
        if first >= 0x80 {
          var i := ReadIntLoop(b, 7);
          if i.Err? { return Err(i.error); }
          b := i.value.1;
          if i.value.0 == 0 { return Err(ZeroIndex); }
          var f := Resolve(i.value.0);
          if f.Err? { return Err(f.error); }
          out := out + [f.value];
        } else if first >= 0x40 {
          var l := ReadLiteral(b, 6);
          if l.Err? { return Err(l.error); }
          b := l.value.1;
          Insert(l.value.0);
          out := out + [l.value.0];
        } else if first >= 0x20 {
          var i := ReadIntLoop(b, 5);
          if i.Err? { return Err(i.error); }
          b := i.value.1;
          Resize(i.value.0);
        } else if first >= 0x10 {
          var l := ReadLiteral(b, 4);
          if l.Err? { return Err(l.error); }
          b := l.value.1;
          out := out + [l.value.0.(sensitive := true)];
        } else {
          var l := ReadLiteral(b, 4);
          if l.Err? { return Err(l.error); }
          b := l.value.1;
          out := out + [l.value.0];
        }
        ghost var fs := out[|before|..];
        assert out == before + fs;
        assert DecodeStep(cb, here, b0) == (State(), Ok((fs, b)));
        PrependTwice(before, fs, HpackSpec.Decode(cb, State(), b));
      }
      assert out + [] == out;
      return Ok(out);
    }
  }

  ghost function Prepended(fs: seq<Field>, r: (DecState, Result<seq<Field>>)): (DecState, Result<seq<Field>>) {
    (r.0, if r.1.Ok? then Ok(fs + r.1.value) else r.1)
  }

  lemma PrependNothing(r: (DecState, Result<seq<Field>>))
    ensures Prepended([], r) == r
  {
    if r.1.Ok? { assert [] + r.1.value == r.1.value; }
  }

  lemma PrependTwice(a: seq<Field>, b: seq<Field>, r: (DecState, Result<seq<Field>>))
    ensures Prepended(a, Prepended(b, r)) == Prepended(a + b, r)
  {
    if r.1.Ok? { assert a + (b + r.1.value) == a + b + r.1.value; }
  }
}
