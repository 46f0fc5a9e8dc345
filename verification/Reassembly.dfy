/** The mutable reassembler with its consumed prefix and compaction, proved to have exactly
    the effects `ReassemblySpec` gives. */
module Reassembly {
  import opened Basics
  import opened ReassemblySpec

  const COMPACT_THRESHOLD := 0x1_0000

  class Reassembler {
    var baseSeq: u32
    var nextSeq: u32
    var deliveredOff: nat
    var buf: seq<byte>
    var pos: nat
    var bufOff: nat
    var ooo: seq<Held>
    var oooBytes: nat
    var oooSince: Option<nat>
    var initialized: bool
    var sawSyn: bool
    var gaps: nat
    var bytes: nat

    ghost predicate Valid()
      reads this
    {
      pos <= |buf| && oooBytes == HeldBytes(ooo)
    }

    ghost function State(): ReasmState
      requires Valid()
      reads this
    {
      ReasmState(Window(baseSeq, bufOff, buf[pos..]), nextSeq, deliveredOff, ooo, oooSince, initialized, sawSyn, gaps, bytes)
    }

    constructor ()
      ensures Valid() && State() == NewReassembler()
    {
      baseSeq, nextSeq, deliveredOff, buf, pos, bufOff := 0, 0, 0, [], 0, 0;
      ooo, oooBytes, oooSince := [], 0, None;
      initialized, sawSyn, gaps, bytes := false, false, 0, 0;
    }

    method NoteSyn(s: u32)
      requires Valid()
      modifies this
      ensures Valid() && State() == old(State()).NoteSyn(s)
    {
      if initialized {
        return;
      }
      baseSeq := WrappingAdd(s, 1);
      nextSeq := baseSeq;
      initialized, sawSyn := true, true;
    }

    function Available(): seq<byte>
      requires Valid()
      reads this
    {
      buf[pos..]
    }

    function NextUnparsedSeq(): u32
      reads this
    {
      WrappingAdd(baseSeq, bufOff)
    }

    method Consume(n: nat)
      requires Valid()
      modifies `buf, `pos, `bufOff
      ensures Valid() && State() == old(State()).Consume(n)
    {
      var k := if n <= |buf| - pos then n else |buf| - pos;
      assert buf[pos..][k..] == buf[pos + k..];
      pos := pos + k;
      bufOff := bufOff + k;
      if pos >= COMPACT_THRESHOLD {
        buf := buf[pos..];
        pos := 0;
      }
    }

    method Append(data: seq<byte>)
      requires Valid()
      modifies `buf, `nextSeq, `deliveredOff, `bytes
      ensures Valid() && State() == old(State()).Append(data)
    {
      assert (buf + data)[pos..] == buf[pos..] + data;
      buf := buf + data;
      nextSeq := WrappingAdd(nextSeq, |data|);
      deliveredOff := deliveredOff + |data|;
      bytes := bytes + |data|;
    }

    method TakeDue(i: nat)
      requires Valid() && i < |ooo| && SignedDiff(ooo[i].seq_, nextSeq) <= 0
      modifies this
      ensures Valid() && State() == old(State()).TakeDue(i)
    {
      HeldBytesWithout(ooo, i);
      var h := ooo[i];
      var overlap := -SignedDiff(h.seq_, nextSeq);
      ooo := ooo[..i] + ooo[i + 1..];
      oooBytes := oooBytes - |h.data|;
      if overlap < |h.data| {
        Append(h.data[overlap..]);
      }
    }

    method DrainOoo()
      requires Valid()
      modifies this
      ensures Valid() && State() == old(State()).Drain()
    {
      while true
        invariant Valid() && State().Drain() == old(State()).Drain()
        decreases |ooo|
      {
        var held, next := ooo, nextSeq;
        var i := 0;
        while i < |held| && SignedDiff(held[i].seq_, next) > 0
          invariant i <= |held|
          invariant forall j :: 0 <= j < i ==> SignedDiff(held[j].seq_, next) > 0
        {
          i := i + 1;
        }
        assert i == FirstDue(ooo, nextSeq);
        if i == |ooo| {
          break;
        }
        TakeDue(i);
      }
      if ooo == [] {
        oooSince := None;
      }
    }

    static method FindNearest(held: seq<Held>, next: u32) returns (skip: u32)
      ensures skip == Nearest(held, next)
    {
      skip := 0;
      for i := 0 to |held|
        invariant skip == Nearest(held[..i], next)
      {
        NearestSnoc(held[..i], held[i], next);
        assert held[..i + 1] == held[..i] + [held[i]];
        var d := Distance(next, held[i].seq_);
        if i == 0 || d < skip {
          skip := d;
        }
      }
      assert held[..|held|] == held;
    }

    method Skip(skip: nat)
      requires Valid()
      modifies this
      ensures Valid() && State() == old(State()).Skip(skip)
    {
      gaps := gaps + 1;
      deliveredOff := deliveredOff + skip;
      nextSeq := WrappingAdd(nextSeq, skip);
      buf, pos, bufOff, oooSince := [], 0, deliveredOff, None;
    }

    method ForceGap() returns (gap: bool)
      requires Valid()
      modifies this
      ensures Valid() && State() == old(State()).ForceGap() && gap
    {
      var skip := FindNearest(ooo, nextSeq);
      Skip(skip);
      DrainOoo();
      return true;
    }

    method Hold(s: u32, data: seq<byte>, now: nat)
      requires Valid()
      modifies this
      ensures Valid() && State() == old(State()).Hold(s, data, now)
    {
      HeldBytesConcat(ooo, [Held(s, data)]);
      assert [Held(s, data)][1..] == [];
      ooo := ooo + [Held(s, data)];
      oooBytes := oooBytes + |data|;
      if oooSince.None? {
        oooSince := Some(now);
      }
    }

    method PushReady(s: u32, data: seq<byte>, now: nat) returns (gap: bool)
      requires Valid()
      modifies this
      ensures Valid() && (State(), gap) == old(State()).PushReady(s, data, now)
    {
      var diff := SignedDiff(s, nextSeq);
      if diff > 0 {
        Hold(s, data, now);
        if oooBytes > OOO_LIMIT {
          gap := ForceGap();
          return;
        }
        return false;
      }
      if diff == 0 {
        assert data[0..] == data;
        Append(data);
      } else {
        if -diff >= |data| {
          return false;
        }
        Append(data[-diff..]);
      }
      DrainOoo();
      return false;
    }

    method Push(s: u32, data: seq<byte>, now: nat) returns (gap: bool)
      requires Valid()
      modifies this
      ensures Valid() && (State(), gap) == old(State()).Push(s, data, now)
    {
      hide ReasmState.PushReady, HeldBytes;
      if data == [] {
        return false;
      }
      if !initialized {
        baseSeq, nextSeq, initialized := s, s, true;
      }
      gap := PushReady(s, data, now);
    }

    method CheckTimeout(now: nat) returns (gap: bool)
      requires Valid()
      modifies this
      ensures Valid() && (State(), gap) == old(State()).CheckTimeout(now)
    {
      if oooSince.Some? && now - oooSince.value > OOO_TIMEOUT_US {
        gap := ForceGap();
        return;
      }
      return false;
    }
  }

  lemma {:induction false} NearestSnoc(a: seq<Held>, h: Held, next: u32)
    ensures var d := Distance(next, h.seq_);
            Nearest(a + [h], next) == if a == [] || d < Nearest(a, next) then d else Nearest(a, next)
  {
    if a != [] {
      assert (a + [h])[1..] == a[1..] + [h];
      NearestSnoc(a[1..], h, next);
    }
  }
}
