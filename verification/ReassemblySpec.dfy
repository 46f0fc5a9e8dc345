/** Single-direction TCP reassembly as a value: its state and the effect of every operation. */
module ReassemblySpec {
  import opened Basics

  const OOO_LIMIT := 0x10_0000
  const OOO_TIMEOUT_US := 2_000_000

  /** The in-order bytes not yet consumed: `avail` starts at stream offset `off`, and offset
      zero is absolute sequence number `base`. */
  datatype Window = Window(base: u32, off: nat, avail: seq<byte>) {
    /** `seq_at` and `next_unparsed_seq`. */
    function NextSeq(): u32 {
      WrappingAdd(base, off)
    }

    function Consume(n: nat): Window {
      var k := if n <= |avail| then n else |avail|;
      this.(off := off + k, avail := avail[k..])
    }

    function Append(data: seq<byte>): Window {
      this.(avail := avail + data)
    }
  }

  /** A segment held until the hole before it fills. */
  datatype Held = Held(seq_: u32, data: seq<byte>)

  function HeldBytes(ooo: seq<Held>): nat {
    if ooo == [] then 0 else |ooo[0].data| + HeldBytes(ooo[1..])
  }

  /** Index of the first held segment at or behind `next`, or `|ooo|`. */
  function FirstDue(ooo: seq<Held>, next: u32): (i: nat)
    ensures i <= |ooo|
    ensures i < |ooo| ==> SignedDiff(ooo[i].seq_, next) <= 0
    ensures forall j :: 0 <= j < i ==> SignedDiff(ooo[j].seq_, next) > 0
  {
    if ooo == [] || SignedDiff(ooo[0].seq_, next) <= 0 then 0 else 1 + FirstDue(ooo[1..], next)
  }

  function Without(ooo: seq<Held>, i: nat): seq<Held>
    requires i < |ooo|
  {
    ooo[..i] + ooo[i + 1..]
  }

  /** Unsigned wrapped distance from `next` to the nearest held segment. */
  function Nearest(ooo: seq<Held>, next: u32): u32 {
    if ooo == [] then 0
    else
      var d := Distance(next, ooo[0].seq_);
      if |ooo| == 1 then d
      else
        var d' := Nearest(ooo[1..], next);
        if d' < d then d' else d
  }

  lemma {:induction false} NearestIsLeast(ooo: seq<Held>, next: u32) returns (i: nat)
    requires ooo != []
    ensures i < |ooo| && Nearest(ooo, next) == Distance(next, ooo[i].seq_)
    ensures forall j :: 0 <= j < |ooo| ==> Nearest(ooo, next) <= Distance(next, ooo[j].seq_)
  {
    if |ooo| == 1 {
      i := 0;
    } else {
      var k := NearestIsLeast(ooo[1..], next);
      i := if Nearest(ooo[1..], next) < Distance(next, ooo[0].seq_) then k + 1 else 0;
      assert forall j :: 1 <= j < |ooo| ==> ooo[j] == ooo[1..][j - 1];
    }
  }

  datatype ReasmState = ReasmState(
    win: Window,
    nextSeq: u32,               // next absolute sequence number expected in order
    delivered: nat,             // stream offset of `nextSeq`
    ooo: seq<Held>,
    oooSince: Option<nat>,
    initialized: bool,
    sawSyn: bool,
    gaps: nat,
    bytes: nat)
  {
    function NoteSyn(s: u32): ReasmState {
      if initialized then this
      else
        var base := WrappingAdd(s, 1);
        this.(win := win.(base := base), nextSeq := base, initialized := true, sawSyn := true)
    }

    function Consume(n: nat): ReasmState {
      this.(win := win.Consume(n))
    }

    function Append(data: seq<byte>): ReasmState {
      this.(win := win.Append(data), nextSeq := WrappingAdd(nextSeq, |data|),
            delivered := delivered + |data|, bytes := bytes + |data|)
    }

    /** Deliver one held segment that is no longer ahead, if there is one. */
    function TakeDue(i: nat): ReasmState
      requires i < |ooo| && SignedDiff(ooo[i].seq_, nextSeq) <= 0
    {
      var overlap := -SignedDiff(ooo[i].seq_, nextSeq);
      var rest := this.(ooo := Without(ooo, i));
      if overlap < |ooo[i].data| then rest.Append(ooo[i].data[overlap..]) else rest
    }

    function Drain(): ReasmState
      decreases |ooo|
    {
      var i := FirstDue(ooo, nextSeq);
      if i < |ooo| then TakeDue(i).Drain()
      else this.(oooSince := if ooo == [] then None else oooSince)
    }

    /** Jump over a hole: whatever was pending before it is dropped. */
    function Skip(skip: nat): ReasmState {
      var off := delivered + skip;
      this.(gaps := gaps + 1, delivered := off, nextSeq := WrappingAdd(nextSeq, skip),
            win := Window(win.base, off, []), oooSince := None)
    }

    function ForceGap(): ReasmState {
      Skip(Nearest(ooo, nextSeq)).Drain()
    }

    function Initialize(s: u32): ReasmState {
      if initialized then this
      else this.(win := win.(base := s), nextSeq := s, initialized := true)
    }

    /** One TCP segment; the flag says that a gap was declared. */
    function Push(s: u32, data: seq<byte>, now: nat): (ReasmState, bool) {
      if data == [] then (this, false) else Initialize(s).PushReady(s, data, now)
    }

    function Hold(s: u32, data: seq<byte>, now: nat): ReasmState {
      this.(ooo := ooo + [Held(s, data)], oooSince := if oooSince.Some? then oooSince else Some(now))
    }

    function PushReady(s: u32, data: seq<byte>, now: nat): (ReasmState, bool) {
      var diff := SignedDiff(s, nextSeq);
      if diff > 0 then
        var held := Hold(s, data, now);
        if HeldBytes(held.ooo) > OOO_LIMIT then (held.ForceGap(), true) else (held, false)
      else if -diff >= |data| && diff != 0 then (this, false)
      else (Append(data[-diff..]).Drain(), false)
    }

    function CheckTimeout(now: nat): (ReasmState, bool) {
      if oooSince.Some? && now - oooSince.value > OOO_TIMEOUT_US then (ForceGap(), true) else (this, false)
    }
  }

  function NewReassembler(): ReasmState {
    ReasmState(Window(0, 0, []), 0, 0, [], None, false, false, 0, 0)
  }

  /** A segment that carries exactly the next bytes is appended. */
  lemma InOrderPush(r: ReasmState, data: seq<byte>, now: nat)
    requires r.initialized && r.ooo == [] && r.oooSince.None? && data != []
    ensures r.Push(r.nextSeq, data, now) == (r.Append(data), false)
  {
    assert data[0..] == data;
    assert SignedDiff(r.nextSeq, r.nextSeq) == 0;
  }

  lemma HeldBytesConcat(a: seq<Held>, b: seq<Held>)
    ensures HeldBytes(a + b) == HeldBytes(a) + HeldBytes(b)
  {
    if a == [] {
      assert a + b == b;
    } else {
      assert (a + b)[1..] == a[1..] + b;
      HeldBytesConcat(a[1..], b);
    }
  }

  lemma HeldBytesWithout(ooo: seq<Held>, i: nat)
    requires i < |ooo|
    ensures HeldBytes(ooo) == HeldBytes(Without(ooo, i)) + |ooo[i].data|
  {
    assert ooo == ooo[..i] + ([ooo[i]] + ooo[i + 1..]);
    HeldBytesConcat(ooo[..i], [ooo[i]] + ooo[i + 1..]);
    HeldBytesConcat(ooo[..i], ooo[i + 1..]);
  }
}
