/** The classic BPF compiler for port lists, its interpreter, and the proof that what it
    compiles to accepts exactly the packets it should. */
module Bpf {
  import opened Basics
  import opened Pkt

  const LD_H_ABS := 0x28
  const LD_B_ABS := 0x30
  const LD_H_IND := 0x48
  const LDX_B_MSH := 0xb1
  const JEQ_K := 0x15
  const JSET_K := 0x45
  const JA := 0x05
  const RET_K := 0x06

  const MAX_FILTER_PORTS := 60
  const DISPATCH_LEN := 5
  const V4_FIXED := 8
  const WHOLE_FRAME: u32 := 0xffff_ffff

  /** Where a jump goes before the layout is known. */
  datatype Target = Next | Accept | Drop | At(i: nat)

  datatype Pseudo = Pseudo(code: nat, k: u32, jt: Target, jf: Target)

  datatype Insn = Insn(code: nat, jt: byte, jf: byte, k: u32)

  function Ins(code: nat, k: u32): Pseudo {
    Pseudo(code, k, Next, Next)
  }

  // ----- the compiler ----------------------------------------------------------------

  function Compares(ports: seq<u16>): seq<Pseudo> {
    seq(|ports|, i requires 0 <= i < |ports| => Pseudo(JEQ_K, ports[i], Accept, Next))
  }

  function V6Start(np: nat): nat {
    DISPATCH_LEN + V4_FIXED + 2 * np
  }

  function Dispatch(np: nat): seq<Pseudo> {
    [Ins(LD_H_ABS, 12),
     Pseudo(JEQ_K, 0x0800, At(DISPATCH_LEN), Next),
     Pseudo(JEQ_K, 0x86dd, At(V6Start(np)), Next),
     Pseudo(JEQ_K, 0x8100, Accept, Next),
     Pseudo(JEQ_K, 0x88a8, Accept, Drop)]
  }

  function V4Head(): seq<Pseudo> {
    [Ins(LD_B_ABS, 23),
     Pseudo(JEQ_K, 6, Next, Drop),
     Ins(LD_H_ABS, 20),
     Pseudo(JSET_K, 0x3fff, Drop, Next),
     Ins(LDX_B_MSH, 14),
     Ins(LD_H_IND, 14)]
  }

  function V6Head(): seq<Pseudo> {
    [Ins(LD_B_ABS, 20),
     Pseudo(JEQ_K, 6, Next, Drop),
     Ins(LD_H_ABS, 54)]
  }

  /** The symbolic program, in the order the instructions are pushed. */
  function Symbolic(ports: seq<u16>): seq<Pseudo> {
    Dispatch(|ports|)
    + V4Head() + Compares(ports) + [Ins(LD_H_IND, 16)] + Compares(ports) + [Pseudo(JA, 0, Drop, Drop)]
    + V6Head() + Compares(ports) + [Ins(LD_H_ABS, 56)] + Compares(ports) + [Pseudo(JA, 0, Drop, Drop)]
    + [Ins(RET_K, WHOLE_FRAME), Ins(RET_K, 0)]
  }

  /** Distance from the instruction after `here`. */
  function Resolve(t: Target, here: nat, acceptAt: nat, dropAt: nat): int {
    (match t
     case Next => here + 1
     case Accept => acceptAt
     case Drop => dropAt
     case At(i) => i) - here - 1
  }

  /** An instruction with its jumps cast to a byte, or to 32 bits for the unconditional jump. */
  function Assemble(p: Pseudo, here: nat, acceptAt: nat, dropAt: nat): Insn {
    if p.code == JA then Insn(p.code, 0, 0, Resolve(p.jt, here, acceptAt, dropAt) % TWO32)
    else Insn(p.code, Resolve(p.jt, here, acceptAt, dropAt) % 0x100, Resolve(p.jf, here, acceptAt, dropAt) % 0x100, p.k)
  }

  function Filter(ports: seq<u16>): (prog: seq<Insn>)
    ensures |prog| == |Symbolic(ports)|
  {
    var p := Symbolic(ports);
    seq(|p|, i requires 0 <= i < |p| => Assemble(p[i], i, |p| - 2, |p| - 1))
  }

  /** `build_filter` as the source runs it, pushing instructions and then resolving them. */
  method BuildFilter(ports: seq<u16>) returns (prog: seq<Insn>)
    ensures prog == Filter(ports)
  {
    var p := PushAll(ports);
    hide Symbolic, Assemble;
    prog := [];
    for i := 0 to |p|
      invariant |prog| == i
      invariant forall j :: 0 <= j < i ==> prog[j] == Assemble(p[j], j, |p| - 2, |p| - 1)
    {
      prog := prog + [Assemble(p[i], i, |p| - 2, |p| - 1)];
    }
  }

  method PushAll(ports: seq<u16>) returns (p: seq<Pseudo>)
    ensures p == Symbolic(ports) && |p| == 20 + 4 * |ports|
  {
    p := PushBranch(Dispatch(|ports|) + V4Head(), ports, Ins(LD_H_IND, 16));
    assert |p| == V6Start(|ports|);
    p := PushBranch(p + V6Head(), ports, Ins(LD_H_ABS, 56));
    p := p + [Ins(RET_K, WHOLE_FRAME)];
    p := p + [Ins(RET_K, 0)];
  }

  /** Both port fields compared with the list, the second after `reload`, and the jump to the drop. */
  method PushBranch(p: seq<Pseudo>, ports: seq<u16>, reload: Pseudo) returns (q: seq<Pseudo>)
    ensures q == p + Compares(ports) + [reload] + Compares(ports) + [Pseudo(JA, 0, Drop, Drop)]
  {
    q := PushCompares(p, ports);
    q := q + [reload];
    q := PushCompares(q, ports);
    q := q + [Pseudo(JA, 0, Drop, Drop)];
  }

  method PushCompares(p: seq<Pseudo>, ports: seq<u16>) returns (q: seq<Pseudo>)
    ensures q == p + Compares(ports)
  {
    q := p;
    for i := 0 to |ports|
      invariant q == p + Compares(ports)[..i]
    {
      q := q + [Pseudo(JEQ_K, ports[i], Accept, Next)];
    }
  }

  // ----- the interpreter ------------------------------------------------------------------

  /** Bitwise and of two words. */
  function And(a: nat, k: nat): nat {
    if a == 0 || k == 0 then 0 else a % 2 * (k % 2) + 2 * And(a / 2, k / 2)
  }

  function Load(pkt: seq<byte>, off: nat, n: nat): Option<u32>
    requires n == 1 || n == 2
  {
    if off + n > |pkt| then None else Some(if n == 1 then pkt[off] else Be16(pkt, off))
  }

  /** Where one instruction leads: a verdict, another instruction, or nowhere. */
  datatype Outcome = Done(v: u32) | Cont(a: u32, x: u32, pc: nat) | Stuck

  /** One instruction at `pc`; a failed load drops the packet. */
  function Exec(i: Insn, pkt: seq<byte>, a: u32, x: u32, pc: nat): (o: Outcome)
    ensures o.Cont? ==> o.pc > pc
  {
    if i.code == LD_H_ABS || i.code == LD_B_ABS then
      match Load(pkt, i.k, if i.code == LD_H_ABS then 2 else 1)
      case None => Done(0)
      case Some(v) => Cont(v, x, pc + 1)
    else if i.code == LD_H_IND then
      match Load(pkt, (x + i.k) % TWO32, 2)
      case None => Done(0)
      case Some(v) => Cont(v, x, pc + 1)
    else if i.code == LDX_B_MSH then
      match Load(pkt, i.k, 1)
      case None => Done(0)
      case Some(v) => Cont(a, v % 16 * 4, pc + 1)
    else if i.code == JEQ_K then Cont(a, x, pc + 1 + if a == i.k then i.jt else i.jf)
    else if i.code == JSET_K then Cont(a, x, pc + 1 + if And(a, i.k) != 0 then i.jt else i.jf)
    else if i.code == JA then Cont(a, x, pc + 1 + i.k)
    else if i.code == RET_K then Done(i.k)
    else Stuck
  }

  /** Run from `pc`: the verdict, or `None` if the program runs off its end or meets an
      instruction it does not know. */
  function RunFrom(prog: seq<Insn>, pkt: seq<byte>, a: u32, x: u32, pc: nat): Option<u32>
    decreases |prog| - pc
  {
    if pc >= |prog| then None
    else
      match Exec(prog[pc], pkt, a, x, pc)
      case Done(v) => Some(v)
      case Cont(a', x', pc') => RunFrom(prog, pkt, a', x', pc')
      case Stuck => None
  }

  function Run(prog: seq<Insn>, pkt: seq<byte>): Option<u32> {
    RunFrom(prog, pkt, 0, 0, 0)
  }

  /** The interpreter as a loop over the accumulator, the index register and the counter. */
  method RunLoop(prog: seq<Insn>, pkt: seq<byte>) returns (r: Option<u32>)
    ensures r == Run(prog, pkt)
  {
    var a: u32, x: u32, pc: nat := 0, 0, 0;
    while pc < |prog|
      invariant RunFrom(prog, pkt, a, x, pc) == Run(prog, pkt)
      decreases |prog| - pc
    {
      var i := prog[pc];
      pc := pc + 1;
      if i.code == LD_H_ABS || i.code == LD_B_ABS {
        var v := Load(pkt, i.k, if i.code == LD_H_ABS then 2 else 1);
        if v.None? { return Some(0); }
        a := v.value;
      } else if i.code == LD_H_IND {
        var v := Load(pkt, (x + i.k) % TWO32, 2);
        if v.None? { return Some(0); }
        a := v.value;
      } else if i.code == LDX_B_MSH {
        var v := Load(pkt, i.k, 1);
        if v.None? { return Some(0); }
        x := v.value % 16 * 4;
      } else if i.code == JEQ_K {
        pc := pc + if a == i.k then i.jt else i.jf;
      } else if i.code == JSET_K {
        pc := pc + if And(a, i.k) != 0 then i.jt else i.jf;
      } else if i.code == JA {
        pc := pc + i.k;
      } else if i.code == RET_K {
        return Some(i.k);
      } else {
        return None;
      }
    }
    return None;
  }

  /** A mask of low bits is a remainder. */
  lemma {:induction false} AndMask(a: nat, n: nat)
    ensures And(a, Pow2(n) - 1) == Rem(a, Pow2(n))
  {
    var m := Pow2(n);
    if n > 0 && a > 0 {
      var h := Pow2(n - 1);
      assert m == 2 * h;
      hide Pow2, And, Rem;
      AndMask(a / 2, n - 1);
      HalfRem(a, h);
      AndOdd(a, h - 1);
      assert m - 1 == 2 * (h - 1) + 1;
    }
  }

  function Rem(a: nat, m: nat): nat
    requires m > 0
  {
    a % m
  }

  lemma AndOdd(a: nat, k: nat)
    requires a > 0
    ensures And(a, 2 * k + 1) == a % 2 + 2 * And(a / 2, k)
  {
    assert (2 * k + 1) % 2 == 1 && (2 * k + 1) / 2 == k;
  }

  lemma HalfRem(a: nat, h: nat)
    requires h > 0
    ensures Rem(a, 2 * h) == a % 2 + 2 * Rem(a / 2, h)
  {
    var q, r := a / 2 / h, a / 2 % h;
    var qh := q * h;
    assert a / 2 == qh + r;
    assert a == 2 * qh + (a % 2 + 2 * r);
    assert 2 * qh == q * (2 * h);
    MulMod(q, 2 * h, a % 2 + 2 * r);
  }

  // ----- what the filter means ---------------------------------------------------------------

  /** Unfragmented TCP over IPv4 on a listed port, the ports located by the header length. */
  predicate V4Accepts(ports: seq<u16>, pkt: seq<byte>) {
    && |pkt| >= 24 && pkt[23] == 6 && Be16(pkt, 20) % 0x4000 == 0
    && var l4 := 14 + pkt[14] % 16 * 4;
    && |pkt| >= l4 + 2
    && (Be16(pkt, l4) in ports || (|pkt| >= l4 + 4 && Be16(pkt, l4 + 2) in ports))
  }

  /** TCP directly over IPv6 on a listed port. */
  predicate V6Accepts(ports: seq<u16>, pkt: seq<byte>) {
    && |pkt| >= 56 && pkt[20] == 6
    && (Be16(pkt, 54) in ports || (|pkt| >= 58 && Be16(pkt, 56) in ports))
  }

  /** Tagged frames pass unexamined. */
  predicate Accepts(ports: seq<u16>, pkt: seq<byte>) {
    && |pkt| >= 14
    && var ethertype := Be16(pkt, 12);
    if ethertype == ETHERTYPE_IPV4 then V4Accepts(ports, pkt)
    else if ethertype == ETHERTYPE_IPV6 then V6Accepts(ports, pkt)
    else ethertype == ETHERTYPE_VLAN || ethertype == ETHERTYPE_QINQ
  }

  function Verdict(accept: bool): Option<u32> {
    Some(if accept then WHOLE_FRAME else 0)
  }

  // ----- layout ---------------------------------------------------------------------------------

  /** The jump distances of an instruction, before the cast. */
  function Jumps(ports: seq<u16>, i: nat): (int, int)
    requires i < |Symbolic(ports)|
  {
    var p := Symbolic(ports);
    (Resolve(p[i].jt, i, |p| - 2, |p| - 1), Resolve(p[i].jf, i, |p| - 2, |p| - 1))
  }

  /** Which instruction sits at `i`. */
  lemma InsnAt(ports: seq<u16>, i: nat)
    requires i < 20 + 4 * |ports|
    ensures |Symbolic(ports)| == 20 + 4 * |ports|
    ensures var np, x := |ports|, Symbolic(ports)[i];
            && (i < 5 ==> x == Dispatch(np)[i])
            && (5 <= i < 11 ==> x == V4Head()[i - 5])
            && (11 <= i < 11 + np ==> x == Compares(ports)[i - 11])
            && (i == 11 + np ==> x == Ins(LD_H_IND, 16))
            && (12 + np <= i < 12 + 2 * np ==> x == Compares(ports)[i - 12 - np])
            && (i == 12 + 2 * np ==> x == Pseudo(JA, 0, Drop, Drop))
            && (13 + 2 * np <= i < 16 + 2 * np ==> x == V6Head()[i - 13 - 2 * np])
            && (16 + 2 * np <= i < 16 + 3 * np ==> x == Compares(ports)[i - 16 - 2 * np])
            && (i == 16 + 3 * np ==> x == Ins(LD_H_ABS, 56))
            && (17 + 3 * np <= i < 17 + 4 * np ==> x == Compares(ports)[i - 17 - 3 * np])
            && (i == 17 + 4 * np ==> x == Pseudo(JA, 0, Drop, Drop))
            && (i == 18 + 4 * np ==> x == Ins(RET_K, WHOLE_FRAME)) && (i == 19 + 4 * np ==> x == Ins(RET_K, 0))
  {
  }

  /** Every conditional jump survives the cast to a byte. */
  predicate JumpsAreBytes(ports: seq<u16>) {
    forall i :: 0 <= i < |Symbolic(ports)| && Symbolic(ports)[i].code != JA && Symbolic(ports)[i].code != RET_K ==>
      0 <= Jumps(ports, i).0 <= 255 && 0 <= Jumps(ports, i).1 <= 255
  }

  /** No jump loses bits, and every jump is forward, exactly up to 60 ports: the limit is tight. */
  lemma JumpsFit(ports: seq<u16>)
    ensures JumpsAreBytes(ports) <==> |ports| <= MAX_FILTER_PORTS
  {
    InsnAt(ports, 3);
    assert Jumps(ports, 3).0 == 14 + 4 * |ports|;
    if |ports| <= MAX_FILTER_PORTS {
      forall i | 0 <= i < |Symbolic(ports)| && Symbolic(ports)[i].code != JA && Symbolic(ports)[i].code != RET_K
        ensures 0 <= Jumps(ports, i).0 <= 255 && 0 <= Jumps(ports, i).1 <= 255
      {
        InsnAt(ports, i);
      }
    }
  }

  /** Whatever the number of ports, every jump goes forward and lands inside the program. */
  lemma JumpsLandInside(ports: seq<u16>, i: nat)
    requires i < |Symbolic(ports)| && Symbolic(ports)[i].code != RET_K
    ensures 0 <= Jumps(ports, i).0 && i + 1 + Jumps(ports, i).0 < |Symbolic(ports)|
    ensures 0 <= Jumps(ports, i).1 && i + 1 + Jumps(ports, i).1 < |Symbolic(ports)|
  {
    InsnAt(ports, i);
  }

  // ----- running the compiled program -----------------------------------------------------------

  /** One instruction of the compiled program, its jumps resolved and intact. */
  lemma Fetch(ports: seq<u16>, i: nat)
    requires |ports| <= MAX_FILTER_PORTS && i < |Symbolic(ports)|
    ensures var x, y := Symbolic(ports)[i], Filter(ports)[i];
            && |Filter(ports)| == 20 + 4 * |ports|
            && y.code == x.code
            && (x.code == JA ==> y.k == Jumps(ports, i).0 % TWO32)
            && (x.code != JA ==> y.k == x.k)
            && (x.code != JA && x.code != RET_K ==> y.jt == Jumps(ports, i).0 && y.jf == Jumps(ports, i).1)
  {
    JumpsFit(ports);
    InsnAt(ports, i);
    hide Symbolic;
  }

  function Destination(t: Target, here: nat, np: nat): nat {
    match t
    case Next => here + 1
    case Accept => 18 + 4 * np
    case Drop => 19 + 4 * np
    case At(i) => i
  }

  /** The meaning of a symbolic instruction, its targets read as places, not as distances. */
  function Means(p: Pseudo, here: nat, np: nat, pkt: seq<byte>, a: u32, x: u32): Outcome {
    if p.code == LD_H_ABS || p.code == LD_B_ABS then
      match Load(pkt, p.k, if p.code == LD_H_ABS then 2 else 1)
      case None => Done(0)
      case Some(v) => Cont(v, x, here + 1)
    else if p.code == LD_H_IND then
      match Load(pkt, (x + p.k) % TWO32, 2)
      case None => Done(0)
      case Some(v) => Cont(v, x, here + 1)
    else if p.code == LDX_B_MSH then
      match Load(pkt, p.k, 1)
      case None => Done(0)
      case Some(v) => Cont(a, v % 16 * 4, here + 1)
    else if p.code == JEQ_K then Cont(a, x, Destination(if a == p.k then p.jt else p.jf, here, np))
    else if p.code == JSET_K then Cont(a, x, Destination(if And(a, p.k) != 0 then p.jt else p.jf, here, np))
    else if p.code == JA then Cont(a, x, Destination(p.jt, here, np))
    else Done(p.k)
  }

  /** The verdict from place `pc` of the compiled program. */
  function From(ports: seq<u16>, pkt: seq<byte>, a: u32, x: u32, pc: nat): Option<u32> {
    RunFrom(Filter(ports), pkt, a, x, pc)
  }

  /** Running the compiled program follows the symbolic one, instruction by instruction. */
  lemma Follows(ports: seq<u16>, pkt: seq<byte>, a: u32, x: u32, i: nat)
    requires |ports| <= MAX_FILTER_PORTS && i < 20 + 4 * |ports|
    ensures From(ports, pkt, a, x, i) ==
              match Means(Symbolic(ports)[i], i, |ports|, pkt, a, x)
              case Done(v) => Some(v)
              case Cont(a', x', pc') => From(ports, pkt, a', x', pc')
              case Stuck => None
  {
    InsnAt(ports, i);
    Fetch(ports, i);
    hide Symbolic, Filter, Exec, Means;
    Faithful(ports, pkt, a, x, i);
  }

  lemma Faithful(ports: seq<u16>, pkt: seq<byte>, a: u32, x: u32, i: nat)
    requires |ports| <= MAX_FILTER_PORTS && i < 20 + 4 * |ports|
    requires i < |Symbolic(ports)| && i < |Filter(ports)|
    ensures Exec(Filter(ports)[i], pkt, a, x, i) == Means(Symbolic(ports)[i], i, |ports|, pkt, a, x)
  {
    Fetch(ports, i);
    InsnAt(ports, i);
    hide Filter, And, Load;
    var p, np := Symbolic(ports)[i], |ports|;
    assert Jumps(ports, i).0 == Destination(p.jt, i, np) - i - 1;
    assert Jumps(ports, i).1 == Destination(p.jf, i, np) - i - 1;
    assert p.code == JA ==> 0 <= Jumps(ports, i).0 < TWO32;
    hide Symbolic, Jumps, Destination;
  }

  lemma Verdicts(ports: seq<u16>, pkt: seq<byte>, a: u32, x: u32)
    requires |ports| <= MAX_FILTER_PORTS
    ensures var np := |ports|;
            && From(ports, pkt, a, x, 18 + 4 * np) == Verdict(true)
            && From(ports, pkt, a, x, 19 + 4 * np) == Verdict(false)
            && From(ports, pkt, a, x, 12 + 2 * np) == Verdict(false)
            && From(ports, pkt, a, x, 17 + 4 * np) == Verdict(false)
  {
    var np := |ports|;
    InsnAt(ports, 18 + 4 * np);
    InsnAt(ports, 19 + 4 * np);
    InsnAt(ports, 12 + 2 * np);
    InsnAt(ports, 17 + 4 * np);
    hide Symbolic, Filter, From;
    Follows(ports, pkt, a, x, 18 + 4 * np);
    Follows(ports, pkt, a, x, 19 + 4 * np);
    Follows(ports, pkt, a, x, 12 + 2 * np);
    Follows(ports, pkt, a, x, 17 + 4 * np);
  }

  /** The four runs of port comparisons. */
  predicate CompareBlock(np: nat, start: nat) {
    start == 11 || start == 12 + np || start == 16 + 2 * np || start == 17 + 3 * np
  }

  /** A run of comparisons accepts on a listed value and otherwise falls through. */
  lemma {:induction false} RunCompares(ports: seq<u16>, pkt: seq<byte>, a: u32, x: u32, start: nat, j: nat)
    requires |ports| <= MAX_FILTER_PORTS && CompareBlock(|ports|, start) && j <= |ports|
    ensures From(ports, pkt, a, x, start + j)
         == if a in ports[j..] then Verdict(true) else From(ports, pkt, a, x, start + |ports|)
    decreases |ports| - j
  {
    hide From;
    if j < |ports| {
      InsnAt(ports, start + j);
      hide Symbolic;
      Follows(ports, pkt, a, x, start + j);
      Verdicts(ports, pkt, a, x);
      RunCompares(ports, pkt, a, x, start, j + 1);
      assert ports[j..] == [ports[j]] + ports[j + 1..];
    }
  }

  /** A load of a port field and the comparisons after it. */
  lemma RunPortTest(ports: seq<u16>, pkt: seq<byte>, a: u32, x: u32, i: nat, off: nat)
    requires |ports| <= MAX_FILTER_PORTS && CompareBlock(|ports|, i + 1) && off < TWO32
    requires i < |Symbolic(ports)| == 20 + 4 * |ports|
    requires Symbolic(ports)[i] == Ins(LD_H_ABS, off)
          || (Symbolic(ports)[i].code == LD_H_IND && off == (x + Symbolic(ports)[i].k) % TWO32)
    ensures From(ports, pkt, a, x, i) ==
              if off + 2 > |pkt| then Verdict(false)
              else if Be16(pkt, off) in ports then Verdict(true)
              else From(ports, pkt, Be16(pkt, off), x, i + 1 + |ports|)
  {
    hide From, Symbolic;
    Follows(ports, pkt, a, x, i);
    assert ports[0..] == ports;
    if off + 2 <= |pkt| { RunCompares(ports, pkt, Be16(pkt, off), x, i + 1, 0); }
  }

  /** The protocol test that opens both branches. */
  lemma RunTcpTest(ports: seq<u16>, pkt: seq<byte>, a: u32, x: u32, i: nat, off: u32)
    requires |ports| <= MAX_FILTER_PORTS && i + 1 < |Symbolic(ports)| == 20 + 4 * |ports|
    requires Symbolic(ports)[i] == Ins(LD_B_ABS, off) && Symbolic(ports)[i + 1] == Pseudo(JEQ_K, 6, Next, Drop)
    ensures From(ports, pkt, a, x, i) ==
              if off < |pkt| && pkt[off] == 6 then From(ports, pkt, 6, x, i + 2) else Verdict(false)
  {
    hide Symbolic, From, And, Be16;
    Follows(ports, pkt, a, x, i);
    if off < |pkt| {
      Follows(ports, pkt, pkt[off], x, i + 1);
      Verdicts(ports, pkt, pkt[off], x);
    }
  }

  lemma RunV6(ports: seq<u16>, pkt: seq<byte>, a: u32, x: u32)
    requires |ports| <= MAX_FILTER_PORTS
    ensures From(ports, pkt, a, x, V6Start(|ports|)) == Verdict(V6Accepts(ports, pkt))
  {
    var np := |ports|;
    InsnAt(ports, 13 + 2 * np);
    InsnAt(ports, 14 + 2 * np);
    hide Symbolic, From, Be16;
    RunTcpTest(ports, pkt, a, x, 13 + 2 * np, 20);
    RunV6Ports(ports, pkt, 6, x);
  }

  /** The IPv6 branch once the packet is known to be TCP. */
  lemma RunV6Ports(ports: seq<u16>, pkt: seq<byte>, a: u32, x: u32)
    requires |ports| <= MAX_FILTER_PORTS
    ensures From(ports, pkt, a, x, V6Start(|ports|) + 2) ==
              Verdict(|pkt| >= 56 && (Be16(pkt, 54) in ports || (|pkt| >= 58 && Be16(pkt, 56) in ports)))
  {
    hide Symbolic, From, And, Be16, Means;
    var np := |ports|;
    InsnAt(ports, 15 + 2 * np);
    InsnAt(ports, 16 + 3 * np);
    RunPortTest(ports, pkt, a, x, 15 + 2 * np, 54);
    if |pkt| >= 56 {
      RunPortTest(ports, pkt, Be16(pkt, 54), x, 16 + 3 * np, 56);
      if |pkt| >= 58 { Verdicts(ports, pkt, Be16(pkt, 56), x); }
    }
  }

  /** The IPv4 branch up to the port tests. */
  lemma RunV4Head(ports: seq<u16>, pkt: seq<byte>, a: u32, x: u32)
    requires |ports| <= MAX_FILTER_PORTS
    ensures From(ports, pkt, a, x, DISPATCH_LEN) ==
              if |pkt| >= 24 && pkt[23] == 6 && Be16(pkt, 20) % 0x4000 == 0
              then From(ports, pkt, Be16(pkt, 20), pkt[14] % 16 * 4, 10)
              else Verdict(false)
  {
    InsnAt(ports, 5);
    InsnAt(ports, 6);
    hide Symbolic, From, Be16;
    RunTcpTest(ports, pkt, a, x, 5, 23);
    if |pkt| >= 24 { RunV4Fragment(ports, pkt, 6, x); }
  }

  /** The fragment test, and the header length into the index register. */
  lemma RunV4Fragment(ports: seq<u16>, pkt: seq<byte>, a: u32, x: u32)
    requires |ports| <= MAX_FILTER_PORTS && |pkt| >= 24
    ensures From(ports, pkt, a, x, 7) ==
              if Be16(pkt, 20) % 0x4000 == 0 then From(ports, pkt, Be16(pkt, 20), pkt[14] % 16 * 4, 10)
              else Verdict(false)
  {
    InsnAt(ports, 7);
    InsnAt(ports, 8);
    InsnAt(ports, 9);
    var frag := Be16(pkt, 20);
    assert Pow2(14) == 0x4000;
    AndMask(frag, 14);
    hide Symbolic, From, And, Be16, Pow2;
    Follows(ports, pkt, a, x, 7);
    Follows(ports, pkt, frag, x, 8);
    Verdicts(ports, pkt, frag, x);
    Follows(ports, pkt, frag, x, 9);
  }

  lemma RunV4(ports: seq<u16>, pkt: seq<byte>, a: u32, x: u32)
    requires |ports| <= MAX_FILTER_PORTS
    ensures From(ports, pkt, a, x, DISPATCH_LEN) == Verdict(V4Accepts(ports, pkt))
  {
    RunV4Head(ports, pkt, a, x);
    hide From, Be16;
    if |pkt| >= 24 && pkt[23] == 6 && Be16(pkt, 20) % 0x4000 == 0 {
      RunV4Ports(ports, pkt, Be16(pkt, 20), pkt[14] % 16 * 4);
    }
  }

  /** The IPv4 branch once the index register holds the header length. */
  lemma RunV4Ports(ports: seq<u16>, pkt: seq<byte>, a: u32, l: u32)
    requires |ports| <= MAX_FILTER_PORTS && l <= 60
    ensures From(ports, pkt, a, l, 10) ==
              Verdict(|pkt| >= 16 + l && (Be16(pkt, 14 + l) in ports || (|pkt| >= 18 + l && Be16(pkt, 16 + l) in ports)))
  {
    hide Symbolic, From, Be16, Means, And;
    var np := |ports|;
    InsnAt(ports, 10);
    InsnAt(ports, 11 + np);
    RunPortTest(ports, pkt, a, l, 10, 14 + l);
    if |pkt| >= 16 + l {
      RunPortTest(ports, pkt, Be16(pkt, 14 + l), l, 11 + np, 16 + l);
      if |pkt| >= 18 + l { Verdicts(ports, pkt, Be16(pkt, 16 + l), l); }
    }
  }

  /** The compiler is correct: for every list of up to 60 ports and every packet, running the
      compiled program ends with a verdict, and accepts the whole frame if and only if the
      packet is tagged, or is unfragmented TCP, IPv4 at its header length or direct IPv6,
      on a listed port. */
  lemma FilterIsCorrect(ports: seq<u16>, pkt: seq<byte>)
    requires |ports| <= MAX_FILTER_PORTS
    ensures Run(Filter(ports), pkt) == Verdict(Accepts(ports, pkt))
  {
    InsnAt(ports, 0);
    InsnAt(ports, 1);
    InsnAt(ports, 2);
    InsnAt(ports, 3);
    InsnAt(ports, 4);
    assert Run(Filter(ports), pkt) == From(ports, pkt, 0, 0, 0);
    hide Symbolic, Filter, From, V4Accepts, V6Accepts, Run;
    Follows(ports, pkt, 0, 0, 0);
    if |pkt| >= 14 {
      var e := Be16(pkt, 12);
      Follows(ports, pkt, e, 0, 1);
      Follows(ports, pkt, e, 0, 2);
      Follows(ports, pkt, e, 0, 3);
      Follows(ports, pkt, e, 0, 4);
      RunV4(ports, pkt, e, 0);
      RunV6(ports, pkt, e, 0);
      Verdicts(ports, pkt, e, 0);
    }
  }

  // ----- against the userspace parser -------------------------------------------------------------

  /** The filter is conservative: of the frames the userspace parser accepts on a listed port,
      it drops exactly those that are untagged IPv6 with extension headers. */
  lemma FilterIsConservative(ports: seq<u16>, pkt: seq<byte>)
    requires |ports| <= MAX_FILTER_PORTS
    requires ParseEthernet(pkt).Some?
    requires ParseEthernet(pkt).value.srcPort in ports || ParseEthernet(pkt).value.dstPort in ports
    ensures Run(Filter(ports), pkt) == Verdict(true)
       <==> !(Be16(pkt, 12) == ETHERTYPE_IPV6 && pkt[20] != IPPROTO_TCP)
  {
    hide Run, Filter;
    FilterIsCorrect(ports, pkt);
    if Be16(pkt, 12) == ETHERTYPE_IPV4 {
      V4Ports(ports, pkt);
    } else if Be16(pkt, 12) == ETHERTYPE_IPV6 {
      V6Ports(ports, pkt);
    }
  }

  lemma V4Ports(ports: seq<u16>, pkt: seq<byte>)
    requires ParseEthernet(pkt).Some? && Be16(pkt, 12) == ETHERTYPE_IPV4
    requires ParseEthernet(pkt).value.srcPort in ports || ParseEthernet(pkt).value.dstPort in ports
    ensures V4Accepts(ports, pkt)
  {
    var ip := pkt[14..];
    var l := ParseIpv4(ip).value;
    assert ParseEthernet(pkt) == ParseTcp(pkt[0..6], pkt[6..12], l);
    var ihl := ip[0] % 16 * 4;
    assert l.data == pkt[14 + ihl..];
    assert pkt[23] == ip[9] && Be16(pkt, 20) == Be16(ip, 6);
    assert Be16(pkt, 14 + ihl) == Be16(l.data, 0) && Be16(pkt, 16 + ihl) == Be16(l.data, 2);
  }

  lemma V6Ports(ports: seq<u16>, pkt: seq<byte>)
    requires ParseEthernet(pkt).Some? && Be16(pkt, 12) == ETHERTYPE_IPV6
    requires ParseEthernet(pkt).value.srcPort in ports || ParseEthernet(pkt).value.dstPort in ports
    ensures V6Accepts(ports, pkt) <==> pkt[20] == IPPROTO_TCP
  {
    var ip := pkt[14..];
    assert pkt[20] == ip[6];
    if pkt[20] == IPPROTO_TCP {
      var l := ParseIpv6(ip).value;
      assert ParseEthernet(pkt) == ParseTcp(pkt[0..6], pkt[6..12], l);
      assert l.data == pkt[54..];
      assert Be16(pkt, 54) == Be16(l.data, 0) && Be16(pkt, 56) == Be16(l.data, 2);
    }
  }
}
