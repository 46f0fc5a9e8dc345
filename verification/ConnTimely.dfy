/** Arrivals that stay within both bounds of reassembly: what a direction outputs, with no
    assumption that no gap was declared. */
module ConnTimely {
  import opened Basics
  import opened HpackInt
  import opened ReassemblySpec
  import R = ReassemblyTheorems
  import T = ReassemblyTimeout
  import opened ConnSpec
  import opened ConnSegmentation
  import opened ConnArrival

  /** What the reassembler of the direction goes through: the event, then the parser's reading. */
  function ToReassembler(cb: Codebook, s: DirState, str: R.Stream, e: Event): seq<R.Event> {
    var here := match e
      case Segment(o, len, now) => R.Segment(o, len, now)
      case Tick(now) => R.Tick(now);
    var before, after := R.Apply(s.r, str, here).win.avail, Deliver(cb, s, str, e).0.r.win.avail;
    [here, R.Consume(if |before| >= |after| then |before| - |after| else 0)]
  }

  function AllToReassembler(cb: Codebook, s: DirState, str: R.Stream, events: seq<Event>): seq<R.Event>
    decreases |events|
  {
    if events == [] then []
    else ToReassembler(cb, s, str, events[0]) + AllToReassembler(cb, Deliver(cb, s, str, events[0]).0, str, events[1..])
  }

  lemma ConsumedIs(r: ReasmState, k: nat)
    requires k <= |r.win.avail|
    ensures |r.win.avail| - |r.win.Consume(k).avail| == k && r.Consume(k) == r.(win := r.win.Consume(k))
  {
  }

  lemma NothingConsumed(r: ReasmState)
    ensures r.Consume(0) == r
  {
  }

  /** One event of the direction is those two of its reassembler. */
  lemma OneEvent(cb: Codebook, s: DirState, str: R.Stream, e: Event)
    ensures var es := ToReassembler(cb, s, str, e);
            R.Apply(R.Apply(s.r, str, es[0]), str, es[1]) == Deliver(cb, s, str, e).0.r
  {
    hide Parse, ReasmState.Push, ReasmState.ForceGap, Core.OnGap, Window.Consume;
    match e
    case Segment(o, len, now) =>
      var (r', gap) := R.Receive(s.r, str, o, len, now);
      var k := ParseConsumes(cb, if gap then s.c.OnGap() else s.c, r'.win);
      ConsumedIs(r', k);
    case Tick(now) =>
      var (r', gap) := s.r.CheckTimeout(now);
      if gap {
        var k := ParseConsumes(cb, s.c.OnGap(), r'.win);
        ConsumedIs(r', k);
      } else {
        NothingConsumed(s.r);
      }
  }

  lemma TwoEvents(r: ReasmState, str: R.Stream, a: R.Event, b: R.Event, rest: seq<R.Event>)
    ensures R.Run(r, str, [a, b] + rest) == R.Run(R.Apply(R.Apply(r, str, a), str, b), str, rest)
    ensures R.WindowedRun(r, str, [a, b] + rest) <==>
              && (a.Segment? ==> R.InWindow(r, a.o, a.len))
              && (b.Segment? ==> R.InWindow(R.Apply(r, str, a), b.o, b.len))
              && R.WindowedRun(R.Apply(R.Apply(r, str, a), str, b), str, rest)
  {
    hide R.Apply, R.InWindow;
    var all := [a, b] + rest;
    assert all[1..] == [b] + rest && all[1..][1..] == rest;
    assert all[0] == a && all[1..][0] == b;
  }

  /** The reassembler of a direction runs as it would alone. */
  lemma {:induction false} ReassemblerRuns(cb: Codebook, s: DirState, str: R.Stream, events: seq<Event>)
    ensures R.Run(s.r, str, AllToReassembler(cb, s, str, events)) == DeliverAll(cb, s, str, events).0.r
    ensures Windowed(cb, s, str, events) ==> R.WindowedRun(s.r, str, AllToReassembler(cb, s, str, events))
    decreases |events|
  {
    hide Deliver, R.Apply, R.InWindow;
    if events != [] {
      var e := events[0];
      var es, s1 := ToReassembler(cb, s, str, e), Deliver(cb, s, str, e).0;
      OneEvent(cb, s, str, e);
      assert es == [es[0], es[1]];
      TwoEvents(s.r, str, es[0], es[1], AllToReassembler(cb, s1, str, events[1..]));
      ReassemblerRuns(cb, s1, str, events[1..]);
    }
  }

  /** No gap is declared exactly when the arrivals stay within both bounds. */
  lemma NoGapExactly(cb: Codebook, s: DirState, str: R.Stream, events: seq<Event>)
    requires R.Inv(s.r, str) && s.r.oooSince.None? && Windowed(cb, s, str, events)
    ensures DeliverAll(cb, s, str, events).0.r.gaps == s.r.gaps
       <==> T.WithinBounds(s.r, str, AllToReassembler(cb, s, str, events))
  {
    hide DeliverAll, AllToReassembler, R.Inv, R.Run, R.WindowedRun, Windowed, T.WithinBounds;
    ReassemblerRuns(cb, s, str, events);
    T.NoGapExactly(s.r, str, AllToReassembler(cb, s, str, events));
  }

  /** From the SYN, within both bounds and while the parser stays in step: the output is that of
      parsing, in one piece, the longest contiguous prefix that arrived. */
  lemma TimelyOutput(cb: Codebook, c: Core, syn: u32, str: R.Stream, events: seq<Event>)
    requires Unstarted(c) && Windowed(cb, FromSyn(c, syn), str, events)
    requires T.WithinBounds(R.FromSyn(syn), str, AllToReassembler(cb, FromSyn(c, syn), str, events))
    requires InStep(c, DeliverAll(cb, FromSyn(c, syn), str, events).0.c)
    ensures var (s, out) := DeliverAll(cb, FromSyn(c, syn), str, events);
            && R.IsFrontier(Arrived(events), s.r.delivered)
            && Parse(cb, c, Window(WrappingAdd(syn, 1), 0, R.Slice(str, 0, s.r.delivered))) == (s.c, s.r.win, out)
  {
    R.FromSynStarts(syn, str);
    assert R.FromSyn(syn).oooSince.None? && R.FromSyn(syn).gaps == 0;
    hide DeliverAll, AllToReassembler, R.Inv, R.FromSyn, Windowed, T.WithinBounds, Parse;
    NoGapExactly(cb, FromSyn(c, syn), str, events);
    OutputIsParseOfPrefix(cb, c, syn, str, events);
  }
}
