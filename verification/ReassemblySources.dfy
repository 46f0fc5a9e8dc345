/** Where the bytes of a window came from: whatever arrives, in whatever order and through
    gaps, every byte waiting to be parsed stands at its place in some segment received. */
module ReassemblySources {
  import opened Basics
  import opened ReassemblySpec

  /** Does the segment carry byte `b` at absolute sequence number `at`? */
  predicate Carries(h: Held, at: u32, b: byte) {
    var m := Distance(h.seq_, at);
    m < |h.data| && h.data[m] == b
  }

  /** Byte `b` at `at` came in one of the segments of `pool`. */
  ghost predicate FromPool(pool: set<Held>, at: u32, b: byte) {
    exists h :: h in pool && Carries(h, at, b)
  }

  ghost predicate WindowFromPool(w: Window, pool: set<Held>) {
    forall j :: 0 <= j < |w.avail| ==> FromPool(pool, WrappingAdd(w.base, w.off + j), w.avail[j])
  }

  /** The next expected sequence number is the one behind the window. */
  predicate Aligned(r: ReasmState) {
    && r.delivered == r.win.off + |r.win.avail| && r.nextSeq == WrappingAdd(r.win.base, r.delivered)
    && (!r.initialized ==> r.delivered == 0 && r.ooo == [])
  }

  ghost predicate Pooled(r: ReasmState, pool: set<Held>) {
    && Aligned(r) && WindowFromPool(r.win, pool)
    && forall h :: h in r.ooo ==> h in pool && |h.data| < TWO32
  }

  lemma CarriesAt(h: Held, d: nat)
    requires d < |h.data| < TWO32
    ensures Carries(h, WrappingAdd(h.seq_, d), h.data[d])
  {
    DistanceOfShift(h.seq_, d);
  }

  lemma DistanceOfShift(a: u32, d: nat)
    requires d < TWO32
    ensures Distance(a, WrappingAdd(a, d)) == d
  {
  }

  /** Appending the tail of a segment that continues the window. */
  lemma AppendFromPool(w: Window, pool: set<Held>, h: Held, d: nat)
    requires WindowFromPool(w, pool) && h in pool && d <= |h.data| < TWO32
    requires d < |h.data| ==> WrappingAdd(w.base, w.off + |w.avail|) == WrappingAdd(h.seq_, d)
    ensures WindowFromPool(w.Append(h.data[d..]), pool)
  {
    hide Carries, WrappingAdd;
    var w', n := w.Append(h.data[d..]), |w.avail|;
    forall j | 0 <= j < |w'.avail| ensures FromPool(pool, WrappingAdd(w.base, w.off + j), w'.avail[j]) {
      if j < n {
        assert FromPool(pool, WrappingAdd(w.base, w.off + j), w.avail[j]);
      } else {
        WrappingAddAssoc(w.base, w.off + n, j - n);
        WrappingAddAssoc(h.seq_, d, j - n);
        CarriesAt(h, d + (j - n));
      }
    }
  }

  lemma AppendPooled(r: ReasmState, pool: set<Held>, h: Held, d: nat)
    requires Pooled(r, pool) && r.initialized && h in pool && d <= |h.data| < TWO32
    requires d < |h.data| ==> r.nextSeq == WrappingAdd(h.seq_, d)
    ensures Pooled(r.Append(h.data[d..]), pool)
  {
    hide Carries, WrappingAdd, WindowFromPool;
    AppendFromPool(r.win, pool, h, d);
    WrappingAddAssoc(r.win.base, r.delivered, |h.data[d..]|);
  }

  lemma TakeDuePooled(r: ReasmState, pool: set<Held>, i: nat)
    requires Pooled(r, pool) && r.initialized && i < |r.ooo| && SignedDiff(r.ooo[i].seq_, r.nextSeq) <= 0
    ensures Pooled(r.TakeDue(i), pool) && r.TakeDue(i).initialized && r.TakeDue(i).win.base == r.win.base
  {
    hide Carries, WindowFromPool, SignedDiff, WrappingAdd;
    var h := r.ooo[i];
    var rest := r.(ooo := Without(r.ooo, i));
    assert forall k :: k in rest.ooo ==> k in r.ooo;
    var overlap := -SignedDiff(h.seq_, r.nextSeq);
    ShiftBack(h.seq_, r.nextSeq);
    if overlap < |h.data| { AppendPooled(rest, pool, h, overlap); }
  }

  lemma {:induction false} DrainPooled(r: ReasmState, pool: set<Held>)
    requires Pooled(r, pool) && r.initialized
    ensures Pooled(r.Drain(), pool) && r.Drain().initialized && r.Drain().win.base == r.win.base
    decreases |r.ooo|
  {
    hide WindowFromPool, Carries;
    var i := FirstDue(r.ooo, r.nextSeq);
    if i < |r.ooo| {
      TakeDuePooled(r, pool, i);
      DrainPooled(r.TakeDue(i), pool);
    }
  }

  lemma SkipPooled(r: ReasmState, pool: set<Held>, skip: nat)
    requires Pooled(r, pool) && r.initialized
    ensures Pooled(r.Skip(skip), pool)
  {
    hide WrappingAdd, Carries;
    WrappingAddAssoc(r.win.base, r.delivered, skip);
  }

  lemma InitializePooled(r: ReasmState, pool: set<Held>, s: u32)
    requires Pooled(r, pool)
    ensures Pooled(r.Initialize(s), pool) && (r.initialized ==> r.Initialize(s) == r)
  {
  }

  lemma WidenPool(r: ReasmState, pool: set<Held>, wide: set<Held>)
    requires Pooled(r, pool) && pool <= wide
    ensures Pooled(r, wide)
  {
    hide Carries;
    forall j | 0 <= j < |r.win.avail| ensures FromPool(wide, WrappingAdd(r.win.base, r.win.off + j), r.win.avail[j]) {
      assert FromPool(pool, WrappingAdd(r.win.base, r.win.off + j), r.win.avail[j]);
    }
  }

  /** One segment, whichever branch it takes. */
  lemma PushPooled(r: ReasmState, pool: set<Held>, s: u32, data: seq<byte>, now: nat)
    requires Pooled(r, pool) && 0 < |data| < TWO32
    ensures var r' := r.Push(s, data, now).0;
            && Pooled(r', pool + {Held(s, data)}) && r'.initialized
            && (r.initialized ==> r'.win.base == r.win.base) && (!r.initialized ==> r'.win.base == s)
  {
    var wide, h := pool + {Held(s, data)}, Held(s, data);
    WidenPool(r, pool, wide);
    InitializePooled(r, wide, s);
    var i := r.Initialize(s);
    hide WindowFromPool, Carries;
    ReadyPooled(i, wide, h, now);
  }

  lemma ReadyPooled(r: ReasmState, pool: set<Held>, h: Held, now: nat)
    requires Pooled(r, pool) && r.initialized && h in pool && 0 < |h.data| < TWO32
    ensures var r' := r.PushReady(h.seq_, h.data, now).0;
            Pooled(r', pool) && r'.initialized && r'.win.base == r.win.base
  {
    hide Pooled, SignedDiff, WrappingAdd, HeldBytes, ReasmState.Drain, ReasmState.Append, ReasmState.Hold, ReasmState.ForceGap;
    var diff := SignedDiff(h.seq_, r.nextSeq);
    if diff > 0 {
      HoldPooled(r, pool, h, now);
    } else if -diff < |h.data| || diff == 0 {
      DeliverPooled(r, pool, h);
    }
  }

  lemma HoldPooled(r: ReasmState, pool: set<Held>, h: Held, now: nat)
    requires Pooled(r, pool) && r.initialized && h in pool && |h.data| < TWO32
    ensures var held := r.Hold(h.seq_, h.data, now);
            && Pooled(held, pool) && held.initialized && held.win.base == r.win.base
            && Pooled(held.ForceGap(), pool) && held.ForceGap().initialized && held.ForceGap().win.base == r.win.base
  {
    hide SignedDiff, WrappingAdd, WindowFromPool, Carries, ReasmState.Drain;
    var held := r.Hold(h.seq_, h.data, now);
    assert Pooled(held, pool);
    SkipPooled(held, pool, Nearest(held.ooo, held.nextSeq));
    DrainPooled(held.Skip(Nearest(held.ooo, held.nextSeq)), pool);
  }

  lemma DeliverPooled(r: ReasmState, pool: set<Held>, h: Held)
    requires Pooled(r, pool) && r.initialized && h in pool && |h.data| < TWO32
    requires var d := -SignedDiff(h.seq_, r.nextSeq); d >= 0 && (d < |h.data| || d == 0)
    ensures var r' := r.Append(h.data[-SignedDiff(h.seq_, r.nextSeq)..]).Drain();
            Pooled(r', pool) && r'.initialized && r'.win.base == r.win.base
  {
    hide Pooled, SignedDiff, WrappingAdd, ReasmState.Drain;
    var d := -SignedDiff(h.seq_, r.nextSeq);
    ShiftBack(h.seq_, r.nextSeq);
    AppendPooled(r, pool, h, d);
    DrainPooled(r.Append(h.data[d..]), pool);
  }

  /** From the distance of a segment behind the expected position to that position. */
  lemma ShiftBack(s: u32, next: u32)
    ensures next == WrappingAdd(s, -SignedDiff(s, next))
  {
    var d := SignedDiff(s, next);
    WrappingAddAssoc(next, d, -d);
  }

  lemma ConsumePooled(r: ReasmState, pool: set<Held>, k: nat)
    requires Pooled(r, pool) && k <= |r.win.avail|
    ensures Pooled(r.(win := r.win.Consume(k)), pool)
  {
    hide FromPool, WrappingAdd;
    var w' := r.win.Consume(k);
    forall j | 0 <= j < |w'.avail| ensures FromPool(pool, WrappingAdd(w'.base, w'.off + j), w'.avail[j]) {
      assert FromPool(pool, WrappingAdd(r.win.base, r.win.off + (k + j)), r.win.avail[k + j]);
    }
  }
}
