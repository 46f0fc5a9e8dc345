/** The ring of recent packets, bounded by age and by size, and what it holds after any run. */
module CaptureRing {
  import opened Basics

  /** A captured packet: when it came, in microseconds, and its Ethernet frame. */
  datatype Packet = Packet(ts: nat, data: seq<byte>)

  function Size(q: seq<Packet>): nat {
    if q == [] then 0 else |q[0].data| + Size(q[1..])
  }

  function Cutoff(now: nat, maxAge: nat): nat {
    if now > maxAge then now - maxAge else 0
  }

  function DropOld(q: seq<Packet>, cutoff: nat): seq<Packet> {
    if q == [] || q[0].ts >= cutoff then q else DropOld(q[1..], cutoff)
  }

  function DropExcess(q: seq<Packet>, limit: nat): seq<Packet> {
    if q == [] || Size(q) <= limit then q else DropExcess(q[1..], limit)
  }

  function Pushed(q: seq<Packet>, p: Packet, limit: nat, maxAge: nat): seq<Packet> {
    DropExcess(DropOld(q + [p], Cutoff(p.ts, maxAge)), limit)
  }

  class Ring {
    var q: seq<Packet>
    var bytes: nat
    const limit: nat
    const maxAge: nat

    ghost predicate Valid()
      reads this
    {
      bytes == Size(q)
    }

    constructor (limit: nat, maxAgeSecs: nat)
      ensures Valid() && q == [] && this.limit == limit && this.maxAge == maxAgeSecs * 1_000_000
    {
      q, bytes := [], 0;
      this.limit, this.maxAge := limit, maxAgeSecs * 1_000_000;
    }

    method Push(p: Packet)
      requires Valid()
      modifies this
      ensures Valid() && q == Pushed(old(q), p, limit, maxAge)
    {
      SizeConcat(q, [p]);
      assert [p][1..] == [];
      bytes := bytes + |p.data|;
      q := q + [p];
      var cutoff := if p.ts > maxAge then p.ts - maxAge else 0;
      ghost var all := q;
      while q != []
        invariant Valid() && DropOld(q, cutoff) == DropOld(all, cutoff)
        decreases |q|
      {
        if q[0].ts >= cutoff {
          break;
        }
        bytes := bytes - |q[0].data|;
        q := q[1..];
      }
      ghost var young := q;
      while bytes > limit
        invariant Valid() && DropExcess(q, limit) == DropExcess(young, limit)
        decreases |q|
      {
        if q == [] {
          break;
        }
        bytes := bytes - |q[0].data|;
        q := q[1..];
      }
    }
  }

  /** When the oldest packet in the ring came. */
  function Oldest(q: seq<Packet>): Option<nat> {
    if q == [] then None else Some(q[0].ts)
  }

  lemma {:induction false} SizeConcat(a: seq<Packet>, b: seq<Packet>)
    ensures Size(a + b) == Size(a) + Size(b)
  {
    if a == [] {
      assert a + b == b;
    } else {
      assert (a + b)[1..] == a[1..] + b;
      SizeConcat(a[1..], b);
    }
  }

  // ----- the ring after a run ---------------------------------------------------------------

  /** The ring after every packet of the log has been pushed. */
  function After(log: seq<Packet>, limit: nat, maxAge: nat): seq<Packet> {
    if log == [] then [] else Pushed(After(log[..|log| - 1], limit, maxAge), log[|log| - 1], limit, maxAge)
  }

  /** Timestamps do not decrease. */
  predicate Chronological(log: seq<Packet>) {
    forall i, j :: 0 <= i < j < |log| ==> log[i].ts <= log[j].ts
  }

  /** Within both limits as of `now`. */
  predicate Within(q: seq<Packet>, now: nat, limit: nat, maxAge: nat) {
    Size(q) <= limit && forall p :: p in q ==> p.ts >= Cutoff(now, maxAge)
  }

  /** Dropping from the front leaves a suffix, and nothing dropped could have stayed. */
  lemma {:induction false} DropOldSuffix(q: seq<Packet>, cutoff: nat) returns (k: nat)
    ensures k <= |q| && DropOld(q, cutoff) == q[k..]
    ensures forall i :: 0 <= i < k ==> q[i].ts < cutoff
    ensures k < |q| ==> q[k].ts >= cutoff
  {
    if q == [] || q[0].ts >= cutoff {
      k := 0;
    } else {
      k := DropOldSuffix(q[1..], cutoff);
      assert forall i :: 1 <= i < k + 1 ==> q[i] == q[1..][i - 1];
      k := k + 1;
    }
  }

  lemma {:induction false} DropExcessSuffix(q: seq<Packet>, limit: nat) returns (k: nat)
    ensures k <= |q| && DropExcess(q, limit) == q[k..]
    ensures Size(q[k..]) <= limit
    ensures forall i :: 0 <= i < k ==> Size(q[i..]) > limit
  {
    if q == [] || Size(q) <= limit {
      k := 0;
      assert q[0..] == q;
    } else {
      k := DropExcessSuffix(q[1..], limit);
      assert forall i :: 1 <= i < k + 1 ==> q[i..] == q[1..][i - 1..];
      assert q[0..] == q;
      k := k + 1;
    }
  }

  /** A push leaves a suffix of ring and packet within the size limit. */
  lemma PushSuffix(log: seq<Packet>, i: nat, p: Packet, limit: nat, maxAge: nat) returns (k: nat)
    requires i <= |log|
    ensures k <= |log| + 1 && Pushed(log[i..], p, limit, maxAge) == (log + [p])[k..]
    ensures Size(Pushed(log[i..], p, limit, maxAge)) <= limit
  {
    hide Size, DropOld, DropExcess;
    var q := log[i..] + [p];
    assert q == (log + [p])[i..];
    var a := DropOldSuffix(q, Cutoff(p.ts, maxAge));
    var b := DropExcessSuffix(q[a..], limit);
    k := i + a + b;
    assert (log + [p])[i..][a..][b..] == (log + [p])[k..];
  }

  /** Whatever the timestamps, the ring is a contiguous suffix of the log within its size. */
  lemma {:induction false} RingIsSuffix(log: seq<Packet>, limit: nat, maxAge: nat) returns (k: nat)
    ensures k <= |log| && After(log, limit, maxAge) == log[k..]
    ensures Size(After(log, limit, maxAge)) <= limit
    decreases |log|
  {
    hide Pushed;
    k := 0;
    if log != [] {
      var n := |log| - 1;
      var i := RingIsSuffix(log[..n], limit, maxAge);
      k := PushSuffix(log[..n], i, log[n], limit, maxAge);
      assert log[..n] + [log[n]] == log;
    }
  }

  /** One push keeps the longest suffix of ring and packet within both limits. */
  lemma PushLongest(q: seq<Packet>, limit: nat, maxAge: nat, now: nat) returns (k: nat)
    requires q != [] && Chronological(q)
    ensures k <= |q| && DropExcess(DropOld(q, Cutoff(now, maxAge)), limit) == q[k..]
    ensures Within(q[k..], now, limit, maxAge) && forall j :: 0 <= j < k ==> !Within(q[j..], now, limit, maxAge)
  {
    hide Size, DropOld, DropExcess, Cutoff;
    var cutoff := Cutoff(now, maxAge);
    var a := DropOldSuffix(q, cutoff);
    var b := DropExcessSuffix(q[a..], limit);
    k := a + b;
    assert q[a..][b..] == q[k..];
    forall j | 0 <= j < k ensures !Within(q[j..], now, limit, maxAge) {
      if j < a {
        assert q[j] == q[j..][0] && q[j] in q[j..];
      } else {
        assert q[j..] == q[a..][j - a..];
      }
    }
    forall p | p in q[k..] ensures p.ts >= cutoff {
      var i :| k <= i < |q| && q[i] == p;
      assert q[a].ts <= q[i].ts || i == a;
    }
  }

  /** The longest suffix of `log` within both limits as of `now` starts at `k`. */
  predicate LongestFrom(log: seq<Packet>, k: nat, now: nat, limit: nat, maxAge: nat)
    requires k <= |log|
  {
    Within(log[k..], now, limit, maxAge) && forall j :: 0 <= j < k ==> !Within(log[j..], now, limit, maxAge)
  }

  lemma LongestGrows(log: seq<Packet>, i: nat, before: nat, p: Packet, limit: nat, maxAge: nat) returns (k: nat)
    requires i <= |log| && LongestFrom(log, i, before, limit, maxAge) && before <= p.ts
    requires Chronological(log + [p])
    ensures k <= |log| + 1 && Pushed(log[i..], p, limit, maxAge) == (log + [p])[k..]
    ensures LongestFrom(log + [p], k, p.ts, limit, maxAge)
  {
    hide Within;
    var all := log + [p];
    var q := log[i..] + [p];
    assert q == all[i..];
    var c := PushLongest(q, limit, maxAge, p.ts);
    k := i + c;
    assert all[i..][c..] == all[k..];
    forall j | 0 <= j < k ensures !Within(all[j..], p.ts, limit, maxAge) {
      if j < i {
        OutsideStays(log[j..], before, p, limit, maxAge);
        assert log[j..] + [p] == all[j..];
      } else {
        assert all[j..] == q[j - i..];
      }
    }
  }

  /** With timestamps in order, it is the longest suffix of the whole log within both limits. */
  lemma {:induction false} RingIsLongest(log: seq<Packet>, limit: nat, maxAge: nat) returns (k: nat)
    requires log != [] && Chronological(log)
    ensures k <= |log| && After(log, limit, maxAge) == log[k..]
    ensures LongestFrom(log, k, log[|log| - 1].ts, limit, maxAge)
    decreases |log|
  {
    hide LongestFrom, Pushed, Chronological;
    var n := |log| - 1;
    var earlier, p := log[..n], log[n];
    assert log == earlier + [p];
    if n == 0 {
      k := LongestOfOne(p, limit, maxAge);
    } else {
      ChronologicalPrefix(earlier, p);
      var i := RingIsLongest(earlier, limit, maxAge);
      k := LongestGrows(earlier, i, earlier[n - 1].ts, p, limit, maxAge);
    }
  }

  lemma LongestOfOne(p: Packet, limit: nat, maxAge: nat) returns (k: nat)
    ensures k <= 1 && Pushed([], p, limit, maxAge) == [p][k..] && LongestFrom([p], k, p.ts, limit, maxAge)
  {
    k := LongestGrows([], 0, p.ts, p, limit, maxAge);
    assert [] + [p] == [p];
  }

  lemma ChronologicalPrefix(log: seq<Packet>, p: Packet)
    requires Chronological(log + [p]) && log != []
    ensures Chronological(log) && log[|log| - 1].ts <= p.ts
  {
    assert forall i :: 0 <= i < |log| ==> (log + [p])[i] == log[i];
    assert (log + [p])[|log|] == p;
  }

  /** A suffix over a limit stays over it as the log grows. */
  lemma OutsideStays(q: seq<Packet>, before: nat, p: Packet, limit: nat, maxAge: nat)
    requires !Within(q, before, limit, maxAge) && before <= p.ts
    ensures !Within(q + [p], p.ts, limit, maxAge)
  {
    SizeConcat(q, [p]);
    if Size(q) <= limit {
      var stale :| stale in q && stale.ts < Cutoff(before, maxAge);
      assert stale in q + [p];
    }
  }
}
