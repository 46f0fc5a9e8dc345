/** The primitive codings of RFC 7541 section 5: prefix integers and strings. */
module HpackInt {
  import opened Basics

  datatype HpackError = Truncated | IntOverflow | ZeroIndex | BadIndex(idx: nat) | Huffman
  datatype Result<+T> = Ok(value: T) | Err(error: HpackError)

  /** What the code takes from outside: the static table of RFC 7541 Appendix A and the
      third-party Huffman decoder. Every theorem holds for all of them. */
  datatype CodebookFields = Codebook(fixed: seq<(seq<byte>, seq<byte>)>, huffman: seq<byte> -> Option<seq<byte>>)
  type Codebook = c: CodebookFields | |c.fixed| == STATIC_LEN
    witness Codebook(seq(STATIC_LEN, _ => ([], [])), _ => None)

  const STATIC_LEN := 61

  // ----- integers ---------------------------------------------------------

  function ReadInt(b: seq<byte>, n: nat): (r: Result<(nat, seq<byte>)>)
    ensures r.Ok? ==> |r.value.1| < |b|
  {
    if b == [] then Err(Truncated)
    else
      var max := Pow2(n) - 1;
      var v := b[0] % (max + 1);
      if v < max then Ok((v, b[1..])) else ReadGroups(b[1..], v, 0)
  }

  /** The continuation loop of `read_int`: seven bits a byte, least significant first. */
  function ReadGroups(b: seq<byte>, v: nat, shift: nat): (r: Result<(nat, seq<byte>)>)
    ensures r.Ok? ==> |r.value.1| < |b|
  {
    if b == [] then Err(Truncated)
    else if shift > 28 then Err(IntOverflow)
    else
      var v' := v + b[0] % 128 * Pow2(shift);
      if v' > USIZE_MAX then Err(IntOverflow)
      else if b[0] < 128 then Ok((v', b[1..]))
      else ReadGroups(b[1..], v', shift + 7)
  }

  function WriteInt(v: nat, n: nat, flags: byte): seq<byte>
    requires flags + Pow2(n) <= 256
  {
    var max := Pow2(n) - 1;
    if v < max then [flags + v] else [flags + max] + Groups(v - max)
  }

  function Groups(v: nat): seq<byte> {
    if v >= 128 then [v % 128 + 128] + Groups(v / 128) else [v]
  }

  /** `read_int` as the source runs it. */
  method ReadIntLoop(b: seq<byte>, n: nat) returns (r: Result<(nat, seq<byte>)>)
    ensures r == ReadInt(b, n)
  {
    if b == [] {
      return Err(Truncated);
    }
    var max := Pow2(n) - 1;
    var v: nat, rest := b[0] % (max + 1), b[1..];
    if v < max {
      return Ok((v, rest));
    }
    var shift: nat := 0;
    while true
      invariant ReadInt(b, n) == ReadGroups(rest, v, shift)
      decreases |rest|
    {
      if rest == [] {
        return Err(Truncated);
      }
      var c := rest[0];
      if shift > 28 {
        return Err(IntOverflow);
      }
      v := v + c % 128 * Pow2(shift);
      rest := rest[1..];
      if v > USIZE_MAX {
        return Err(IntOverflow);
      }
      shift := shift + 7;
      if c < 128 {
        return Ok((v, rest));
      }
    }
  }

  /** `write_int` as the source runs it, appending to `out`. */
  method WriteIntLoop(out: seq<byte>, v: nat, n: nat, flags: byte) returns (out': seq<byte>)
    requires flags + Pow2(n) <= 256
    ensures out' == out + WriteInt(v, n, flags)
  {
    var max := Pow2(n) - 1;
    if v < max {
      return out + [flags + v];
    }
    out' := out + [flags + max];
    var w: nat := v - max;
    hide Pow2;
    while w >= 128
      invariant out' + Groups(w) == out + ([flags + max] + Groups(v - max))
    {
      ConcatAssoc(out', [w % 128 + 128], Groups(w / 128));
      out' := out' + [w % 128 + 128];
      w := w / 128;
    }
    out' := out' + [w];
  }

  lemma ConcatAssoc(a: seq<byte>, b: seq<byte>, c: seq<byte>)
    ensures a + (b + c) == a + b + c
  {
  }

  lemma Pow2Add(a: nat, b: nat)
    ensures Pow2(a + b) == Pow2(a) * Pow2(b)
  {
    if a > 0 {
      Pow2Add(a - 1, b);
      assert Pow2(a + b) == 2 * (Pow2(a - 1) * Pow2(b)) == 2 * Pow2(a - 1) * Pow2(b);
    }
  }

  lemma Pow2Mono(a: nat, b: nat)
    requires a <= b
    ensures Pow2(a) <= Pow2(b)
  {
    if a < b { Pow2Mono(a, b - 1); }
  }

  lemma Pow2Values()
    ensures Pow2(0) == 1 && Pow2(4) == 16 && Pow2(5) == 32 && Pow2(6) == 64 && Pow2(7) == 128 && Pow2(8) == 256
    ensures Pow2(28) == 0x1000_0000 && Pow2(35) == 0x8_0000_0000
  {
    Pow2Add(14, 14);
    Pow2Add(28, 7);
    assert Pow2(14) == 0x4000;
  }

  /** One group of the continuation: `w` splits into its low seven bits and the rest. */
  lemma SplitGroup(w: nat, p: nat)
    ensures w * p == w % 128 * p + w / 128 * (128 * p)
    ensures w % 128 * p <= 127 * p
  {
    Distribute(w % 128, w / 128, p);
  }

  lemma Distribute(lo: nat, hi: nat, p: nat)
    ensures (lo + 128 * hi) * p == lo * p + hi * (128 * p)
    ensures lo < 128 ==> lo * p <= 127 * p
  {
  }

  /** The decoder reads back what the encoder's continuation bytes say, as long as they
      fit in the groups left; otherwise it reports overflow. */
  lemma {:induction false} GroupsRoundTrip(w: nat, v: nat, shift: nat, rest: seq<byte>)
    requires shift % 7 == 0 && shift <= 35 && v < 256 + 2 * Pow2(shift)
    ensures ReadGroups(Groups(w) + rest, v, shift)
         == if shift <= 28 && w < Pow2(35 - shift) then Ok((v + w * Pow2(shift), rest)) else Err(IntOverflow)
    decreases 35 - shift
  {
    hide Pow2;
    if shift <= 28 {
      var b, p := Groups(w) + rest, Pow2(shift);
      var lo, hi := w % 128, w / 128;
      GroupBounds(w, shift);
      assert b[0] % 128 == lo;
      var v' := v + lo * p;
      if w < 128 {
        assert b[1..] == rest;
      } else {
        assert b[1..] == Groups(hi) + rest;
        GroupsRoundTrip(hi, v', shift + 7, rest);
      }
    }
  }

  /** The arithmetic of one group: no overflow of the word, and the bound carries over. */
  lemma GroupBounds(w: nat, shift: nat)
    requires shift % 7 == 0 && shift <= 28
    ensures var p := Pow2(shift);
            && w * p == w % 128 * p + w / 128 * Pow2(shift + 7)
            && w % 128 * p <= 127 * p && Pow2(shift + 7) == 128 * p && p <= 0x1000_0000
            && 128 <= Pow2(35 - shift)
            && (w < Pow2(35 - shift) <==> if shift == 28 then w < 128 else w / 128 < Pow2(28 - shift))
  {
    hide Pow2;
    Pow2Values();
    Pow2Mono(shift, 28);
    Pow2Add(7, shift);
    Pow2Add(7, 28 - shift);
    Pow2Mono(0, 28 - shift);
    SplitGroup(w, Pow2(shift));
  }

  /** Section 5.1 of RFC 7541, with the bound the code really has: five continuation bytes.
      The whole u32 range lies below it for every prefix width. */
  lemma {:induction false} IntRoundTrip(v: nat, n: nat, flags: byte, rest: seq<byte>)
    requires 1 <= n <= 8 && flags % Pow2(n) == 0 && flags + Pow2(n) <= 256
    ensures ReadInt(WriteInt(v, n, flags) + rest, n)
         == if v < Pow2(35) + Pow2(n) - 1 then Ok((v, rest)) else Err(IntOverflow)
    ensures v < TWO32 ==> v < Pow2(35) + Pow2(n) - 1
  {
    hide Pow2, Groups, ReadGroups;
    var max := Pow2(n) - 1;
    var b := WriteInt(v, n, flags) + rest;
    Pow2Values();
    Pow2Mono(n, 8);
    LowBits(flags, n, if v < max then v else max);
    if v < max {
      assert b[1..] == rest;
    } else {
      assert b[1..] == Groups(v - max) + rest;
      GroupsRoundTrip(v - max, max, 0, rest);
    }
  }

  lemma LowBits(flags: nat, n: nat, v: nat)
    requires 1 <= n <= 8 && flags % Pow2(n) == 0 && v < Pow2(n)
    ensures (flags + v) % Pow2(n) == v
  {
    hide Pow2;
    var q, m := flags / Pow2(n), Pow2(n);
    assert flags == q * m;
    MulMod(q, m, v);
  }

  // ----- strings ----------------------------------------------------------

  function ReadString(cb: Codebook, b: seq<byte>): (r: Result<(seq<byte>, seq<byte>)>)
    ensures r.Ok? ==> |r.value.1| < |b|
  {
    if b == [] then Err(Truncated)
    else match ReadInt(b, 7)
      case Err(e) => Err(e)
      case Ok((len, rest)) =>
        if len > |rest| then Err(Truncated)
        else if b[0] < 128 then Ok((rest[..len], rest[len..]))
        else match cb.huffman(rest[..len])
          case None => Err(Huffman)
          case Some(s) => Ok((s, rest[len..]))
  }

  function WriteString(s: seq<byte>): seq<byte> {
    WriteInt(|s|, 7, 0) + s
  }

  method WriteStringLoop(out: seq<byte>, s: seq<byte>) returns (out': seq<byte>)
    ensures out' == out + WriteString(s)
  {
    out' := WriteIntLoop(out, |s|, 7, 0);
    out' := out' + s;
  }

  /** A string short enough for the integer coder round-trips, and only such a string does. */
  lemma StringRoundTrip(cb: Codebook, s: seq<byte>, rest: seq<byte>)
    ensures ReadString(cb, WriteString(s) + rest)
         == if |s| < Pow2(35) + 127 then Ok((s, rest)) else Err(IntOverflow)
  {
    var b := WriteString(s) + rest;
    assert Pow2(7) == 128;
    assert b == WriteInt(|s|, 7, 0) + (s + rest);
    IntRoundTrip(|s|, 7, 0, s + rest);
    assert b[0] < 128;
    if |s| < Pow2(35) + 127 {
      assert (s + rest)[..|s|] == s && (s + rest)[|s|..] == rest;
    }
  }
}
