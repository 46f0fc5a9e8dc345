/** The stateless literal encoder and its round trip through the tolerant decoder. */
module HpackEncode {
  import opened Basics
  import opened HpackInt
  import opened HpackTable
  import opened HpackSpec

  function EncodeField(f: Field): seq<byte> {
    [if f.sensitive then 0x10 else 0x00] + WriteString(f.name) + WriteString(f.value)
  }

  function EncodeLiteral(fields: seq<Field>): seq<byte> {
    if fields == [] then [] else EncodeField(fields[0]) + EncodeLiteral(fields[1..])
  }

  /** `encode_literal` as the source runs it, filling one output vector. */
  method EncodeLiteralLoop(fields: seq<Field>) returns (out: seq<byte>)
    ensures out == EncodeLiteral(fields)
  {
    out := [];
    for i := 0 to |fields|
      invariant out + EncodeLiteral(fields[i..]) == EncodeLiteral(fields)
    {
      var f := fields[i];
      assert fields[i..][1..] == fields[i + 1..];
      ghost var tail := EncodeLiteral(fields[i + 1..]);
      assert out + (EncodeField(f) + tail) == out + EncodeField(f) + tail;
      ghost var before := out;
      out := out + [if f.sensitive then 0x10 else 0x00];
      out := WriteStringLoop(out, f.name);
      out := WriteStringLoop(out, f.value);
      assert out == before + EncodeField(f);
    }
  }

  /** What a reader sees of a field: the `unknown` marker does not travel. */
  function Shown(f: Field): Field {
    f.(unknown := false)
  }

  function ShownAll(fields: seq<Field>): (r: seq<Field>)
    ensures |r| == |fields|
    ensures forall i :: 0 <= i < |fields| ==> r[i] == Shown(fields[i])
  {
    seq(|fields|, i requires 0 <= i < |fields| => Shown(fields[i]))
  }

  /** The strings the integer coder can carry: below 2^35 + 127 bytes. */
  predicate Encodable(f: Field) {
    |f.name| < Pow2(35) + 127 && |f.value| < Pow2(35) + 127
  }

  predicate AllEncodable(fields: seq<Field>) {
    forall f :: f in fields ==> Encodable(f)
  }

  lemma FieldRoundTrip(cb: Codebook, d: DecState, f: Field, rest: seq<byte>)
    ensures DecodeStep(cb, d, EncodeField(f) + rest)
         == (d, if Encodable(f) then Ok(([Shown(f)], rest)) else Err(IntOverflow))
  {
    var b := EncodeField(f) + rest;
    Pow2Values();
    assert b == [if f.sensitive then 0x10 else 0x00] + (WriteString(f.name) + (WriteString(f.value) + rest));
    assert b[1..] == WriteString(f.name) + (WriteString(f.value) + rest);
    assert ReadInt(b, 4) == Ok((0, b[1..]));
    StringRoundTrip(cb, f.name, WriteString(f.value) + rest);
    StringRoundTrip(cb, f.value, rest);
  }

  lemma DecodeOneField(cb: Codebook, d: DecState, f: Field, rest: seq<byte>)
    ensures Decode(cb, d, EncodeField(f) + rest)
         == if !Encodable(f) then (d, Err(IntOverflow)) else
              var (d', r) := Decode(cb, d, rest);
              (d', if r.Ok? then Ok([Shown(f)] + r.value) else r)
  {
    FieldRoundTrip(cb, d, f, rest);
  }

  lemma AllEncodableCons(fields: seq<Field>)
    requires fields != []
    ensures AllEncodable(fields) <==> Encodable(fields[0]) && AllEncodable(fields[1..])
    ensures ShownAll(fields) == [Shown(fields[0])] + ShownAll(fields[1..])
  {
    assert fields == [fields[0]] + fields[1..];
  }

  /** From any decoder state whatever, a re-encoded field list decodes to the same fields
      and leaves the decoder untouched; a string beyond the coder's range is reported. */
  lemma {:induction false} StatelessRoundTrip(cb: Codebook, d: DecState, fields: seq<Field>)
    ensures Decode(cb, d, EncodeLiteral(fields))
         == (d, if AllEncodable(fields) then Ok(ShownAll(fields)) else Err(IntOverflow))
  {
    if fields != [] {
      DecodeOneField(cb, d, fields[0], EncodeLiteral(fields[1..]));
      StatelessRoundTrip(cb, d, fields[1..]);
      AllEncodableCons(fields);
    }
  }
}
