/** A table carried over by a snapshot loses its flags. Exactly when the decoder restored from
    it still never shows a wrong header. */
module HpackSnapshot {
  import opened Basics
  import opened HpackInt
  import opened HpackTable
  import opened HpackSpec
  import opened HpackReference
  import opened HpackNeverWrong

  /** The decoder a snapshot of `d` gives back. */
  function Restored(d: DecState): DecState {
    FromEntries(SnapshotEntries(d.table), d.maxSize)
  }

  /** A block that refers to entry `i` of the dynamic table and nothing else. */
  function IndexBlock(i: nat): seq<byte> {
    WriteInt(STATIC_LEN + 1 + i, 7, 0x80)
  }

  lemma IndexBlockReads(i: nat)
    requires STATIC_LEN + 1 + i < TWO32
    ensures IndexBlock(i) != [] && IndexBlock(i)[0] >= 0x80
    ensures ReadInt(IndexBlock(i), 7) == Ok((STATIC_LEN + 1 + i, []))
  {
    assert Pow2(7) == 128;
    hide ReadInt, Groups;
    IntRoundTrip(STATIC_LEN + 1 + i, 7, 0x80, []);
    assert IndexBlock(i) + [] == IndexBlock(i);
  }

  lemma IndexedEntry(cb: Codebook, d: DecState, i: nat)
    requires i < |d.table| && STATIC_LEN + 1 + i < TWO32
    ensures Decode(cb, d, IndexBlock(i)) == (d, Ok([d.table[i]]))
  {
    IndexBlockReads(i);
    hide ReadInt, WriteInt, IndexBlock;
    assert DecodeStep(cb, d, IndexBlock(i)) == (d, Ok(([d.table[i]], [])));
    hide DecodeStep;
    assert Decode(cb, d, []) == (d, Ok([]));
    assert [d.table[i]] + [] == [d.table[i]];
  }

  lemma PeersEntry(cb: Codebook, p: Peer, i: nat)
    requires i < |p.table| && STATIC_LEN + 1 + i < TWO32
    ensures p.Decode(cb, IndexBlock(i)) == Some((p, [p.table[i]]))
  {
    IndexBlockReads(i);
    hide ReadInt, WriteInt, IndexBlock;
    assert ReadRep(cb, IndexBlock(i)) == Ok((Indexed(STATIC_LEN + 1 + i), []));
    hide ReadRep;
    assert p.Decode(cb, []) == Some((p, []));
    assert [p.table[i]] + [] == [p.table[i]];
  }

  /** A bad index, or a list of the same length, every field the peer's or flagged unknown. */
  predicate Honest(r: Result<seq<Field>>, theirs: seq<Field>) {
    match r
    case Err(e) => e.BadIndex?
    case Ok(ours) => FieldsAgree(ours, theirs)
  }

  /** No block the peer accepts is shown wrong. */
  ghost predicate HonestOnAll(cb: Codebook, d: DecState, p: Peer) {
    forall b :: p.Decode(cb, b).Some? ==> Honest(Decode(cb, d, b).1, p.Decode(cb, b).value.1)
  }

  /** Every entry equals the peer's once its flags are dropped, as far as both tables go. */
  predicate EntriesAgree(ours: seq<Field>, theirs: seq<Field>) {
    forall i :: 0 <= i < |ours| && i < |theirs| ==> SnapshotEntries(ours)[i] == theirs[i]
  }

  /** A decoder never shows a wrong header on a block the peer accepts if and only if the two
      tables agree on every index both hold. */
  lemma HonestExactly(cb: Codebook, d: DecState, p: Peer)
    requires STATIC_LEN + |p.table| < TWO32 && (d.overLimit ==> d.table == [])
    ensures HonestOnAll(cb, d, p) <==> Agree(d.table, p.table)
  {
    hide Decode, Peer.Decode;
    if Agree(d.table, p.table) {
      forall b | p.Decode(cb, b).Some? ensures Honest(Decode(cb, d, b).1, p.Decode(cb, b).value.1) {
        NeverWrongBlock(cb, d, p, b);
      }
    } else {
      var i :| 0 <= i < |d.table| && i < |p.table| && !FieldAgrees(d.table[i], p.table[i]);
      IndexedEntry(cb, d, i);
      PeersEntry(cb, p, i);
      assert !FieldAgrees([d.table[i]][0], [p.table[i]][0]);
      assert !Honest(Decode(cb, d, IndexBlock(i)).1, p.Decode(cb, IndexBlock(i)).value.1);
    }
  }

  /** Restored from a snapshot, a decoder never shows a wrong header if and only if every
      entry it carried equals the peer's once its flags are dropped. */
  lemma SnapshotIsHonest(cb: Codebook, d: DecState, p: Peer)
    requires STATIC_LEN + |p.table| < TWO32
    ensures HonestOnAll(cb, Restored(d), p) <==> EntriesAgree(d.table, p.table)
  {
    hide Decode, Peer.Decode, HonestOnAll;
    HonestExactly(cb, Restored(d), p);
  }

  /** For that it suffices that no entry is flagged, the tables agreeing as they always do. */
  lemma UnflaggedEntriesAgree(d: DecState, p: Peer)
    requires Agree(d.table, p.table)
    requires forall f :: f in d.table ==> !f.unknown && !f.sensitive
    ensures EntriesAgree(d.table, p.table)
  {
    forall i | 0 <= i < |d.table| && i < |p.table| ensures SnapshotEntries(d.table)[i] == p.table[i] {
      assert d.table[i] in d.table;
    }
  }

  /** Never a wrong header, through a snapshot: over every run before it, from whatever start,
      and every run after it, provided that the entries agreed where it was taken. */
  lemma NeverWrongThroughSnapshot(cb: Codebook, w: World, before: seq<Event>, after: seq<Event>, block: seq<byte>)
    requires FreshStart(w) && Run(cb, w, before).Some?
    requires var w1 := Run(cb, w, before).value; EntriesAgree(w1.ours.table, w1.peer.table)
    requires var w1 := Run(cb, w, before).value; var w2 := Run(cb, World(Restored(w1.ours), w1.peer), after);
             w2.Some? && w2.value.peer.Decode(cb, block).Some?
    ensures var w1 := Run(cb, w, before).value; var w2 := Run(cb, World(Restored(w1.ours), w1.peer), after).value;
            Honest(Decode(cb, w2.ours, block).1, w2.peer.Decode(cb, block).value.1)
  {
    hide Run, Decode, Peer.Decode;
    var w1 := Run(cb, w, before).value;
    var w0 := World(Restored(w1.ours), w1.peer);
    assert Consistent(w0);
    ConsistentAlongRun(cb, w0, after);
    var w2 := Run(cb, w0, after).value;
    NeverWrongBlock(cb, w2.ours, w2.peer, block);
  }

  /** A snapshot of a decoder joined midway may carry a placeholder name as if it were real: after
      one unresolved name inserted, an exact decoder, and a restored one that shows the peer a
      header it never sent. */
  lemma PlaceholderLosesItsFlag(cb: Codebook)
    ensures var d := DecState([], 64, false, 0, true, USIZE_MAX, false);
            var p := Peer([Field([], [], false, false)], 64);
            var rep := Literal(Indexing, 62, [], []);
            && p.Apply(cb, rep).Some?
            && var d', p' := ApplyOurs(cb, d, rep).0, p.Apply(cb, rep).value.0;
               d'.IsExact() && !EntriesAgree(d'.table, p'.table)
  {
    var d := DecState([], 64, false, 0, true, USIZE_MAX, false);
    var f := Placeholder(62);
    assert Decimal(62) == [54, 50] by { assert Decimal(6) == [54]; }
    assert FieldSize(f) == 50;
    assert [f][1..] == [];
    assert d.Insert(f).table == [f];
  }
}
