# h2 tap and rebuild: a verified model

The repository follows HTTP/2 connections it may have joined in the middle. A daemon (`h2tapd`)
reassembles TCP, frames HTTP/2 and decodes HPACK, keeps a ring of recent packets, and can write a
capture that starts with the ring together with a snapshot of every HPACK table. A rebuilder
(`h2rebuild`) reads such a capture, seeded from the snapshot, and writes a normalized one in which
every header block is a stateless literal. This project models that engine in Dafny and proves
what it is for.

- Never a wrong header. Of a decoder: for every block it is given and the peer accepts, whatever was
  missed before, a bad index or a list of the same length, every field the peer's or flagged
  unknown. Of a direction: for every header list the peer completes, nothing shown or such a list,
  and for an exact direction the list itself, provided that it reads from a boundary of the
  peer's and no frame that carries a header block is too long to buffer. Without either
  proviso it does show wrong headers, and both cases are given.
- Exact means that we hold all the peer holds, under the guards stated with it.
- The rebuilder continues where the daemon was, from a snapshot and the capture after it.
- The rebuilt capture says what the original said.
- Nothing that arrives is lost while no gap is declared, and a gap is declared exactly when one of the
  two bounds of reassembly is passed, told from the times and lengths of what arrived.

Where the code falls short of its own account, the exact condition is proved instead.

## How it is organised

Each stateful layer comes twice: as a value with functions on it (`...Spec` files), about which the
theorems are proved, and as a mutable class or loop in the form the program has, every method of which
is proved to have exactly the effect the function gives.

| layer | values and functions | mutable form | theorems |
|---|---|---|---|
| integers, strings and representations of HPACK | `HpackInt` | `HpackInt` (loops) | `HpackInt`, `HpackWire` |
| tolerant HPACK decoder | `HpackTable`, `HpackSpec` | `HpackDecoder` | `HpackReference` (the peer), `HpackNeverWrong`, `HpackUnresolved`, `HpackExact`, `HpackGain`, `HpackShadow`, `HpackLimits`, `HpackSnapshot` |
| literal encoder | `HpackEncode` | `HpackEncode` (loop) | `HpackEncode` |
| TCP reassembly | `ReassemblySpec` | `Reassembly` | `ReassemblyTheorems`, `ReassemblyTimeout`, `ReassemblySources` |
| frames | `Frame` | `Frame` (loops) | `Frame`, `FrameWire` |
| one direction | `ConnSpec` | `Connection` | `ConnSegmentation`, `ConnArrival`, `ConnTimely`, `ConnBoundary`, `ConnPlaced`, `ConnShown`, `ConnTwins`, `ConnLifted`, `ConnHandoff`, `ConnHandoffExact`, `ConnHandoffRuns`, `ConnHonest`, `ConnHonestLimits` |
| packets | `Pkt` | `Pkt` (loops) | `Pkt`, `PktReceived` |
| rebuilder | `RebuildSpec`, `RebuildPackets`, `RebuildWire` | the same (loops) | `RebuildReadBack`, `RebuildSources`, `RebuildConversation`, `RebuildTheorem`, `RebuildWire` |
| ring and tracker | `CaptureRing`, `TrackerSpec` | `CaptureRing`, `DaemonTracker` | `CaptureRing`, `TrackerCapacity`, `TrackerCoverage`, `TrackerStream`, `TrackerLimits`, `CaptureHandoff` |
| kernel filter | `Bpf` | `Bpf` (loops) | `Bpf` |

Conventions. `byte`, `u16` and `u32` are subset types and wrap-around is written out
(`WrappingAdd`, `SignedDiff`). Offsets and counters of 64 bits are natural numbers. Rust's `Result`
and `Option` are datatypes. The static table's contents and the Huffman decoder are a parameter,
`Codebook`, shared by our decoder and the peer's: 61 fixed entries and a partial function on bytes.
Time is a parameter of every operation that reads the clock.

## Where the code does less than its comments say

Each of these is a lemma, with the concrete case or the exact condition.

- A frame position recorded in a snapshot is not always a frame boundary
  (`crates/h2core/src/conn.rs:185-190`): a daemon that throws payloads away may be inside one.
  `ConnBoundary.StopsOnBoundary` says when it is one, `ConnBoundary.SnapshotInsidePayload` gives a case.
- Snapshottable (`crates/h2core/src/conn.rs:194-196`) is not enough for a snapshot to hand over. It
  is if and only if nothing is left to discard, the preface is past, and no entry is flagged
  (`ConnHandoffExact.HandsOverExactly`): a snapshot drops the flag of a placeholder name, and the
  decoder restored from it shows no wrong header if and only if every entry equals the peer's
  without its flags (`HpackSnapshot.SnapshotIsHonest`).
- A header frame of more than a million bytes is dropped without poisoning or reset
  (`crates/h2core/src/conn.rs:285-303`). From then on the direction is honest if and only if our table
  still agrees with the peer's (`ConnHonestLimits.DroppedBlockExactly`); in
  `ConnHonestLimits.HugeFrameMisleads` it does not, and a trusted direction shows a header that
  was never sent.
- Resync may adopt a boundary that only looks like one (`crates/h2core/src/conn.rs:448-488`), and a body
  is then shown as a header list (`ConnHonestLimits.LookalikeMisleads`). It adopts an offset exactly when
  every earlier one is rejected and this one accepted (`ConnHonestLimits.AdoptsExactly`).
- A HEADERS frame that breaks into an open promise shows that promise's id as its own
  (`crates/h2core/src/conn.rs:343-359`); otherwise it shows none (`ConnShown.PromisedMark`).
- `exact` may be set by an oversize entry while the capacity is a guess (`crates/h2core/src/hpack.rs:293-298`); it is
  then right if and only if the entry was too big for the peer too
  (`HpackLimits.OversizeEntryWhileGuessing`).
- An exact table need not equal the peer's: a size update that raises a guessed capacity leaves us
  holding entries the peer dropped (`HpackLimits.RaisedGuess`, `HpackLimits.ExactNeedNotBeEqual`).
  What holds, on runs that respect the guards of `HpackExact.ExactnessIsSound`, is that we hold
  everything the peer holds.
- A placeholder name has the wrong length, so sizes drift once it is inserted
  (`HpackLimits.UnresolvedNameBreaksExactness`). Exactness gained by an insertion is then right if
  and only if the peer's entry and as many of its older ones as we hold exceed its capacity
  (`HpackShadow.GainedExactnessIsRight`); it is always right, up to flagged entries, while no
  placeholder is longer than the name it stands for (`HpackShadow.ExactnessUpToFlags`).
- The snapshot's coverage test (`crates/h2tapd/src/tracker.rs:248-253`) overlooks packets that share
  the ring's oldest timestamp and segments that were held for a hole when bytes began to wait
  (`TrackerLimits.EqualTimestampsEscape`, `TrackerLimits.HeldSegmentEscapes`); it is right if and only
  if none of those brought a pending byte that is nowhere else in the ring
  (`TrackerCoverage.CoveredIffNothingOverlooked`).
- A capture that begins with a stale retransmission may miss bytes between it and the snapshot
  point. The rebuilder gets past that point if and only if it does not; otherwise it emits nothing
  (`CaptureHandoff.CaptureContinues`).
- A direction of a new connection of which nothing was captured yet already counts as usable, and
  its snapshot says framing restarts at sequence number zero (`TrackerLimits.UnstartedIsUsable`).
- A synthesized packet too long for its 16-bit IP length reads back wrong: exactly the packets of
  `Pkt.LengthFits` round-trip. The rebuilder accepts any segment size, so its theorem asks for at
  most 65 495 bytes.
- The kernel filter drops IPv6 with extension headers, which userspace parses; that is the only
  frame it drops that userspace would take (`Bpf.FilterIsConservative`).

## Model

| member | source | states |
|---|---|---|
| HpackInt.IntRoundTrip | crates/h2core/src/hpack.rs:407-432 | For every prefix width and every value, reading what was written gives the value and exactly the bytes behind it up to 2^35 + 2^n - 2, and overflow from there on; every 32-bit value lies below the bound. |
| HpackInt.GroupsRoundTrip | crates/h2core/src/hpack.rs:414-431 | The continuation bytes alone, from any group on: read back if they fit in the groups left, overflow otherwise. |
| HpackInt.StringRoundTrip | crates/h2core/src/hpack.rs:435-448 | A written string reads back exactly when its length is within the integer coder's range; otherwise overflow is reported. |
| HpackInt.ReadIntLoop | crates/h2core/src/hpack.rs:407-432 | The reading loop computes the function the round trip is about, on every input, malformed ones included. |
| HpackInt.WriteIntLoop | crates/h2core/src/hpack.rs:470-483 | The writing loop appends exactly the encoding the round trip is about. |
| HpackWire.TextRoundTrip | crates/h2core/src/hpack.rs:435-448 | A string literal, raw or Huffman-coded, reads as what the peer meant by it; one that does not decode, or is too long for the integer coder, is refused with its own error. |
| HpackWire.RepRoundTrip | crates/h2core/src/hpack.rs:336-403 | Each of the five representations of RFC 7541 section 6, written with its own flags and prefix width, its name by index or as a string of either coding, reads back as itself, or is refused for its first unreadable part. |
| HpackWire.ReferenceReadsAnyEncoder | crates/h2core/src/hpack.rs:331-403 | Whatever forms and codings an encoder chooses, and wherever it changes its table size, the reference decoder gets its fields back and ends with its table. |
| HpackWire.ExactReadsAnyEncoder | crates/h2core/src/hpack.rs:331-403 | So does ours once exact, unless the block negotiates a table over the limit. |
| HpackWire.AgreeingReadsAnyEncoder | crates/h2core/src/hpack.rs:8-21 | Short of that, with tables that agree, every field is the encoder's or flagged, or an index is refused. |
| HpackWire.LookupsAre | crates/h2core/src/hpack.rs:308-317 | An index counts through the static table and then the dynamic one, newest first. |
| HpackWire.InsertShifts | crates/h2core/src/hpack.rs:288-304 | An entry that fits takes the lowest dynamic index, every older one still held moves up by one, and what is held fits. |
| HpackTable.FitIsLongest | crates/h2core/src/hpack.rs:257-273 | The rule of RFC 7541 section 4: what is kept fits, and every prefix that fits is contained in it. |
| HpackTable.PopKeepsFit | crates/h2core/src/hpack.rs:257-273 | Dropping the oldest entry of a table that is too big does not change what will be kept. |
| HpackDecoder.Decoder.NewPartial | crates/h2core/src/hpack.rs:137-148 | Joined midway: empty, inexact, capacity a guess. |
| HpackDecoder.Decoder.NewExact | crates/h2core/src/hpack.rs:152-160 | From the first byte: empty, exact, capacity known. |
| HpackDecoder.Decoder.FromEntries | crates/h2core/src/hpack.rs:164-176 | From a snapshot: its entries in order, their total size, exact. |
| HpackDecoder.Decoder.ResetPartial | crates/h2core/src/hpack.rs:184-188 | The table is forgotten, capacity and limits kept. |
| HpackDecoder.Decoder.Evict | crates/h2core/src/hpack.rs:257-273 | The loop from the back leaves the longest prefix that fits, with `size` its total; exactness is gained exactly when an entry went and the capacity is known. |
| HpackDecoder.Decoder.RecheckExact | crates/h2core/src/hpack.rs:275-286 | Exactness by saturation, only with a known capacity and a tracked table. |
| HpackDecoder.Decoder.EnforceLimit | crates/h2core/src/hpack.rs:212-218 | A capacity beyond the limit empties the table and gives it up. |
| HpackDecoder.Decoder.Resize | crates/h2core/src/hpack.rs:248-255 | A size update: the longest prefix within the new capacity, then limit and saturation. |
| HpackDecoder.Decoder.ApplyPeerCapacity | crates/h2core/src/hpack.rs:241-246 | An announced capacity is noted, and applied only when it lowers ours. |
| HpackDecoder.Decoder.Insert | crates/h2core/src/hpack.rs:288-304 | The whole new state after an insertion, the oversize entry and the table given up included. |
| HpackDecoder.Decoder.Resolve | crates/h2core/src/hpack.rs:308-327 | An index is found, refused when the table is exact, or replaced by a counted placeholder. |
| HpackDecoder.Decoder.Decode | crates/h2core/src/hpack.rs:331-378 | The loop over a block yields fields or error and the whole new state of the decoder, on every input. |
| HpackReference.StepIsReadThenApply | crates/h2core/src/hpack.rs:336-376 | One turn of that loop is a reading of bytes that does not depend on the table, shared with the peer, followed by an effect on it. |
| HpackNeverWrong.NeverWrongStep | crates/h2core/src/hpack.rs:257-327 | With tables that agree on every index both hold, a representation the peer accepts gives a bad index or the peer's field, or one flagged unknown, and the tables still agree. |
| HpackNeverWrong.NeverWrongBlock | crates/h2core/src/hpack.rs:331-404 | The same for a whole block: a list of equal length, every field right or flagged. |
| HpackNeverWrong.NeverAWrongHeader | crates/h2core/src/hpack.rs:8-21 | For a decoder, over every run of blocks given to it, losses followed by a reset, capacity changes on either side and track limits, for each block the peer accepts: a bad index, or a list of the same length in which every field equals the peer's or is flagged unknown. |
| HpackUnresolved.UnresolvedCounts | crates/h2core/src/hpack.rs:319-327 | Over every block, accepted or not, the counter grows by the number of representations that refer to an entry our table does not hold when they are read. |
| HpackUnresolved.NoMissIsRight | crates/h2core/src/hpack.rs:331-404 | A block with no such reference, read with tables that agree and nothing flagged in ours, gives exactly the peer's fields and leaves nothing flagged, even while the table is not known to be complete. |
| HpackUnresolved.PlaceholderNames | crates/h2core/src/hpack.rs:319-327 | A placeholder is flagged, empty, and names its index in digits that read back as it. |
| HpackExact.SaturatedCovers | crates/h2core/src/hpack.rs:275-285 | Why saturation proves anything: with no room for even an empty entry, a comparable table of the same capacity holds nothing we do not. |
| HpackExact.InsertCoupled | crates/h2core/src/hpack.rs:288-304 | Inserting on both sides keeps the coupling, and exactness is not lost. |
| HpackExact.ResizeCoupled | crates/h2core/src/hpack.rs:248-273 | Resizing on both sides keeps the coupling; exactness is lost only to the track limit. |
| HpackExact.CoupledBlock | crates/h2core/src/hpack.rs:331-378 | A guarded block decodes and keeps the coupling. |
| HpackExact.ExactBlock | crates/h2core/src/hpack.rs:331-378 | An exact decoder is the reference decoder on any block the peer accepts: same fields, nothing unresolved, still exact, unless the block negotiates a table over the limit. |
| HpackExact.ExactnessIsSound | crates/h2core/src/hpack.rs:14-21 | Over every guarded run from any of the three starts: whenever exact, by whichever route, we hold all the peer holds and decode as it does; with no guessed capacity raised, the tables are equal. |
| HpackGain.InsertGainsExactly | crates/h2core/src/hpack.rs:257-304 | When exactness begins: after an insertion a decoder with a known capacity is exact if and only if, whatever older entries the peer had, it can now hold nothing but what we have seen; while the capacity is a guess only an oversize entry makes it so. |
| HpackGain.ResizeGainsExactly | crates/h2core/src/hpack.rs:248-286 | The same after a size update within our limit. |
| HpackShadow.KeepsAsMany | crates/h2core/src/hpack.rs:257-286 | With entries no larger than the peer's, we keep at least as many as it does if we had as many, or dropped one of ours, or have no room left for even an empty one. |
| HpackShadow.GainedExactnessIsRight | crates/h2core/src/hpack.rs:288-304 | An insertion that leaves us exact is right, that is the peer holds no more entries than we do, if and only if its new entry and as many of its older ones as we hold exceed its capacity. |
| HpackShadow.ResizeGainIsRight | crates/h2core/src/hpack.rs:248-286 | A size update leaves the peer with no more entries than us if and only if as many of the peer's as we keep, and one more, exceed the new capacity. |
| HpackShadow.InsertShadowed | crates/h2core/src/hpack.rs:288-304 | Inserting a placeholder for a longer name keeps the coupling by length and up to flagged entries, and exactness is not lost. |
| HpackShadow.ExactUpToFlags | crates/h2core/src/hpack.rs:331-378 | An exact decoder with placeholders in its table meets no bad index and no new placeholder on any block the peer accepts; every field is the peer's or flagged. |
| HpackShadow.ExactnessUpToFlags | crates/h2core/src/hpack.rs:352-357 | Over every run in which no placeholder inserted is longer than the name it stands for: whenever exact, we hold an entry for every one of the peer's, and decode up to flags as it does. |
| HpackLimits.OversizeEntryWhileGuessing | crates/h2core/src/hpack.rs:293-298 | An oversize entry makes a guessing decoder exact; the claim is right if and only if the entry was too big for the peer as well. |
| HpackLimits.RaisedGuess | crates/h2core/src/hpack.rs:248-255 | After a raise of a guessed capacity we hold only the peer's entries if and only if what we keep would have fitted its old capacity. |
| HpackLimits.ExactNeedNotBeEqual | crates/h2core/src/hpack.rs:190-192 | A run that ends exact with an entry the peer does not hold. |
| HpackLimits.UnresolvedNameBreaksExactness | crates/h2core/src/hpack.rs:352-357 | One unresolved name inserted, and an exact decoder refuses an index the peer accepts. |
| HpackSnapshot.HonestExactly | crates/h2core/src/hpack.rs:331-404 | A decoder shows no wrong header on any block the peer accepts if and only if the two tables agree on every index both hold. |
| HpackSnapshot.SnapshotIsHonest | crates/h2core/src/hpack.rs:164-176 | A decoder restored from a snapshot shows no wrong header on any block the peer accepts if and only if every entry carried equals the peer's once its flags are dropped. |
| HpackSnapshot.UnflaggedEntriesAgree | crates/h2core/src/hpack.rs:164-176 | For that it suffices that no entry carried was flagged. |
| HpackSnapshot.NeverWrongThroughSnapshot | crates/h2core/src/hpack.rs:164-176 | Never a wrong header over every run before a snapshot and every run after it, if the entries agreed where it was taken. |
| HpackSnapshot.PlaceholderLosesItsFlag | crates/h2core/src/hpack.rs:319-327 | An exact decoder whose snapshot carries a placeholder as if it were the peer's entry. |
| HpackEncode.EncodeLiteralLoop | crates/h2core/src/hpack.rs:458-468 | The encoding loop writes exactly what the round trip is about. |
| HpackEncode.StatelessRoundTrip | crates/h2core/src/hpack.rs:454-468 | From any decoder state whatever, the re-encoded list decodes to the same fields with sensitivity kept and leaves the decoder untouched; a string out of range is reported. |
| Reassembly.Reassembler.NoteSyn | crates/h2core/src/reassembly.rs:77-85 | The first SYN fixes the base, a later one changes nothing. |
| Reassembly.Reassembler.Consume | crates/h2core/src/reassembly.rs:109-117 | The window loses its first bytes and moves; compaction does not show. |
| Reassembly.Reassembler.Push | crates/h2core/src/reassembly.rs:121-154 | The whole new state after a segment, and whether a gap was declared. |
| Reassembly.Reassembler.DrainOoo | crates/h2core/src/reassembly.rs:174-200 | The nested loops deliver the held segments that are due, in the order found. |
| Reassembly.Reassembler.FindNearest | crates/h2core/src/reassembly.rs:207-215 | The distance to the nearest held segment. |
| Reassembly.Reassembler.ForceGap | crates/h2core/src/reassembly.rs:204-228 | A gap: the hole is skipped, what was pending is dropped, the rest drained. |
| Reassembly.Reassembler.CheckTimeout | crates/h2core/src/reassembly.rs:158-165 | A gap after two seconds with segments held, nothing otherwise. |
| ReassemblySpec.NearestIsLeast | crates/h2core/src/reassembly.rs:207-215 | It is the least unsigned distance, and some held segment has it. |
| ReassemblyTheorems.Safety | crates/h2core/src/reassembly.rs:92-228 | In every reachable state, through gaps and wrap: available bytes are the stream's, the next sequence number is that of the delivered offset, every held segment is a slice strictly ahead, the offset never moves back and every run with a gap moved it forward. |
| ReassemblyTheorems.ForceGapTracks | crates/h2core/src/reassembly.rs:204-228 | A gap strictly advances, to the earliest held segment, and completeness starts over there. |
| ReassemblyTheorems.PushTracks | crates/h2core/src/reassembly.rs:121-154 | A segment without a gap keeps delivered and held bytes together exactly what arrived. |
| ReassemblyTheorems.Complete | crates/h2core/src/reassembly.rs:121-200 | With no gap, what is delivered is exactly the longest contiguous prefix the arrived segments cover. |
| ReassemblyTheorems.OrderIrrelevant | crates/h2core/src/reassembly.rs:121-200 | Two arrival orders of the same segments deliver up to the same offset, and what both still have waiting is equal byte for byte. |
| ReassemblyTheorems.PushAppends | crates/h2core/src/reassembly.rs:121-172 | Without a gap a segment only adds the newly delivered stream bytes at the end of the window. |
| ReassemblyTimeout.TimerIsPeriod | crates/h2core/src/reassembly.rs:121-165 | Over every run, the timer runs exactly while segments have been held without a break, neither emptied nor a gap, and shows the time of the event that put the first of them aside. |
| ReassemblyTimeout.TickGapExactly | crates/h2core/src/reassembly.rs:158-165 | A tick declares a gap if and only if segments have been held without a break for more than two seconds, by the times of the events. |
| ReassemblyTimeout.SegmentGapExactly | crates/h2core/src/reassembly.rs:144-152 | A segment declares one if and only if it is put aside and the held total passes 2^20. |
| ReassemblyTimeout.NoGapExactly | crates/h2core/src/reassembly.rs:121-165 | A run has no gap if and only if every event of it finds both bounds kept. |
| ReassemblyTimeout.CompleteWithinBounds | crates/h2core/src/reassembly.rs:121-165 | From the SYN and within both bounds, exactly the longest contiguous prefix that arrived is delivered, with no assumption about gaps. |
| ReassemblyTimeout.BriefRunIsComplete | crates/h2core/src/reassembly.rs:14-17 | In particular when no more than 2^20 bytes come in all and no tick comes more than two seconds after a segment. |
| ReassemblySources.PushPooled | crates/h2core/src/reassembly.rs:121-228 | Whatever arrives, in order or not, through gaps and wrap, every byte waiting stands at its sequence number in some segment received, and so does everything held. |
| Frame.HeaderRoundTrip | crates/h2core/src/frame.rs:57-74 | A written header parses back if and only if its length has 24 bits and its stream id 31; whatever follows is ignored. |
| Frame.SettingsTableSizeLoop | crates/h2core/src/frame.rs:139-154 | The value of the last whole entry with identifier 1, none if there is none or in an acknowledgement. |
| Frame.LastTableSizeIsLast | crates/h2core/src/frame.rs:139-154 | What the walk over the entries ends with is the value of the last one with identifier 1. |
| Frame.CheckFrameChainLoop | crates/h2core/src/frame.rs:193-211 | The chain walk with its three verdicts. |
| Frame.TrueBoundaryNotBad | crates/h2core/src/frame.rs:182-211 | A true boundary of plausible frames is never rejected, however much of it is there. |
| Frame.ChainExactly | crates/h2core/src/frame.rs:193-214 | The verdict by the number of frames that chain: accepted with all that are wanted, or with enough when the bytes run out; more needed when they run out earlier; rejected when a header that is not plausible comes first. |
| Frame.ChainStopsOnce | crates/h2core/src/frame.rs:193-214 | These cases exclude each other: a chain stops in one place, for one reason. |
| FrameWire.FragmentRoundTrip | crates/h2core/src/frame.rs:95-119 | For any padding of up to 255 bytes, priority, promised id and fragment, laid out as the type and the flags ask, what is left after stripping is exactly the fragment. |
| FrameWire.PromisedRoundTrip | crates/h2core/src/conn.rs:338-359 | And the promised id comes out whatever the reserved bit, padded or not. |
| FrameWire.RefusedExactly | crates/h2core/src/frame.rs:95-119 | A payload is refused exactly when it is too short for its parts. |
| FrameWire.LaidOut | crates/h2core/src/frame.rs:95-119 | Every other payload is laid out from some parts, and their fragment is what comes out. |
| FrameWire.PlausibleExactly | crates/h2core/src/frame.rs:162-178 | A header is plausible if and only if some frame legal by its type, written part by part, carries it. |
| FrameWire.LegalRunIsBoundary | crates/h2core/src/frame.rs:193-214 | Wherever the capture stops in a run of legal frames, the start of the first is a boundary. |
| FrameWire.LegalRunIsNotRejected | crates/h2core/src/frame.rs:193-214 | So no chain check rejects it. |
| ConnSpec.StepProgress | crates/h2core/src/conn.rs:212-314 | Every turn of the parse loop that goes on uses up bytes or, failing that, a pending seek, an expected preface or a lost boundary, so the loop ends. |
| ConnSegmentation.ParseAppend | crates/h2core/src/conn.rs:170-314 | While no boundary is lost, parsing a and then b gives the frames, blocks and final state of parsing both at once. |
| ConnSegmentation.InStepPrefix | crates/h2core/src/conn.rs:212-314 | A parser in step over more bytes was in step over the first of them. |
| ConnArrival.OutputIsParseOfPrefix | crates/h2core/src/conn.rs:170-314 | Over every run of segments and timer ticks with no gap and no lost boundary: frames, blocks and state are those of parsing, in one piece, the longest contiguous prefix that arrived. |
| ConnArrival.ArrivalOrderIrrelevant | crates/h2core/src/conn.rs:170-182 | However the same bytes are cut, duplicated and reordered: same frames, same blocks, same parser and decoder state. |
| ConnArrival.OutputFromFirst | crates/h2core/src/conn.rs:170-314 | The same for a direction that takes its base from its first segment, whatever its parser waits for, a snapshot point included. |
| ConnTimely.NoGapExactly | crates/h2core/src/conn.rs:170-183 | The same for a direction, whose parser reads between the events: no gap if and only if the arrivals stay within both bounds. |
| ConnTimely.TimelyOutput | crates/h2core/src/conn.rs:170-183 | Within both bounds and in step, the output is that of parsing in one piece the longest contiguous prefix that arrived. |
| ConnBoundary.StopsOnBoundary | crates/h2core/src/conn.rs:185-190 | From a boundary on and in step: position plus `discard` is a boundary again, and the position itself is one if and only if nothing is left to discard. |
| ConnBoundary.SnapshotInsidePayload | crates/h2core/src/conn.rs:185-196 | A snapshottable direction whose recorded position is no boundary. |
| ConnBoundary.ScanFindsLeast | crates/h2core/src/conn.rs:454-473 | The scan stops at the least offset the chain check does not reject. |
| ConnBoundary.ResyncKeepsBoundaries | crates/h2core/src/conn.rs:448-488 | Resync never passes a real boundary, adopts the least offset not rejected, and trimming the window never drops a real boundary. |
| ConnPlaced.FramesStand | crates/h2core/src/conn.rs:275-313 | Over every parse, each frame shown stands at the offset and sequence number it names, header and payload, one after the other with no overlap. |
| ConnHonest.FrameTie | crates/h2core/src/conn.rs:316-436 | Beside a conforming peer with the same block open and a table that agrees, one frame: the same block open again, the tables agreeing again, and a completed header list shown right or not at all. |
| ConnHonest.ParseTie | crates/h2core/src/conn.rs:212-314 | From a true boundary, on whatever a conforming peer sends with no header frame too long to buffer: every header list it completes is shown right or not at all, in order, and the parser never loses its place; from an exact direction, every list is the peer's and marked exact. |
| ConnHonest.PieceTie | crates/h2core/src/conn.rs:170-314 | The same for the next piece of the stream, however it is cut, a payload half thrown away included. |
| ConnHonest.RegainTie | crates/h2core/src/conn.rs:198-210 | The same after a loss, once resync adopts a boundary of the peer's between blocks. |
| ConnHonest.NeverWrongAlong | crates/h2core/src/conn.rs:170-436 | Never a wrong header over every guarded run of bytes, capacities, limits and losses; strictly, the peer's own lists. |
| ConnHonest.NeverAWrongHeaderShown | crates/h2core/src/conn.rs:114-145 | The same from the first byte against an empty table, or from a boundary found midway against any. |
| ConnHonestLimits.DroppedBlockExactly | crates/h2core/src/conn.rs:285-303 | A header frame too long to buffer is dropped with the table and an open block left as they were; from then on the direction is honest on every block the peer accepts if and only if our table agrees with the peer's after it. |
| ConnHonestLimits.OversizeMisleads | crates/h2core/src/conn.rs:285-303 | If that block changed the peer's entry i, the next reference to it is shown as our old entry, unflagged and unpoisoned. |
| ConnHonestLimits.HugeFrameMisleads | crates/h2core/src/conn.rs:285-303 | Such a block, and a trusted, exact, snapshottable direction that it misleads. |
| ConnHonestLimits.AdoptsExactly | crates/h2core/src/conn.rs:448-488 | Resync adopts offset k if and only if the chain check rejects every offset before k and accepts k. |
| ConnHonestLimits.LookalikeMisleads | crates/h2core/src/conn.rs:448-488 | Bytes of a body that a direction without its boundary shows as a header list, where the peer sent none. |
| ConnShown.MarksAre | crates/h2core/src/conn.rs:386-436 | The marks of a block: its frame's stream and end, the number of references into entries we do not hold, and exact if and only if there are none and the table is known to be complete. |
| ConnShown.ExactIsRight | crates/h2core/src/conn.rs:396-435 | A block shown as exact is the peer's, field for field, if the tables agreed before it and ours held nothing flagged. |
| ConnShown.OpenStartsAfresh | crates/h2core/src/conn.rs:338-367 | A frame that breaks into an open block starts a new one: nothing of the old block is left. |
| ConnShown.PrefaceIsOptional | crates/h2core/src/conn.rs:257-268 | The preface is skipped where it stands, and costs nothing where it does not. |
| ConnShown.NotShownCostsTrust | crates/h2core/src/conn.rs:338-384 | A header frame is shown, or leaves its block open, or poisons the direction and forgets its table: nothing malformed, out of place or undecodable passes quietly. |
| ConnShown.KindsAreRight | crates/h2core/src/conn.rs:406-424 | Over every run of a direction, gaps and resynchronisation included: of the blocks shown, the first of each stream is its headers and every later one, until one ends the stream, its trailers, while no more than 65 536 streams are left open. |
| ConnShown.PromisedMark | crates/h2core/src/conn.rs:343-359 | A promise in one frame shows its own promised stream; a HEADERS frame shows none, unless it breaks into an open promise, whose id it then shows. |
| ConnTwins.FramedIdentically | crates/h2core/src/conn.rs:212-314 | From the same state on the same bytes, keeping payloads or not gives the same headers, offsets and decoded blocks; the one that discards is at most one frame ahead, its position plus `discard` being the end of that frame. |
| ConnTwins.AlikeBlocks | crates/h2core/src/conn.rs:262-313 | Being a frame ahead never means being a header block ahead. |
| ConnHandoff.AlwaysLive | crates/h2core/src/conn.rs:157-205 | What every run keeps, of any direction: no seek, no stray block, capacity within the limit; and from the first byte: capacity known, and the table clean unless poisoned or given up. |
| ConnHandoff.SeekArrives | crates/h2core/src/conn.rs:226-248 | Seeking from any byte at or before the snapshot point, within 2^31, leaves exactly the bytes after it. |
| ConnHandoff.SeedForgets | crates/h2core/src/conn.rs:154-168 | Whatever a direction went through before, seeded it agrees with a new one under the same limit on everything decoding and framing depend on. |
| ConnHandoff.SeededReadsAsNew | crates/h2core/src/conn.rs:154-168 | So it shows the same blocks from then on. |
| ConnHandoff.SnapshotHandoff | crates/h2core/src/conn.rs:157-196 | For a direction followed from its first byte, snapshottable with nothing to discard and the preface behind it: one seeded from its entries, capacity and position, with no table limit, fed from any byte before, continues for every continuation with the same frames and decoded blocks, exactness included, while the daemon does not give the table up as too large. |
| ConnHandoff.SnapshotHandoffMidway | crates/h2core/src/conn.rs:157-196 | The same for a direction joined midway, if no entry is flagged and, where its capacity was only assumed, no bad block follows. |
| ConnHandoffRuns.BytesAlike | crates/h2core/src/conn.rs:212-314 | However the stream is cut, the reader that keeps payloads and the one that throws them away stay alike, a frame half thrown away included. |
| ConnHandoffRuns.SnapshotHandoffRuns | crates/h2core/src/conn.rs:157-196 | The handoff over whole runs: the same pieces of the stream, and the same capacities announced between them, on the seeded reader and the daemon. |
| ConnLifted.ParseLifts | crates/h2core/src/conn.rs:212-314 | A direction with its table limit lifted and its capacity taken as observed parses the same, while the limit is not exceeded and an assumed capacity is not shaken by a bad block. |
| ConnHandoffExact.DiscardMatters | crates/h2core/src/conn.rs:185-196 | From inside a discarded payload, nine bytes that the seeded reader takes for a frame and the daemon does not. |
| ConnHandoffExact.PrefaceMatters | crates/h2core/src/conn.rs:157-168 | Before the preface or inside it, the seeded reader takes the preface for a frame. |
| ConnHandoffExact.FlagMatters | crates/h2core/src/conn.rs:157-168 | A flagged entry is shown unflagged by the seeded reader. |
| ConnHandoffExact.HandsOverExactly | crates/h2core/src/conn.rs:185-196 | A snapshottable direction with nothing waiting but a part of the preface hands over, for every continuation, if and only if nothing is left to discard, the preface is past and no entry is flagged. |
| Connection.Direction.JoinedMidstream | crates/h2core/src/conn.rs:114-136 | The initial state of a direction joined midway. |
| Connection.Direction.FromConnectionStart | crates/h2core/src/conn.rs:139-145 | The initial state of a direction seen from its first byte. |
| Connection.Direction.SetTableTrackLimit | crates/h2core/src/conn.rs:150-153 | The limit is remembered and applied to the decoder. |
| Connection.Direction.SeedFromSnapshot | crates/h2core/src/conn.rs:157-168 | The decoder is replaced by the snapshot's under the same limit, framing is trusted again and waits for the recorded position. |
| Connection.Direction.MarkBadBlock | crates/h2core/src/conn.rs:438-445 | Block dropped, table forgotten, boundary and trust lost. |
| Connection.Direction.OnGap | crates/h2core/src/conn.rs:198-210 | The same after a gap, and nothing left to discard. |
| Connection.Direction.FinishBlock | crates/h2core/src/conn.rs:386-436 | A complete block: decoded with its kind, open streams updated, or the direction poisoned and the table forgotten. |
| Connection.Direction.HandleFrame | crates/h2core/src/conn.rs:316-384 | One whole frame: block opened, continued or finished, promised id and table size noted. |
| Connection.Direction.FindBoundary | crates/h2core/src/conn.rs:454-473 | The scan loop finds the least acceptable offset. |
| Connection.Direction.TryResync | crates/h2core/src/conn.rs:448-488 | Adopt, wait or trim, and nothing else changes. |
| Connection.Direction.Parse | crates/h2core/src/conn.rs:212-314 | The loop over the live reassembler and decoder ends, with exactly the frames and the state the theorems are about. |
| Connection.Direction.Feed | crates/h2core/src/conn.rs:170-175 | A segment: reassembly, a gap's consequences, parsing. |
| Connection.Direction.Tick | crates/h2core/src/conn.rs:177-183 | A timer tick: nothing unless a gap is declared. |
| Pkt.SkipTagsLoop | crates/h2core/src/pkt.rs:54-75 | The walk over VLAN tags, of any number. |
| Pkt.WalkExtensionsLoop | crates/h2core/src/pkt.rs:130-166 | The walk over IPv6 extension headers to TCP. |
| Pkt.Sum16Loop | crates/h2core/src/pkt.rs:196-206 | The word sum, within 32 bits up to 130 816 bytes. |
| Pkt.FoldLoop | crates/h2core/src/pkt.rs:208-213 | End-around carry and complement. |
| Pkt.ChecksumVerifies | crates/h2core/src/pkt.rs:196-213 | Adding the complement of a folded sum to that sum folds to zero, per RFC 1071. |
| Pkt.ChecksumsVerify | crates/h2core/src/pkt.rs:218-297 | In every synthesized packet the IPv4 header, and TCP with its pseudo header, verify. |
| Pkt.BuildTcpPacketLoop | crates/h2core/src/pkt.rs:218-297 | Building with placeholders and writing the checksums over them makes exactly the packet the round trip is about. |
| Pkt.PacketRoundTrip | crates/h2core/src/pkt.rs:54-166 | A synthesized packet with any padding behind it parses back to the same fields and payload if and only if it fits its IP length field. |
| PktReceived.ReceivedReads | crates/h2core/src/pkt.rs:54-166 | Any frame laid out as received, with any number of VLAN tags, IPv4 with any options or IPv6 with any chain of extension headers, TCP with any options, and any payload, padding or cut: exactly the fields written and the payload the length covers, if it is whole and carries TCP behind known headers with room for its TCP header; otherwise nothing. |
| PktReceived.PayloadReads | crates/h2core/src/pkt.rs:54-103 | In particular an uncut packet gives its payload exactly, whatever its options and padding. |
| PktReceived.ChainWalk | crates/h2core/src/pkt.rs:130-166 | The walk gets to TCP if and only if it knows every extension header on the way, and leaves the length that remains. |
| PktReceived.TagsSkipped | crates/h2core/src/pkt.rs:64-75 | Any number of tags is skipped, up to the ethertype behind them. |
| RebuildSpec.EncodeBlockLoop | crates/h2rebuild/src/rebuild.rs:344-385 | The loop over a shrinking slice emits exactly the frames the read-back is about. |
| RebuildReadBack.BlockReadsBack | crates/h2rebuild/src/rebuild.rs:344-385 | A re-encoded block, over any number of CONTINUATION frames and with its promised id, reads back as the same message and leaves the reader's decoder as it was. |
| RebuildReadBack.AllReadsBack | crates/h2rebuild/src/rebuild.rs:247-274 | Everything emitted for a list of frames reads back as the same messages in order. |
| RebuildSources.ParseCarriable | crates/h2core/src/conn.rs:212-436 | Every frame the parser emits is one the rebuilder can carry, strings within the coder's range. |
| RebuildPackets.ChunksFlatten | crates/h2rebuild/src/rebuild.rs:461-478 | Chunks join to the bytes they were cut from, each non-empty and within the segment size. |
| RebuildPackets.CollectLoop | crates/h2rebuild/src/rebuild.rs:430-483 | The packet list as filled by the nested loops. |
| RebuildPackets.SortIsSorted | crates/h2rebuild/src/rebuild.rs:485-487 | Ordered by time, phase, connection and position, nothing lost or added. |
| RebuildPackets.FilterSort | crates/h2rebuild/src/rebuild.rs:485-487 | Sorting the whole capture sorts every direction on its own. |
| RebuildPackets.NumberedConsecutively | crates/h2rebuild/src/rebuild.rs:499-526 | However connections interleave, each direction is numbered consecutively modulo 2^32. |
| RebuildPackets.NumberLoop | crates/h2rebuild/src/rebuild.rs:499-526 | The numbering walk with its table of next sequence numbers. |
| RebuildPackets.DirectionInOrder | crates/h2rebuild/src/rebuild.rs:421-529 | Each direction of a timely connection comes out in the order it was made, numbered without a hole. |
| RebuildPackets.AcknowledgesPeer | crates/h2rebuild/src/rebuild.rs:499-526 | Every packet is numbered just past what its own direction has sent before it, and acknowledges exactly what the other direction of its connection has. |
| RebuildConversation.DirectionIsWellFormed | crates/h2rebuild/src/rebuild.rs:436-483 | Each direction opens with its SYN, which acknowledges only on the server's side, closes with its FIN, and in between every packet acknowledges and pushes what it carries. |
| RebuildConversation.HandshakeHolds | crates/h2rebuild/src/rebuild.rs:485-526 | In the sorted capture, interleaved as it may be, every acknowledgement of a timely connection covers the other side's SYN and is exactly what that side has sent by then. |
| RebuildTheorem.RebuildPreservesMeaning | crates/h2rebuild/src/rebuild.rs:421-533 | Reassembled and parsed from a fresh start, each direction of each timely connection gives back the messages of its original frames in order, with no gap, nothing left over and the dynamic table still empty. |
| RebuildWire.WireLoop | crates/h2rebuild/src/rebuild.rs:499-531 | The frames as written, with identifications counted per direction. |
| RebuildWire.FramesAre | crates/h2rebuild/src/rebuild.rs:499-531 | Packet by packet: each is written with its own time, addresses, numbers and payload, and identified by how many of its direction went before it, modulo 2^16. |
| RebuildWire.WritePcap | crates/h2rebuild/src/rebuild.rs:421-533 | Fill, sort, number, write: the capture the next row is about. |
| RebuildWire.HeardAsSent | crates/h2rebuild/src/rebuild.rs:499-531 | Parsing the Ethernet frames and keeping one direction's addresses and ports gives exactly its segments: numbers, flags, times, payloads. |
| RebuildWire.RebuiltCaptureReadsBack | crates/h2rebuild/src/rebuild.rs:421-533 | The rebuilt capture byte for byte: whoever parses its frames and listens to one direction gets its messages back. |
| CaptureRing.Ring.Push | crates/h2tapd/src/capture.rs:84-106 | Both eviction loops, and the byte count kept equal to the contents. |
| CaptureRing.RingIsSuffix | crates/h2tapd/src/capture.rs:84-106 | Whatever the timestamps, the ring is a contiguous suffix of the packet log within its byte limit. |
| CaptureRing.RingIsLongest | crates/h2tapd/src/capture.rs:84-106 | With timestamps in order, it is the longest suffix of the whole log within both limits. |
| DaemonTracker.DirTrack.AfterFeed | crates/h2tapd/src/tracker.rs:40-46 | Since when bytes have been pending. |
| DaemonTracker.DirTrack.Receive | crates/h2tapd/src/tracker.rs:163-174 | A SYN noted, a payload fed, pending time updated. |
| DaemonTracker.Conn.OnSegment | crates/h2tapd/src/tracker.rs:159-182 | A segment goes to its direction, and every capacity it announces caps the decoder of the other. |
| TrackerCapacity.CollectedExactly | crates/h2tapd/src/tracker.rs:176-181 | The capacities collected are exactly those that some frame announces. |
| TrackerCapacity.SegmentCaps | crates/h2tapd/src/tracker.rs:159-182 | After a segment the other direction's capacity is the least of what it was and what the frames completed announce. |
| TrackerCapacity.SettingsCapPeer | crates/h2tapd/src/tracker.rs:176-181 | From its bytes: after a SETTINGS frame in order whose last table size is below ours, the other direction's capacity is that size; larger, it stays; without one, nothing changes. |
| TrackerCoverage.PendingSources | crates/h2tapd/src/tracker.rs:40-46 | Whatever comes, every pending byte came in a packet no earlier than the one that began the pending period, or in a segment held at that time. |
| TrackerCoverage.CoveredIffNothingOverlooked | crates/h2tapd/src/tracker.rs:241-253 | With holes and duplicates allowed: if the test says the pending bytes are covered, they are in the ring if and only if no dropped packet with the oldest timestamp, or whose segment was held when the period began, brought a pending byte that no kept packet carries. |
| TrackerCoverage.PendingIsInRing | crates/h2tapd/src/tracker.rs:241-253 | Covered, the ring cut between two timestamps and nothing held when the pending period began: every byte received but not framed came in a packet still in the ring. |
| TrackerCoverage.InOrderExactly | crates/h2tapd/src/tracker.rs:241-253 | In order, only a shared timestamp can be overlooked: the same equivalence with nothing held. |
| TrackerStream.EachToItsOwn | crates/h2tapd/src/tracker.rs:157-162 | On a connection with two different ends, each packet goes to the direction it travels in, even when both ends share an address. |
| TrackerStream.WhereReadingBegins | crates/h2tapd/src/tracker.rs:142-155 | From its SYN, the client's direction reads behind the preface and the server's from its first byte, as a direction that expects no preface; joined midway, neither has a boundary yet. |
| TrackerStream.PendingHasArrived | crates/h2tapd/src/tracker.rs:159-182 | For packets that bring slices of one stream: what waits is the stream's, and all of it has arrived since the pending period began, if nothing was held then. |
| TrackerLimits.EqualTimestampsEscape | crates/h2tapd/src/tracker.rs:248-253 | Two packets of the same microsecond: covered by the test, missing from the ring. |
| TrackerLimits.HeldSegmentEscapes | crates/h2tapd/src/tracker.rs:40-46 | A segment held behind a hole: covered by the test, missing from the ring. |
| TrackerLimits.UnstartedIsUsable | crates/h2tapd/src/tracker.rs:241-288 | Over every log: a direction has no base exactly while no packet brought it a SYN or payload, and is then usable whenever the limit admits the default table, with framing said to restart at sequence number zero. |
| CaptureHandoff.ReaderParses | crates/h2rebuild/src/rebuild.rs:236-243 | Packet by packet, the rebuilder parses the stream from the first payload heard to the first byte the capture does not hold. |
| CaptureHandoff.LateStartForgets | crates/h2core/src/conn.rs:238-247 | A first payload past the snapshot point: the seeded table is dropped, the boundary given up and the misalignment noted before anything is parsed. |
| CaptureHandoff.LateStart | crates/h2core/src/conn.rs:238-247 | Then the reader ends misaligned, whatever follows. |
| CaptureHandoff.RingHoldsPending | crates/h2tapd/src/capture.rs:318-331 | What the snapshot says is pending is, offset by offset, in the ring that the capture starts with. |
| CaptureHandoff.CaptureContinues | crates/h2tapd/src/capture.rs:234-331 | From tap to rebuild: a direction seeded from a usable snapshot at a safe point, reading the ring and later packets in whatever order and however often, gets past the snapshot point aligned if and only if it starts at or before it and the capture holds every byte up to it; starting past it, it ends misaligned; with a byte missing, it emits nothing; once past, it continues exactly as the daemon does. |
| Bpf.BuildFilter | crates/h2tapd/src/sock.rs:139-224 | Pushing instructions and resolving jumps gives the program the theorems are about. |
| Bpf.RunLoop | crates/h2tapd/src/sock.rs:262-293 | The interpreter loop and the semantics agree on every program and packet. |
| Bpf.JumpsFit | crates/h2tapd/src/sock.rs:35 | No conditional jump loses bits in its cast to a byte if and only if there are at most 60 ports. |
| Bpf.JumpsLandInside | crates/h2tapd/src/sock.rs:197-224 | Every jump goes forward and lands inside the program. |
| Bpf.AndMask | crates/h2tapd/src/sock.rs:262-293 | A bitwise mask of low bits is a remainder. |
| Bpf.RunCompares | crates/h2tapd/src/sock.rs:167-189 | A run of comparisons accepts on a listed port and otherwise falls through. |
| Bpf.FilterIsCorrect | crates/h2tapd/src/sock.rs:131-224 | For every list of up to 60 ports and every packet, the compiled program ends with a verdict, and accepts the whole frame if and only if the packet is tagged, or unfragmented IPv4 TCP at its header length or direct IPv6 TCP on a listed port. |
| Bpf.FilterIsConservative | crates/h2tapd/src/sock.rs:131-189 | Of the frames userspace accepts on a listed port, the filter drops exactly the untagged IPv6 ones with extension headers. |

## Left out

- Sockets, pcap and JSON files, the HTTP interface, threads, command lines, idle eviction of connections, and every counter or message that is only displayed.
- Huffman decoding and the contents of the static table: a parameter shared by both decoders, see `Codebook`.
- Text and hex forms of a snapshot: a snapshot is its names, values, capacity and position.
- 64-bit overflow of offsets, counters and `usize` sums: they are natural numbers.
- The acknowledgement timing of SETTINGS: that an observed capacity equals the peer's is a hypothesis of `HpackExact.ExactnessIsSound` and `HpackShadow.ExactnessUpToFlags`, and no capacity change is part of the continuation in `CaptureHandoff.CaptureContinues` (it is in `ConnHandoffRuns.SnapshotHandoffRuns`).
- Segments further than 2^31 from the expected position: every reassembly theorem assumes they do not occur.
- SYN segments with payload in the theorems about whole runs of segments.
- Whether a block counts as headers or trailers after a handoff, which depends on the streams open before it: the views that `ConnHandoff.SnapshotHandoff` compares leave the kind out, and the rebuilt messages tell only promises from the rest.
- What a rebuilt message does not keep: padding and priority of header frames, flags on a block other than END_STREAM, and frames longer than 2^20 bytes, which the rebuilder drops.
- Timer ticks in the runs of `TrackerSpec`: without a gap they do nothing (`ConnArrival.OutputIsParseOfPrefix` includes them), and after one the direction is poisoned and no longer usable.
- Replacement of a tracked connection by a bare SYN on the same addresses, in the daemon and in the rebuilder: one connection per tuple, in `RebuildWire.RebuiltCaptureReadsBack` the hypothesis `Distinct`.
- The marker blocks the rebuilder adds for blocks it could not decode, and its per-frame output in JSON.
- The mirrored address of a direction that was never captured: `RebuildWire.Wire` is given both.
- The stable sort of the standard library: modelled as a stable insertion sort, of which `RebuildPackets.SortIsSorted` states what is used.
- RebuildTheorem.RebuildPreservesMeaning: asks that timestamps do not decrease within a connection and that strings are within the integer coder's range, without which the rebuilt order or the encoding is not the original's.
- Pkt.BuildTcpPacketLoop: sums without overflow; the 32-bit sum of the source can overflow, and panic or wrap, only on payloads well beyond the 130 816 bytes of `Pkt.Sum16Loop`.
- ConnHandoffExact.HandsOverExactly: with a frame half received it hands over under the same condition (`ConnHandoff.HandoffFrom`), but whether a flagged entry still matters then depends on what that frame does to the table.
- CaptureHandoff.CaptureContinues: packets bring slices of one stream, each within 2^31 of the position expected; the reader neither declares a gap nor loses a frame boundary, and the capture holds no SYN of this direction, since the rebuilder would then not seed it.
