# netipc: a verified model

A Dafny model of netipc, the message protocol and client/server library used between plugins. The model follows the
Rust implementation, with the C batch handler and the Go string codec where they are compared, from the byte codecs
up to whole calls.

## What is modelled

| file | part of the system |
|---|---|
| `Wire`, `PackedLayout` | little-endian fields, in-place writes, the directory-plus-packed-area layout all codecs share |
| `Batch` | batch payloads: directory, readers, the builder with its left shift in `finish` |
| `Snapshot`, `SnapshotBuilder`, `SnapshotCapacity` | snapshot request and response, the in-place builder, its dispatch, the reservation hint |
| `Envelope`, `Session`, `UdsSession`, `Handshake`, `Bits` | message and chunk headers, chunked send and receive, in-flight ids, negotiation |
| `PowerOfTwo`, `HashIndex`, `SnapshotCache` | the linear-probing index and the client cache refreshed from snapshots |
| `Increment`, `StringReverse` | the two small methods, the batch handler that extracts, increments and rebuilds |
| `XorShift`, `Pipeline` | the pipelined batch client with its byte-budgeted window, against a peer answering in any order |
| `LookupItem`, `LookupCodec`, `LookupReply`, `LookupBuilder` | lookup items with labels, requests and responses, the server builder that reserves placeholders |
| `LookupRequest`, `LookupStitch`, `LogicalLookup` | the logical lookup call: splitting, retrying, growing the session, stitching |
| `HonestLookup`, `LookupTrace`, `LookupScenarios` | calls to a server that runs one handler: replies, turns, which answers survive, whole calls |

## Main results

- **Snapshot builder** (`SnapshotBuilding.Build`): any run of `add` and `set_header` calls, some failing, then
  `finish`, gives bytes that decode to exactly the successful adds, in order, with the last header values. The bytes
  are those of a pure serializer, so they depend neither on the slot count nor on stale buffer contents.
- **Cache** (`SnapshotCache.ServeRefreshLookup`): from builder calls on the server to a lookup in the client's cache,
  the answer is the first added item with that hash and name.
- **Hash index** (`HashIndex.Find`): linear probing agrees with a first-match linear scan on every list and key, and both loops end.
- **Transport** (`Session.StreamRoundTrip`): every sequence of messages within the limits, cut into packets of any
  negotiated size, is received unchanged. `Handshake.HandshakeAgreement` says exactly when a session comes about
  and that both sides hold the same values.
- **Batch** (`Batch.Build`, `Increment.IncrementBatch`): whatever list is added to whatever number of slots, item get on the
  finished batch returns the kept items, and a built batch of numbers goes through the handler and back plus one.
- **Pipeline** (`Pipeline.RunCycle`): conservation of requests, bytes and items in every reachable state, distinct
  ids, and completion with any fair peer.
- **Lookup** (`LogicalLookup.LookupClient.Call`): against any server at all, a result is complete, in order and of one
  generation. Against a server that runs one handler and has room for each part of the path list that fits one
  request, it fails exactly when it needs more exchanges or bytes than the caller allows, and
  `LookupTrace.MarkedExactlyWhen` says exactly which answers are replaced by an oversized mark, in split calls, after
  growth and with stand-ins. Under a fixed limit the inputs alone decide both (`LookupScenarios.LookupUnderLimit`);
  `LookupScenarios.LookupEndToEnd` is the case where no answer is replaced.

## Modelling choices

- Byte order is little-endian. `usize` is unbounded: buffers are shorter than 2^63 bytes, so the checked 64-bit
  additions never differ. u16, u32 and u64 fields wrap or are checked exactly where the code wraps or checks.
- The network is a parameter: a sequence of arrivals and a function that says which link writes fail (`Session`,
  `UdsSession`), a peer (`Pipeline`), or a `World` of replies, session limits, interruptions and reconnects
  (`LogicalLookup`). Clocks, deadlines and aborts appear only as such interruptions.
- Handlers are functions from requests to answers. Text conversion in the cache is a parameter.

## Where code, documentation and other implementations differ

The model follows the code.

- `docs/level1-wire-envelope.md` asks for `chunk_index < chunk_count`; receiving enforces only consecutive indices, an equal
  count and the total length. `Session.IndexBelowCountExactlyWhen` gives the exact condition for every accepted message,
  `Session.CutObeysRuleExactlyWhen` the one a sender can check, `Session.IndexCanReachCount` an input. This
  library's own sender always obeys the rule (`Session.SenderObeysRule`).
- `estimate_cgroups_max_items` is documented as a safe upper bound. It is one short for some sizes:
  `SnapshotCapacity.HintBoundsExactlyWhen`, `SnapshotCapacity.HintCanBeOneShort`.
- `docs/level2-typed-api.md` says an oversized lookup item cannot fit by itself. The server also marks the first item
  when it fits by itself but not together with the placeholders reserved for the rest of the request:
  `LookupReply.OversizedExactlyWhen`, `LookupReply.OversizedThoughItFits`. The mark is final, so the caller never gets
  that answer: `LookupTrace.MarkedExactlyWhen` says exactly which items of a call are marks,
  `LookupTrace.MarkedByInputs` says it in terms of the inputs, and `LookupScenarios.FittingAnswerIsLost` is a whole
  call that loses one.
- `BatchBuilder::finish` zeroes trailing padding only below the buffer end, and its total can exceed an unaligned
  buffer. `Batch.Build` says exactly when; `Batch.StalePaddingSurvives` and `Batch.TotalCanExceedBuffer` are inputs.
- `HelloAck::decode` ignores its padding (`Envelope.HelloAckReencodes`, `Envelope.HelloAckPaddingCanDiffer`), and `Hello::decode` accepts any flags (`Envelope.HelloRoundTrip`).
- The Go string decoder accepts offsets below 8 that the Rust decoder rejects (`StringReverse.DecodersAgreeExactlyWhen`).

## Model

| member | source | states |
|---|---|---|
| `PackedLayout.PackSize` | src/crates/netipc/src/protocol/mod.rs:469-490 | aligned packed size is the sum of the aligned blob lengths, for every list of blobs |
| `PackedLayout.BlobAt` | src/crates/netipc/src/protocol/mod.rs:435-465 | blob i lies whole, byte for byte, at its 8-aligned offset in the packed area |
| `PackedLayout.ReadBlob` | src/crates/netipc/src/protocol/cgroups_snapshot.rs:174-189 | following directory entry i of any buffer that holds a serialized directory and area gives exactly blob i, inside the area |
| `PackedLayout.EntriesMeaning` | src/crates/netipc/src/protocol/cgroups_snapshot.rs:133-161 | the directory pass succeeds iff every entry passes and lists them in order; otherwise it reports the error of the least failing index |
| `PackedLayout.Append` | src/crates/netipc/src/protocol/cgroups_snapshot.rs:323-398 | appending in place (gap zeroed, blob, entry) extends the stored directory and area by exactly one blob, whatever bytes were there |
| `PackedLayout.Relativize` | src/crates/netipc/src/protocol/cgroups_snapshot.rs:436-444 | rewriting the entries in place from absolute to relative offsets changes the directory to the canonical one and nothing else |
| `PackedLayout.CompactDirectory` | src/crates/netipc/src/protocol/cgroups_snapshot.rs:402-455 | overlapping move plus entry rewrite turns the reserved-size layout into the canonical one; the result does not mention the reserved size |
| `Batch.DirEncode` | src/crates/netipc/src/protocol/mod.rs:297-308 | writes each entry in order and leaves everything behind them; 0 and no write when the buffer is short |
| `Batch.DirRoundTrip` | src/crates/netipc/src/protocol/mod.rs:297-338 | decoding an encoded directory returns the entries iff each is aligned and inside the packed area |
| `Batch.DirDecode` | src/crates/netipc/src/protocol/mod.rs:312-338 | the loop returns the entries of the reference directory scan, or its first error |
| `Batch.DirValidate` | src/crates/netipc/src/protocol/mod.rs:343-365 | accepts iff decoding accepts, and otherwise with the same error |
| `Batch.ValidateForeseesItemGet` | src/crates/netipc/src/protocol/mod.rs:343-405 | on a payload with a full directory, validation succeeds iff item get succeeds for every index; otherwise it returns the error of the least failing index |
| `Batch.ItemGetInverts` | src/crates/netipc/src/protocol/mod.rs:369-405 | item get returns item i of every payload that starts with the serialized directory and items |
| `Batch.BatchSize` | src/crates/netipc/src/protocol/mod.rs:469-490 | size law: 8 per item plus the sum of aligned lengths |
| `Batch.BatchBuilder.constructor` | src/crates/netipc/src/protocol/mod.rs:423-432 | an empty valid builder over the given buffer |
| `Batch.BatchBuilder.Add` | src/crates/netipc/src/protocol/mod.rs:435-465 | succeeds iff a slot is free and reserved directory, earlier aligned sizes and the new length fit; a failed add changes no byte, a successful one none behind the item |
| `Batch.BatchBuilder.Finish` | src/crates/netipc/src/protocol/mod.rs:469-490 | size law for the returned total; the buffer starts with the canonical directory and items whatever the slot count; the total exceeds the buffer iff every slot is used and the aligned items do not fit; padding is canonical below the buffer end, and at the exact end iff the stale bytes were zero |
| `Batch.AddAll` | src/crates/netipc/src/protocol/mod.rs:423-465 | adding any list, some adds failing: each result is the one the items kept so far dictate, and the builder holds exactly the kept items |
| `Batch.Build` | src/crates/netipc/src/protocol/mod.rs:369-490 | for every list, slot count and buffer below 4 GiB, item get on the finished batch returns exactly the kept items, in order, through the left shift; canonical bytes and overshoot are characterized exactly, in terms of the initial buffer |
| `Batch.TotalCanExceedBuffer` | src/crates/netipc/src/protocol/mod.rs:469-490 | a nine-byte buffer with one slot takes a one-byte item and reports a total of 16 |
| `Batch.StalePaddingSurvives` | src/crates/netipc/src/protocol/mod.rs:483-488 | a full 16-byte buffer keeps its stale padding, so the batch is readable but not canonical |
| `Batch.Canonical` | src/crates/netipc/src/protocol/mod.rs:483-488 | a buffer that starts with directory and items is the canonical batch iff its padding bytes are zero |
| `Snapshot.Decode` | src/crates/netipc/src/protocol/cgroups_snapshot.rs:106-171 | the loop agrees on every input with the recursive reference decoder |
| `Snapshot.AcceptedEntry` | src/crates/netipc/src/protocol/cgroups_snapshot.rs:106-171 | for arbitrary accepted bytes every item region is aligned, at least one header long and inside the payload |
| `Snapshot.ItemMeaning` | src/crates/netipc/src/protocol/cgroups_snapshot.rs:174-262 | an item decodes iff its header is right and it holds two NUL-terminated strings past the header, inside the item and disjoint; the views are those regions |
| `Snapshot.ItemRoundTrip` | src/crates/netipc/src/protocol/cgroups_snapshot.rs:174-262 | a serialized item decodes to itself |
| `Snapshot.SnapshotRoundTrip` | src/crates/netipc/src/protocol/cgroups_snapshot.rs:106-262 | serialized snapshots decode, with any bytes behind them, to the same header values, count and items |
| `Snapshot.SnapshotSize` | src/crates/netipc/src/protocol/cgroups_snapshot.rs:402-455 | exact length of a finished snapshot: header, 8 per item, the aligned sizes of all items but the last and the size of the last |
| `Snapshot.PrefixRejected` | src/crates/netipc/src/protocol/cgroups_snapshot.rs:106-171 | every strict prefix of a finished snapshot is rejected |
| `Snapshot.ExtensionInvisible` | src/crates/netipc/src/protocol/cgroups_snapshot.rs:106-262 | appending bytes to any accepted payload keeps it accepted with every item result unchanged |
| `SnapshotBuilding.WriteItem` | src/crates/netipc/src/protocol/cgroups_snapshot.rs:369-388 | the field-by-field writes put exactly the serialized item at its place |
| `SnapshotBuilding.SnapshotBuilder.constructor` | src/crates/netipc/src/protocol/cgroups_snapshot.rs:293-313 | an empty valid builder with the given header values |
| `SnapshotBuilding.SnapshotBuilder.SetHeader` | src/crates/netipc/src/protocol/cgroups_snapshot.rs:316-319 | changes the two header values and nothing else |
| `SnapshotBuilding.SnapshotBuilder.Add` | src/crates/netipc/src/protocol/cgroups_snapshot.rs:323-398 | succeeds iff slot, bytes and u32 offsets allow; appends the item, or changes no byte |
| `SnapshotBuilding.SnapshotBuilder.Finish` | src/crates/netipc/src/protocol/cgroups_snapshot.rs:402-455 | the buffer starts with the pure serialization of the added items and last header values, independent of slot count and old contents |
| `SnapshotBuilding.Drive` | src/crates/netipc/src/protocol/cgroups_snapshot.rs:293-398 | any sequence of calls, some failing: each result is the one the items so far dictate, and the builder holds exactly the successful adds in order |
| `SnapshotBuilding.Build` | src/crates/netipc/src/protocol/cgroups_snapshot.rs:293-455 | builder run, then finish: the bytes decode to exactly the successful adds in order, with the last header values |
| `SnapshotBuilding.Dispatch` | src/crates/netipc/src/protocol/cgroups_snapshot.rs:475-500 | succeeds iff the request decodes, the buffer takes the reserved directory and the handler agrees; the reply decodes to what the handler added |
| `SnapshotCapacity.RunIsHoldable` | src/crates/netipc/src/protocol/cgroups_snapshot.rs:323-350 | whatever a run of calls leaves in a builder could be added one by one |
| `SnapshotCapacity.HoldableIsRun` | src/crates/netipc/src/protocol/cgroups_snapshot.rs:323-350 | conversely, a list that could be added one by one is what some run of calls leaves, every add succeeding |
| `SnapshotCapacity.RunStaysWithinCapacity` | src/crates/netipc/src/protocol/cgroups_snapshot.rs:323-350 | no run of calls on any slot count leaves more than (size-18)/48 items |
| `SnapshotCapacity.CapacityIsReached` | src/crates/netipc/src/protocol/cgroups_snapshot.rs:323-350 | a run of calls reaches that bound, for every buffer size below 4 GiB |
| `SnapshotCapacity.HintIsClose` | src/crates/netipc/src/protocol/cgroups_snapshot.rs:461-468 | a run on a builder given the hint fills every slot, and no run holds more than the hint plus one |
| `SnapshotCapacity.HintBoundsExactlyWhen` | src/crates/netipc/src/protocol/cgroups_snapshot.rs:461-468 | over all runs on all slot counts, the hint is the safe upper bound it is documented to be iff the bytes left over after whole slots number fewer than 42 |
| `SnapshotCapacity.HintCanBeOneShort` | src/crates/netipc/src/protocol/cgroups_snapshot.rs:461-468 | a run that leaves one item in 66 bytes, where the hint is 0 |
| `Envelope.EncodeInto` | src/crates/netipc/src/protocol/mod.rs:168-183 | a record is written at the front of the buffer, or nothing is |
| `Envelope.HeaderRoundTrip` | src/crates/netipc/src/protocol/mod.rs:168-216 | an encoded header decodes iff it is well formed, and then to itself |
| `Envelope.HeaderReencodes` | src/crates/netipc/src/protocol/mod.rs:168-216 | every accepted 32-byte header is the encoding of a well-formed record |
| `Envelope.ChunkRoundTrip` | src/crates/netipc/src/protocol/mod.rs:237-281 | an encoded chunk header decodes iff it is well formed, and then to itself |
| `Envelope.ChunkReencodes` | src/crates/netipc/src/protocol/mod.rs:237-281 | every accepted chunk header is the encoding of what it decodes to |
| `Envelope.NeverBothKinds` | src/crates/netipc/src/protocol/mod.rs:186-281 | no byte string is both a message header and a chunk header |
| `Envelope.HelloRoundTrip` | src/crates/netipc/src/protocol/mod.rs:513-560 | an encoded hello decodes to itself iff its layout version is 1, whatever its flags |
| `Envelope.HelloReencodes` | src/crates/netipc/src/protocol/mod.rs:513-560 | every accepted hello is the encoding of what it decodes to |
| `Envelope.HelloAckRoundTrip` | src/crates/netipc/src/protocol/mod.rs:584-630 | an encoded hello-ack decodes to itself iff version and flags are right |
| `Envelope.HelloAckReencodes` | src/crates/netipc/src/protocol/mod.rs:584-630 | re-encoding an accepted hello-ack reproduces it up to the four unchecked padding bytes, and fully iff they are zero |
| `Envelope.HelloAckIgnoresPadding` | src/crates/netipc/src/protocol/mod.rs:604-630 | whatever the padding bytes, decoding succeeds iff version and flags are right and gives the same record |
| `Envelope.HelloAckPaddingCanDiffer` | src/crates/netipc/src/protocol/mod.rs:604-630 | an accepted hello-ack with non-zero padding, which is not the encoding of what it decodes to |
| `Session.SlicesMeaning` | src/crates/netipc/src/transport/posix.rs:343-406 | cutting a payload into packet-sized pieces loses nothing and makes no empty or oversized piece |
| `Session.SlicesCount` | src/crates/netipc/src/transport/posix.rs:343-406 | the number of pieces is the ceiling the sender announces |
| `Session.FramesAssemble` | src/crates/netipc/src/transport/posix.rs:529-591 | continuation packets of any cut reassemble to the payload and leave later traffic untouched |
| `Session.SendReceive` | src/crates/netipc/src/transport/posix.rs:286-608 | for every message within the limits and every packet size, what send puts on the wire is received as the same header and payload, settling its id and consuming nothing more |
| `Session.StreamRoundTrip` | src/crates/netipc/src/transport/posix.rs:286-608 | any sequence of deliverable messages sent over one session is received as the same sequence |
| `Session.AssembleMeaning` | src/crates/netipc/src/transport/posix.rs:529-591 | a successful reassembly of arbitrary packets is the concatenation of a run of consecutive valid continuations |
| `Session.ReceivedMeaning` | src/crates/netipc/src/transport/posix.rs:420-608 | whatever arrives, a successful receive returns a decodable header within the limits whose payload is exactly the bytes of the packets consumed, in order, with announced length |
| `Session.AnyCutAccepted` | src/crates/netipc/src/transport/posix.rs:529-591 | the receiver accepts every cut of the payload into non-empty pieces, not only the sender's, if the announced count matches the first packet |
| `Session.IndexBelowCountExactlyWhen` | src/crates/netipc/src/transport/posix.rs:529-591 | for arbitrary packets and every accepted message of more than one packet: all its continuation chunks have an index below their count iff the number of continuations times the chunk budget is below the remaining bytes plus one budget |
| `Session.CutObeysRuleExactlyWhen` | src/crates/netipc/src/transport/posix.rs:529-591 | before sending: the packets of a cut obey the index rule iff the number of pieces times the budget is below the remaining bytes plus one budget |
| `Session.SenderObeysRule` | src/crates/netipc/src/transport/posix.rs:343-406 | every continuation this library sends has an index below its count |
| `Session.IndexCanReachCount` | src/crates/netipc/src/transport/posix.rs:529-591 | a concrete accepted message whose last continuation packet breaks the rule: its index equals its count |
| `UdsSessions.UdsSession.constructor` | src/crates/netipc/src/transport/posix.rs:1229-1242 | a session with no request in flight |
| `UdsSessions.UdsSession.SendInner` | src/crates/netipc/src/transport/posix.rs:343-406 | the packet loop emits exactly the specified packets, or the prefix before the first failing link write |
| `UdsSessions.UdsSession.Send` | src/crates/netipc/src/transport/posix.rs:286-340 | limits and duplicate ids are refused without traffic; a client request is tracked on success and all ids are forgotten on a failed send |
| `UdsSessions.UdsSession.ReceiveMessage` | src/crates/netipc/src/transport/posix.rs:420-608 | the imperative receive agrees on every input with the functional receiver, in-flight set included |
| `UdsSessions.UdsSession.ReceiveBody` | src/crates/netipc/src/transport/posix.rs:477-608 | one packet or many, the body is received as the functional receiver says |
| `UdsSessions.UdsSession.ReceiveChunks` | src/crates/netipc/src/transport/posix.rs:529-591 | filling the receive buffer in place yields the reassembled payload, or the same error |
| `Handshake.HelloArrives` | src/crates/netipc/src/transport/posix.rs:1301-1329 | the server reads back the hello the client packed |
| `Handshake.AckArrives` | src/crates/netipc/src/transport/posix.rs:1169-1222 | the client reads back the ack the server packed |
| `Handshake.SameVerdict` | src/crates/netipc/src/transport/posix.rs:1103-1427 | client and server reach the same verdict for every hello |
| `Handshake.HandshakeAgreement` | src/crates/netipc/src/transport/posix.rs:1103-1427 | both sides agree on the verdict; success iff a shared profile, equal tokens, a request limit the server allows and both packet sizes above the header; then the packet size is the smaller of the two, the request limits are the client proposal, the response payload limit is the server value, and the profile is the top shared (preferred if possible) bit |
| `Handshake.NegotiatedSessionDelivers` | src/crates/netipc/src/transport/posix.rs:286-1427 | every message within negotiated limits is delivered over a negotiated session |
| `Bits.HighestBitMeaning` | src/crates/netipc/src/transport/posix.rs:814-819 | the selected bit is a power of two, in the mask, and above half of it |
| `Bits.MaskIsMod` | bench/drivers/rust/src/main.rs:1318-1350 | masking with a power of two minus one is the remainder |
| `PowerOfTwo.NextPowerOf2Meaning` | src/crates/netipc/src/service/raw/common.rs:49-65 | for every n the smearing yields a power of two from 16 to 2^31: at least n and below 2n up to 2^31, and 2^31 above |
| `HashIndex.HashName` | bench/drivers/rust/src/main.rs:1299-1305 | folding with wrapping 32-bit words gives the low 32 bits of the unbounded djb2 value |
| `HashIndex.HomeMeaning` | bench/drivers/rust/src/main.rs:1318-1350 | the key that picks a bucket is a 32-bit word, and its first bucket is that word modulo the table size |
| `HashIndex.BuildIndex` | bench/drivers/rust/src/main.rs:1318-1329 | linear probing terminates and places every item, duplicates included, reachable behind used buckets only and in item order |
| `HashIndex.Insert` | bench/drivers/rust/src/main.rs:1318-1329 | taking the first free bucket keeps every earlier item reachable |
| `HashIndex.Find` | bench/drivers/rust/src/main.rs:1338-1350 | the probe terminates and returns the smallest matching index of a linear scan, or nothing when no item matches |
| `HashIndex.FoundIsFirst` | bench/drivers/rust/src/main.rs:1338-1350 | the first match on the probe path is the first match of the list |
| `HashIndex.MissedIsAbsent` | bench/drivers/rust/src/main.rs:1338-1350 | a free bucket on the probe path proves the key absent |
| `SnapshotCache.CopyItems` | src/crates/netipc/src/service/raw/cgroups_cache.rs:95-120 | copies every item of an accepted view, or reports the failure |
| `SnapshotCache.IndexItems` | src/crates/netipc/src/service/raw/cgroups_cache.rs:122-137 | builds a power-of-two index with a free bucket over the copied items |
| `SnapshotCache.CgroupsCache.constructor` | src/crates/netipc/src/service/raw/cgroups_cache.rs:70-83 | an empty, unpopulated cache |
| `SnapshotCache.CgroupsCache.Refresh` | src/crates/netipc/src/service/raw/cgroups_cache.rs:90-153 | all or nothing: a good reply replaces items, index and header values, a bad one changes only the failure count |
| `SnapshotCache.CgroupsCache.Lookup` | src/crates/netipc/src/service/raw/cgroups_cache.rs:166-186 | returns the first cached item with that hash and name, or nothing |
| `SnapshotCache.BuiltReplyLoads` | src/crates/netipc/src/service/raw/cgroups_cache.rs:90-153 | any payload that decodes to a list of items loads as that list |
| `SnapshotCache.ServeRefreshLookup` | src/crates/netipc/src/service/raw/cgroups_cache.rs:90-186 | end to end: builder run, refresh, lookup returns the first successfully added item with that key, and nothing otherwise |
| `Increment.RoundTrip` | src/crates/netipc/src/protocol/increment.rs:7-20 | decode inverts encode |
| `Increment.Dispatch` | src/crates/netipc/src/protocol/increment.rs:23-34 | replies iff the request decodes, the handler answers and 8 bytes fit; the reply decodes to the handler's value |
| `Increment.HandleBatch` | bench/drivers/c/bench_posix.c:182-209 | succeeds iff 16 bytes per item fit and the request carries a value list; the reply is the canonical batch of the incremented values; otherwise the error of the least failing item |
| `Increment.CarriesOne` | bench/drivers/c/bench_posix.c:182-209 | a payload carries at most one value list |
| `Increment.IncrementBatch` | bench/drivers/c/bench_posix.c:182-209 | end to end: any u64 list built with any number of slots, handled and extracted again gives every value plus one modulo 2^64, in order |
| `XorShift.StepInjective` | bench/drivers/rust/src/bench_windows.rs:363-371 | the xorshift step is injective on 32-bit words |
| `XorShift.StateNonZero` | bench/drivers/rust/src/bench_windows.rs:363-371 | no state of a run from the seed is zero |
| `XorShift.RecurrenceReachesSeed` | bench/drivers/rust/src/bench_windows.rs:363-371 | if a run ever repeats a state, it first returned to the seed |
| `XorShift.XorShift32.constructor` | bench/drivers/rust/src/bench_windows.rs:363-365 | starts at the seed |
| `XorShift.XorShift32.Next` | bench/drivers/rust/src/bench_windows.rs:366-371 | draws the next nonzero state of the run |
| `Pipeline.StartInv` | bench/drivers/rust/src/bench_windows.rs:1596-1604 | the cycle invariant holds at the start of every cycle |
| `Pipeline.SentKeepsInv` | bench/drivers/rust/src/bench_windows.rs:1670-1686 | sending within the byte window keeps the invariant: conservation of counts, bytes and items, and the budget |
| `Pipeline.RetireKeepsInv` | bench/drivers/rust/src/bench_windows.rs:1638-1665 | retiring any active slot keeps the invariant, without underflow |
| `Pipeline.RetireEnabled` | bench/drivers/rust/src/bench_windows.rs:1638-1665 | an active slot can always be retired: its cost is in the in-flight total |
| `Pipeline.RetireSettlesOne` | bench/drivers/rust/src/bench_windows.rs:1689-1714 | a response settles exactly its own id and no slot waits for that id afterwards |
| `Pipeline.IdsDistinct` | bench/drivers/rust/src/bench_windows.rs:1628-1636 | ids of one cycle are pairwise distinct, also across the 64-bit wrap |
| `Pipeline.FillBatch` | bench/drivers/rust/src/bench_windows.rs:1609-1625 | building a batch of 2 to 1000 counters never fails and gives the canonical batch of 16 bytes per item |
| `Pipeline.HandleReply` | bench/drivers/rust/src/bench_windows.rs:1638-1665 | a reply is accepted iff its id is awaited; every other reply changes nothing |
| `Pipeline.MakeRoom` | bench/drivers/rust/src/bench_windows.rs:1638-1665 | receives until the next batch fits the window; never stuck with a fair peer answering in any order |
| `Pipeline.RunCycle` | bench/drivers/rust/src/bench_windows.rs:1596-1715 | every run of a cycle keeps the invariant; a completed cycle has nothing waiting or in flight and all items accounted for; it completes with a fair peer |
| `Pipeline.RunClient` | bench/drivers/rust/src/bench_windows.rs:1588-1724 | over all cycles counted items never exceed sent ones, and equal them when no error occurred; none occurs with fair peers |
| `StringReverse.Encode` | src/crates/netipc/src/protocol/string_reverse.rs:23-40 | writes the encoded string at the front, or nothing |
| `StringReverse.RoundTrip` | src/crates/netipc/src/protocol/string_reverse.rs:42-65 | both decoders invert encoding, with any bytes behind |
| `StringReverse.DecodersAgreeExactlyWhen` | src/go/pkg/netipc/protocol/string_reverse.go:52-80 | the Rust and Go decoders agree iff the buffer is short or its offset field is at least 8 |
| `StringReverse.DecodersCanDiffer` | src/go/pkg/netipc/protocol/string_reverse.go:52-80 | eight zero bytes are an error for one decoder and the empty string for the other |
| `StringReverse.Dispatch` | src/crates/netipc/src/protocol/string_reverse.rs:68-79 | the buffer holds the specified reply, or is untouched |
| `StringReverse.ReversingTwiceRestores` | src/crates/netipc/src/protocol/string_reverse.rs:68-79 | dispatching a reversing handler twice restores the content of any accepted request |
| `LookupItem.ItemRoundTrip` | src/crates/netipc/src/protocol/lookup/cgroups_lookup.rs:276-330 | every encodable item decodes to its status, path and name, and every label index to that label |
| `LookupItem.ScanAccepts` | src/crates/netipc/src/protocol/lookup/common.rs:255-313 | the label scan accepts a packed label table and ends exactly at the item end |
| `LookupItem.LabelReads` | src/crates/netipc/src/protocol/lookup/common.rs:315-344 | what a reader finds at label i of a packed table |
| `LookupItem.LabelsExactlyWhen` | src/crates/netipc/src/protocol/lookup/common.rs:255-313 | label validation accepts arbitrary bytes iff they are zero padding and the serialized table and strings of some valid labels, filling the item |
| `LookupItem.ItemExactlyWhen` | src/crates/netipc/src/protocol/lookup/cgroups_lookup.rs:276-319 | an arbitrary item decodes iff its header and status rules hold, path and name are disjoint strings past the header, and the rest is a serialized label table |
| `LookupItem.AcceptedLabels` | src/crates/netipc/src/protocol/lookup/common.rs:315-344 | every label of an accepted item can be read and has a key |
| `LookupItem.PlaceholderSize` | src/crates/netipc/src/protocol/lookup/cgroups_lookup.rs:176-192 | a placeholder takes the item header, the path and two NULs, the length the server reserves |
| `LookupCodec.DirScanMeaning` | src/crates/netipc/src/protocol/lookup/common.rs:65-109 | acceptance of a directory means each entry is aligned, long enough and inside the packed area |
| `LookupCodec.DirScanExactlyWhen` | src/crates/netipc/src/protocol/lookup/common.rs:65-109 | the scan succeeds iff every entry is aligned, long enough, inside the packed area and not before the end of the entry in front |
| `LookupCodec.DirScanAccepts` | src/crates/netipc/src/protocol/lookup/common.rs:65-109 | the non-overlap scan accepts every serialized directory |
| `LookupCodec.RequestRoundTrip` | src/crates/netipc/src/protocol/lookup/cgroups_lookup.rs:67-174 | the server reads back exactly the paths the client encoded |
| `LookupCodec.ViewItem` | src/crates/netipc/src/protocol/lookup/cgroups_lookup.rs:236-245 | every item of an accepted response decodes |
| `LookupCodec.ResponseRoundTrip` | src/crates/netipc/src/protocol/lookup/cgroups_lookup.rs:196-254 | a response of decodable raw items is accepted and gives each of them back |
| `LookupReply.SuffixBytes` | src/crates/netipc/src/protocol/lookup/common.rs:169-189 | the backward pass computes the reserved bytes of every suffix, and fails iff the whole reservation exceeds u32 |
| `LookupReply.ReservedIsPlaceholders` | src/crates/netipc/src/protocol/lookup/common.rs:169-189 | what is reserved from an index on is exactly the packed size of placeholders for the rest of the request |
| `LookupReply.PlaceholderGoesIn` | src/crates/netipc/src/protocol/lookup/cgroups_lookup.rs:524-598 | while there is room for the rest, a placeholder fits and leaves room for the rest |
| `LookupReply.ServedShape` | src/crates/netipc/src/protocol/lookup/cgroups_lookup.rs:401-616 | with room for placeholders every in-order answer is taken, and the reply is answers in order, the first possibly marked oversized, then cut-off marks that never start at the first item |
| `LookupReply.ServedExactlyWhen` | src/crates/netipc/src/protocol/lookup/cgroups_lookup.rs:401-616 | a handler that answers every path gets a reply out iff the buffer takes a placeholder for every path |
| `LookupReply.OversizedExactlyWhen` | src/crates/netipc/src/protocol/lookup/cgroups_lookup.rs:600-606 | the first item is marked oversized iff it is known and has too many labels or does not fit together with what is reserved for the other paths; otherwise it is the answer |
| `LookupReply.OversizedThoughItFits` | src/crates/netipc/src/protocol/lookup/cgroups_lookup.rs:600-606 | a concrete answer that is served alone in 96 bytes is marked oversized in the same 96 bytes when another path follows |
| `LookupBuilding.WriteTable` | src/crates/netipc/src/protocol/lookup/common.rs:346-381 | the label loop writes exactly the serialized table and strings and nothing outside them |
| `LookupBuilding.WriteItemHeader` | src/crates/netipc/src/protocol/lookup/cgroups_lookup.rs:627-648 | the field writes put exactly the serialized item header in place |
| `LookupBuilding.WriteItem` | src/crates/netipc/src/protocol/lookup/cgroups_lookup.rs:485-509 | header, strings, gap and labels written in place are exactly the serialized item |
| `LookupBuilding.LabelLayout` | src/crates/netipc/src/protocol/lookup/common.rs:383-410 | sizes the label part iff every label is valid |
| `LookupBuilding.FinishResponse` | src/crates/netipc/src/protocol/lookup/common.rs:412-463 | in-place compaction yields the canonical response, whatever the reserved directory size |
| `LookupBuilding.LookupBuilder.constructor` | src/crates/netipc/src/protocol/lookup/cgroups_lookup.rs:345-364 | an empty valid builder |
| `LookupBuilding.LookupBuilder.SetGeneration` | src/crates/netipc/src/protocol/lookup/cgroups_lookup.rs:366-368 | changes the generation and nothing else |
| `LookupBuilding.LookupBuilder.SetPlaceholderLens` | src/crates/netipc/src/protocol/lookup/cgroups_lookup.rs:370-375 | stores the reservation, or notes the overflow |
| `LookupBuilding.LookupBuilder.AddNonKnown` | src/crates/netipc/src/protocol/lookup/cgroups_lookup.rs:524-598 | appends a placeholder or reports and notes overflow |
| `LookupBuilding.LookupBuilder.NoteOverflow` | src/crates/netipc/src/protocol/lookup/cgroups_lookup.rs:600-606 | oversized mark for the first item, else cut-off mark and cut off everything later |
| `LookupBuilding.LookupBuilder.AddKnownItem` | src/crates/netipc/src/protocol/lookup/cgroups_lookup.rs:439-522 | appends a known item iff it fits and leaves the reservation for the rest; otherwise the stand-in, cutting off the rest unless it is the first |
| `LookupBuilding.LookupBuilder.Add` | src/crates/netipc/src/protocol/lookup/cgroups_lookup.rs:401-522 | appends exactly the chosen item or stand-in, sets error and cut-off exactly as specified, and keeps the layout canonical |
| `LookupBuilding.LookupBuilder.Finish` | src/crates/netipc/src/protocol/lookup/cgroups_lookup.rs:608-616 | the buffer starts with the canonical response of the added items |
| `LookupBuilding.AnswerAll` | src/crates/netipc/src/protocol/lookup/cgroups_lookup.rs:677-679 | answering path after path gives exactly the specified items, or the specified error |
| `LookupBuilding.Start` | src/crates/netipc/src/protocol/lookup/cgroups_lookup.rs:659-676 | a builder with the whole request reserved, or overflow |
| `LookupBuilding.Dispatch` | src/crates/netipc/src/protocol/lookup/cgroups_lookup.rs:650-687 | the buffer holds the specified reply to the request, or the same error is returned |
| `LookupRequests.RequestSize` | src/crates/netipc/src/service/raw/cgroups_lookup.rs:12-31 | the computed size is the length of the encoded request |
| `LookupRequests.RequestGrows` | src/crates/netipc/src/service/raw/cgroups_lookup.rs:33-64 | each further path adds at least 9 bytes, so bisection is sound |
| `LookupRequests.PartTakesEach` | src/crates/netipc/src/service/raw/cgroups_lookup.rs:33-64 | a limit that takes a request takes each of its paths alone |
| `LookupRequests.NextRequestCount` | src/crates/netipc/src/service/raw/cgroups_lookup.rs:33-64 | bisection finds the longest prefix whose request fits, and fails iff one path does not fit |
| `LookupRequests.EncodeRequest` | src/crates/netipc/src/protocol/lookup/cgroups_lookup.rs:67-108 | encodes iff every path is valid, the request fits and its offsets fit u32; the bytes are the canonical request |
| `LookupStitching.ResponseSize` | src/crates/netipc/src/service/raw/common.rs:74-92 | the computed size is the length of the stitched response |
| `LookupStitching.EncodeRaw` | src/crates/netipc/src/protocol/lookup/common.rs:481-521 | raw items are stitched into the canonical response iff all decode, the buffer suffices and the offsets fit u32 |
| `LookupStitching.OversizedItem` | src/crates/netipc/src/service/raw/cgroups_lookup.rs:66-86 | the stand-in, built and read back, is the oversized placeholder of that path, for every valid representable path |
| `HonestLookup.HonestReply` | src/crates/netipc/src/protocol/lookup/cgroups_lookup.rs:650-687 | a server with one handler replies to every request it has room for with its answers, cut off after at least the first |
| `HonestLookup.HonestRows` | src/crates/netipc/src/protocol/lookup/cgroups_lookup.rs:196-254 | what the client reads from that reply is those items, split cleanly |
| `HonestLookup.FairItems` | src/crates/netipc/src/protocol/lookup/cgroups_lookup.rs:401-616 | of the items taken from one reply, later ones are always the answers; the first is the answer iff it fits beside the placeholders of the other paths, and the oversized mark otherwise |
| `LookupTrace.MarkedExactlyWhen` | src/crates/netipc/src/service/raw/cgroups_lookup.rs:112-233 | exactly which items of a call are oversized marks, stand-ins included and whatever the limits were: item j is one iff it opened its turn and that turn was a stand-in, or an exchange whose other placeholders leave it no room; every other item is the handler answer |
| `LookupTrace.TooLongIsMarked` | src/crates/netipc/src/service/raw/cgroups_lookup.rs:129-150 | a path beyond every request limit of the call is always replaced, and by a stand-in |
| `LookupTrace.ExchangesFrom` | src/crates/netipc/src/service/raw/cgroups_lookup.rs:112-233 | under fixed limits the turns of a call, complete or not, are the first of a list that is a function of paths, answers, reply size and limits |
| `LookupTrace.SubcallsBound` | src/crates/netipc/src/service/raw/cgroups_lookup.rs:158-161 | no call makes more exchanges than it has paths, the trailing one for no path included |
| `LookupTrace.MarkedByInputs` | src/crates/netipc/src/service/raw/cgroups_lookup.rs:112-233 | under fixed limits item j is an oversized mark iff the inputs alone say so, and the handler answer iff they do not |
| `LookupTrace.TracedSnug` | src/crates/netipc/src/service/raw/cgroups_lookup.rs:112-233 | an answer that fits in every exchange that can open with it under the limits of the call is replaced only by a stand-in, however the request was split |
| `HonestLookup.AnsweredSlice` | src/crates/netipc/src/service/raw/cgroups_lookup.rs:151-156 | every stretch of an answerable request is answerable, so room for the whole is more than a split call needs |
| `LogicalLookup.Collect` | src/crates/netipc/src/service/raw/cgroups_lookup.rs:177-206 | takes the answered items iff every path is echoed and the cut-off marks form a tail after at least one answer |
| `LogicalLookup.TakeReply` | src/crates/netipc/src/service/raw/cgroups_lookup.rs:169-206 | a reply is used iff it decodes, keeps the generation and splits cleanly |
| `LogicalLookup.LookupClient.EnsureCapacity` | src/crates/netipc/src/service/raw/client.rs:225-266 | every outcome both ways: aborted, beyond u32, beyond the configuration, or true iff the session takes the request or a reconnect grows it enough; the session changes only by that reconnect |
| `LogicalLookup.LookupClient.Prepare` | src/crates/netipc/src/service/raw/cgroups_lookup.rs:129-150 | asks for a longest fitting prefix iff one path fits; otherwise stands in when the configuration rules the path out, and retries when a reconnect makes room |
| `LogicalLookup.LookupClient.Ask` | src/crates/netipc/src/service/raw/cgroups_lookup.rs:153-206 | items taken answer their paths and come from that reply; from a truthful server they are exactly the items in front of the cut-off marks, and with an honest server that has room for the part the exchange succeeds |
| `LogicalLookup.LookupClient.GatherAll` | src/crates/netipc/src/service/raw/cgroups_lookup.rs:123-208 | the loop ends with an item for every path or an error; what it gathered is accounted for turn by turn, the exchange count is that of the turns, and with an honest server it stops early only for want of exchanges |
| `LogicalLookup.LookupClient.Stitch` | src/crates/netipc/src/service/raw/cgroups_lookup.rs:211-231 | succeeds iff the response stays within the configured size, and then gives back every gathered item |
| `LogicalLookup.LookupClient.Call` | src/crates/netipc/src/service/raw/cgroups_lookup.rs:112-233 | terminates; against any server a result names every path in order, has no cut-off mark, one generation and a source for every item; with a truthful one the items are exactly what a sequence of stand-ins and longest fitting requests gave, under limits the session really had; with an honest one that has room for each part that fits a request it succeeds iff its turns need no more exchanges and its result no more bytes than allowed, through splits, growth and stand-ins |
| `LogicalLookup.RequestedPathsOk` | src/crates/netipc/src/protocol/lookup/cgroups_lookup.rs:111-174 | every path of an accepted request is non-empty and free of NULs |
| `LookupScenarios.LookupUnderLimit` | src/crates/netipc/src/service/raw/cgroups_lookup.rs:112-233 | client and server composed, for every request limit: the call succeeds iff the exchanges its inputs need and its result stay within the caller limits, and each item is the oversized mark iff the inputs say so and the handler answer otherwise |
| `LookupScenarios.NeededExactly` | src/crates/netipc/src/service/raw/cgroups_lookup.rs:157-161 | a complete call makes exactly the exchanges its inputs determine, and one that stopped early would need more |
| `LookupScenarios.LookupEndToEnd` | src/crates/netipc/src/service/raw/cgroups_lookup.rs:112-233 | when moreover every path can be asked for and every answer fits in each exchange that can open with it, the call succeeds and every item, labels included, is the handler answer; the reply buffer need not take the whole request |
| `LookupScenarios.SplitExample` | src/crates/netipc/src/service/raw/cgroups_lookup.rs:33-64 | three paths, a request limit and a reply buffer for one at a time: the end-to-end conditions hold where splitting is forced and the whole request has no room |
| `LookupScenarios.FittingAnswerIsLost` | src/crates/netipc/src/service/raw/cgroups_lookup.rs:112-233 | a whole call that returns the oversized mark for an answer the same server does return when it is asked for alone, and the answer for the path behind it |
| `LogicalLookup.HonestSource` | src/crates/netipc/src/service/raw/cgroups_lookup.rs:177-206 | an item of any truthful reply that answers a path is the handler's answer to it or its oversized mark |
| `LogicalLookup.HonestResult` | src/crates/netipc/src/service/raw/cgroups_lookup.rs:112-233 | with a truthful server every item of every result is the handler's answer or an oversized mark, whatever failures, limits and reconnects occurred |

## Left out

- Batch.Build: offsets and lengths wrap to u32 as in the code, so reading items back is stated for buffers below 4 GiB.
- LogicalLookup.LookupClient.Call: the retry inside one exchange is part of the `World`, which may change the session and configured limits in any way, not only by the doubling of the retry; the checks that the client is connected and not aborted at the start are not modelled; scratch buffers are fresh arrays.
- LookupBuilding.LookupBuilder.Add: bytes an add writes behind the last item before failing its u32 checks (buffers over 4 GiB) are not tracked.
- SnapshotCache.IndexItems: fewer than 2^31 items, beyond which twice the count overflows u32; a reply below 4 GiB holds fewer.
- SnapshotCache.CgroupsCache.Refresh: replies are below 4 GiB, as the header's payload length guarantees.
- The apps lookup method, which repeats the cgroups lookup with a second item layout.
- The Windows and shared-memory transports, and the C and Go copies of what is modelled in Rust.
- The managed server loop, client connection states and reconnect policy, apart from what the logical lookup needs of them.
- Sockets, timing, rate limiting, process control and CSV output of the benchmark drivers.
- UTF-8 conversion, error display strings and the service facades, which only forward fields.
