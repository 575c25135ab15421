# Pardosa verification model

Pardosa is an append-only event store. Each domain entity is a *fiber*, a hash-linked chain of
envelopes; the fibers of a store are interleaved into one *dragline*. This project models the core of
that store in Dafny and proves what it is for. One predicate, `History.ValidHistory`, says what a
well-formed dragline is: event ids are unique, a fiber opens with a genesis, and every other event
names the immediately preceding event of its own fiber and carries that event's commitment. The
components are measured against it: the reader accepts exactly the longest valid prefix, the session
index admits exactly the extensions, the JetStream writers never leave it in any interleaving, and the
recovery loops replay it.

## Layout

| files | content |
|---|---|
| `Wire.dfy` | bytes, little-endian integers, bounded text, the byte buffer, the checksums as arbitrary functions |
| `Descriptor.dfy`, `DescriptorCodec.dfy`, `DescriptorLimits.dfy`, `DescriptorMethods.dfy`, `Admission.dfy` | the recursive schema descriptor: wire form, exactness, which nodes can be encoded, the encoder, length calculator and cursor decoder as loops, structural completeness and admission |
| `Payload.dfy`, `PayloadCodec.dfy`, `PayloadMethods.dfy`, `TypeDepth.dfy` | the value codec of every derived type, and the compile-time nesting bound |
| `Envelope.dfy`, `History.dfy` | envelopes, commitments, constructors, valid draglines, the pairwise link check |
| `Reader.dfy` | the branded reader session with its maps, queue and flags |
| `Sessions.dfy` | the writer session's index and the append pipeline |
| `Container.dfy`, `Ownership.dfy`, `Meta.dfy` | container framing, ownership records, the ownership file |
| `FileEngine.dfy`, `FileRuns.dfy`, `FileCreate.dfy` | the file engine, whole runs with crashes, creation with crashes |
| `NatsWriter.dfy`, `NatsRuns.dfy`, `NatsCreate.dfy`, `Recovery.dfy`, `Claims.dfy` | the JetStream protocols, the three recovery loops, compare-and-set ownership claims |
| `Composition.dfy`, `FilePipelines.dfy` | writer pipelines, each with its own index, over the JetStream protocol and over the file engine |

Codecs come twice. A pure encoder and a parser that passes on the rest of its input carry the exactness
proofs; the imperative encoders, cursors and loops of the program are methods proved equal to them.
Protocols are step relations over explicit state: every order of steps, every lost or late
acknowledgement and every outcome of a system call is a choice of the run.

## What the proofs found

- The compile-time nesting assertions of derived types miss variants written `V {}` or `V()`: a derived
  struct with a field of fifteen options over such an enum passes them and is refused as too deep
  (`TypeDepth.AssertionMissesEmptyVariants`). The exact condition is `TypeDepth.AssertionAndDepthLimit`.
- The authority check and the publish of a JetStream append are not atomic, so a writer that has been
  superseded can still land a block (`NatsWriter.SupersededBlockCanLand`). It is one block at most
  (`NatsWriter.AtMostOneBlockAfterSupersession`), and it can happen exactly while a publish that expects
  the present end of the stream has passed its check or is under way (`NatsWriter.SupersededLandsIff`).
- Reopening a clean container does not sync it, so a frame whose landing was undetermined can be
  recovered by one session and be gone after a later crash (`FileRuns.RecoveredFrameCanVanish`).
  `FileRuns.RecoveredIsDurableIff` says exactly when recovered frames are durable; landed frames and
  synced ones always are (`FileRuns.LandedOnlyIsDurable`, `FileRuns.SyncedFramesStay`).
- A frame with a wrong checksum is refused and never cut off (`FileEngine.CorruptFileIsRefused`), but a
  length damaged so that it points past the end of the file cannot be told from a torn write: opening cuts
  the file there (`Container.ScanOutcome`, `FileEngine.TornFileIsCut`).
- A crash inside the twelve header bytes of the data file leaves a store that can be neither opened, nor
  completed, nor created again (`FileCreate.CrashDuringCreate`).
- The presence check before a JetStream creation does not exclude a second creator; the expected sequence
  of the first publish does (`NatsCreate.PresenceCheckDoesNotExclude`, `NatsCreate.CreationIsExclusive`).
- The pairwise link check admits a stale precursor that the reader refuses
  (`History.PairwiseAdmitsStalePrecursor`); `History.PairwiseAgreesIff` says exactly when the two agree.
- Completing a creation does not look for an outbound pointer, so a store retired before its data file
  was written is refused by opening and still completed; the session obtained may not append
  (`FileCreate.RetiredIsStillCompleted`).
- Identity-structure records are not canonical, all other ownership records are
  (`Ownership.IdentityIsNotCanonical`, `Ownership.RecordExact`); `Ownership.IdentityCanonicalIff` says
  exactly which inputs are.
- A writer that folds over the stream after another session has landed a block recovers past that block,
  so its own blocks need not form one run (`NatsRuns.SessionsCanSplit`, `NatsRuns.OneRunIff`). One that
  reads all envelopes updates its index and not the sequence its engine expects, and then lands nothing
  until it folds (`NatsRuns.BehindNeverLands`). Neither endangers the dragline.
- The envelope decoder accepts 85 more payload lengths than the encoder emits
  (`Envelope.EnvelopeCodecExact`).
- The bound on seen event ids of a session index can never refuse anything the other two bounds would
  admit (`Sessions.SeenBoundNeverDecides`).

## Model

| member | source | states |
|---|---|---|
| Wire.LeAt | crates/pardosa/src/schema.rs:1280-1297 | Integers are written least significant byte first: byte i of n is n divided by 256^i, modulo 256. |
| DescriptorCodec.DescriptorCodecExact | crates/pardosa/src/schema.rs:296-710 | Decoding yields a node and a rest exactly when the node has widths 1 or 2 and is encodable and the input is its encoding followed by that rest: no two inputs are confused, in either direction. |
| DescriptorCodec.ParseOfEncode | crates/pardosa/src/schema.rs:408-710 | Decoding an encoding followed by anything gives the node and leaves what follows; no allocation guard fires and the "no payload" byte is never read as a tag. |
| DescriptorCodec.EncodeOfParse | crates/pardosa/src/schema.rs:408-710 | Whatever the decoder accepts re-encodes to exactly the bytes consumed. |
| DescriptorCodec.FieldsAtLeast | crates/pardosa/src/schema.rs:296-392 | Encoded fields take at least five bytes each, which is why the field-count guard never refuses a genuine struct. |
| DescriptorCodec.VariantsAtLeast | crates/pardosa/src/schema.rs:296-392 | Encoded variants take at least width plus five bytes each, which is why the variant-count guard never refuses a genuine enum. |
| DescriptorCodec.FieldCountRefused | crates/pardosa/src/schema.rs:493-573 | A struct that declares more fields than can fit in the bytes left, at five each, is refused as truncated before any field is read. |
| DescriptorCodec.VariantCountRefused | crates/pardosa/src/schema.rs:574-710 | The same for an enum and its variants, at width plus five bytes each. |
| DescriptorCodec.NodeRefusals | crates/pardosa/src/schema.rs:408-470 | Excess depth and an unknown tag are each refused with their own error, whatever follows. |
| DescriptorCodec.WidthRefused | crates/pardosa/src/schema.rs:574-610 | So is a discriminant width other than one or two. |
| DescriptorMethods.EncodeRecursive | crates/pardosa/src/schema.rs:296-392 | The recursive encoder appends exactly the encoding, or fails with its error (depth, text length, count, discriminant), for every node and depth. |
| DescriptorMethods.EncodedLenRecursive | crates/pardosa/src/schema.rs:177-294 | The length calculator, which encodes nothing, succeeds exactly when encoding does, with the same error otherwise, and equals the number of bytes emitted. |
| DescriptorMethods.DecodeRecursive | crates/pardosa/src/schema.rs:408-710 | The cursor-driven decoder finds in `buf[cursor..]` the same node, the same number of consumed bytes and the same error as the parser the exactness proof is about. |
| DescriptorMethods.DecodeFields | crates/pardosa/src/schema.rs:493-573 | The field loop, pushing one field at a time and advancing the cursor, equals the recursive parse of the whole list. |
| DescriptorMethods.DecodeVariants | crates/pardosa/src/schema.rs:574-710 | The same for the variant loop with its discriminants and optional payloads. |
| Admission.ValidateRecursive | crates/pardosa/src/schema.rs:974-1104 | The walk with its set of seen discriminants returns the constraint violated first, parents before children and left to right, and none exactly for a complete descriptor: nonzero bounds, named fields and variants, real widths, in-range and pairwise distinct discriminants, at most sixteen levels. |
| Admission.FaultIff | crates/pardosa/src/schema.rs:974-1104 | The walk meets no violation exactly when the declarative completeness condition holds of every part. |
| Admission.FirstFieldFault | crates/pardosa/src/schema.rs:1027-1041 | The first field that is unnamed, or has a violation of its own, decides what is reported for a struct. |
| Admission.FirstVariantFault | crates/pardosa/src/schema.rs:1042-1104 | The first variant that is unnamed, out of range, repeated or violated inside, in this order, decides what is reported for an enum. |
| Admission.TryFromDescriptor | crates/pardosa/src/schema.rs:841-880 | A descriptor is admitted exactly when its version is nonzero, it is complete, encodable and its record is at most 65536 bytes; record and identity are those of its encoding. |
| Admission.AdmissibleIff | crates/pardosa/src/schema.rs:841-880 | Completeness leaves one reason not to encode, a name or count beyond four bytes, so admission is decided by version, completeness, sizes and record length. |
| Admission.AdmittedRecordReadsBack | crates/pardosa/src/schema.rs:725-770 | The record of an admitted descriptor reads back as that version and that tree with nothing left over. |
| PayloadCodec.PayloadCodecExact | crates/pardosa-derive/src/lib.rs:51-649 | For every well-formed type of integers, bools, timestamps, ids, bounded text and bytes, options, vectors, structs and enums: decoding yields a value and a rest exactly when the value has the type and the input is its encoding followed by that rest. |
| PayloadCodec.DecOfEnc | crates/pardosa/src/schema.rs:1194-1585 | Decode after encode, for nested containers and derived types alike. |
| PayloadCodec.EncOfDec | crates/pardosa/src/schema.rs:1194-1585 | Every accepted input is the encoding of the value it yields. |
| PayloadCodec.RootAcceptsExactlyTheImage | crates/pardosa-derive/src/lib.rs:750-1060 | At the schema root, a payload is accepted exactly when it is the encoding of a value of the type. |
| PayloadCodec.EnumWire | crates/pardosa-derive/src/lib.rs:318-323 | An enum value is its discriminant and its payload: one byte when every discriminant of the enum is at most 255, otherwise two, the low one first. |
| PayloadCodec.SignedWire | crates/pardosa/src/schema.rs:1287-1365 | A signed value is written in its width, negative ones as their two's complement. |
| PayloadCodec.Refusals | crates/pardosa/src/schema.rs:1410-1585 | Over-long and empty text, over-full vectors, undefined flags and option tags, the zero timestamp and unknown discriminants are each refused with their own error, whatever follows. |
| PayloadMethods.EncodeType | crates/pardosa-derive/src/lib.rs:160-260 | The generated encode body, appending field by field and item by item, appends exactly the encoding. |
| PayloadMethods.DecodeType | crates/pardosa-derive/src/lib.rs:450-649 | The generated decode body, moving one cursor over the buffer, agrees with the parser in value, consumed length and error. |
| PayloadMethods.DecodeItems | crates/pardosa/src/schema.rs:1542-1585 | The item loop of a bounded vector agrees with the parse of the whole list. |
| PayloadMethods.DecodePayloadBytes | crates/pardosa-derive/src/lib.rs:1046-1060 | The root decoder accepts exactly when decoding succeeds and no byte remains. |
| TypeDepth.NestingIsTypeDepth | crates/pardosa-derive/src/lib.rs:215-239 | The descriptor of a type nests exactly as deep as the larger of its `TYPE_DEPTH` and the depth of its deepest empty braced variant. |
| TypeDepth.EnumDescribed | crates/pardosa-derive/src/lib.rs:619-630 | The descriptor of an enum lists its variants in order with their discriminants and names, under the width its values are written with: one byte exactly when every discriminant fits one. |
| TypeDepth.StructDescribed | crates/pardosa-derive/src/lib.rs:245-250 | The descriptor of a struct lists its fields in order, each under its name with the descriptor of its type. |
| TypeDepth.ScalarDescribed | crates/pardosa/src/schema.rs:1198-1435 | The descriptor of a scalar type has the size of its encoded values and tells signed from unsigned. |
| DescriptorLimits.EncodesIff | crates/pardosa/src/schema.rs:296-392 | Encoding succeeds exactly when every name, count and discriminant fits its width and the node nests within sixteen levels; it blames depth only for deeper nodes, and only depth when the sizes fit. |
| DescriptorLimits.SizeRefusals | crates/pardosa/src/schema.rs:296-392 | A name or count beyond four bytes and a discriminant beyond its width are refused each with its own error. |
| TypeDepth.AssertionAndDepthLimit | crates/pardosa-derive/src/lib.rs:589-611 | For a type within the compile-time bound, the descriptor encodes exactly when its sizes fit and no empty braced variant sits deeper than sixteen; with fitting sizes and a deeper one it fails with the depth error. |
| TypeDepth.AssertionMissesEmptyVariants | crates/pardosa-derive/src/lib.rs:215-239 | A derived struct with one field of fifteen options over an enum with a variant `V {}`, under any names, passes its own and the enum's assertion and its descriptor fails with the depth error. |
| Envelope.EnvelopeCodecExact | crates/pardosa/src/encoding.rs:816-900 | The decoder accepts exactly the wire forms whose payload length fits four bytes; whatever the encoder emits reads back. |
| Envelope.EncodableIff | crates/pardosa/src/encoding.rs:833-900 | An envelope is written exactly when its whole wire form, 85 bytes and the payload, fits a four-byte length. |
| Envelope.HeaderExact | crates/pardosa/src/encoding.rs:718-812 | The 81-byte header is read exactly when it was written: field order, offsets and the strict flag byte. |
| Envelope.PreimageInjective | crates/pardosa/src/encoding.rs:1001-1010 | Header and payload can be recovered from the committed bytes, so distinct envelopes are committed under distinct preimages. |
| Envelope.GenesisExact | crates/pardosa/src/encoding.rs:913-940 | A constructed genesis is exactly the writable attached envelope with these ids and payload and no precursor; a zero id gives none. |
| Envelope.ChainExact | crates/pardosa/src/encoding.rs:943-996 | A constructed successor is exactly the writable envelope with this id, flag and payload on the fiber of its precursor that names it and commits to it. |
| History.GenesisExtends | crates/pardosa/src/encoding.rs:913-940 | A constructed genesis extends a valid dragline exactly when its id is fresh and its fiber unused. |
| History.ChainExtends | crates/pardosa/src/encoding.rs:943-996 | An event chained (detached or not) to an event of a valid dragline extends it exactly when its id is fresh and that event is the latest of its fiber. |
| History.FiberIsLinkedChain | crates/pardosa/src/store.rs:813-846 | Each fiber of a valid dragline, taken alone, is one chain from a genesis to its head with every link and commitment in place. |
| History.HeadDeterminesChain | crates/pardosa/src/encoding.rs:1001-1010 | Two linked chains with equal head commitments are identical in every header and payload, or their events exhibit a digest collision. |
| History.HeadCommitmentPinsFiber | crates/pardosa/src/store.rs:813-830 | The head commitment of a fiber pins down its whole past, even across two stores, up to a digest collision. |
| History.PairwiseAdmissionExact | crates/pardosa/src/store.rs:2241-2328 | The pairwise check accepts everything that extends the dragline, and exactly characterises what more it accepts. |
| History.PairwiseAgreesIff | crates/pardosa/src/store.rs:2241-2328 | On a valid dragline an event admitted pairwise extends it exactly when its id is new and its fiber is unused (genesis) or has the named precursor as latest event. |
| History.LinkRefusal | crates/pardosa/src/store.rs:2286-2328 | What the pairwise check answers about a link it refuses, in terms of the events of the dragline. |
| History.PairwiseAdmitsStalePrecursor | crates/pardosa/src/store.rs:2286-2328 | A chain to a genesis that already has a successor passes the pairwise check and does not extend the dragline. |
| Container.HeaderExact | crates/pardosa/src/file.rs:38-88 | Only one header is accepted. |
| Container.FrameExact | crates/pardosa/src/file.rs:139-201 | A frame is read exactly when the bytes are its length, payload and checksum, followed by the rest. |
| Container.FrameCutShort | crates/pardosa/src/file.rs:158-201 | A frame cut anywhere, even inside its checksum, reads as truncated and never as corrupt. |
| Container.FrameVerdict | crates/pardosa/src/file.rs:158-201 | Lengths alone make a frame truncated, and a wrong checksum over a complete frame alone makes it corrupt. |
| Container.HeaderVerdict | crates/pardosa/src/file.rs:67-88 | Which of the three header errors a file gets, by its first twelve bytes. |
| Container.ScanFileExact | crates/pardosa/src/file.rs:342-426 | For arbitrary bytes: a scan yields these frames and this tail exactly when the file is the header, the re-encoded frames and that tail, and the tail is empty or a truncated frame. |
| Container.CorruptFrameFails | crates/pardosa/src/file.rs:394-415 | A frame with a wrong checksum fails the scan with a checksum mismatch wherever it stands and whatever follows it; it is never taken for a torn tail. |
| Container.ScanOutcome | crates/pardosa/src/file.rs:342-426 | Behind a good header a scan succeeds exactly on whole frames followed by less than a frame, and otherwise fails exactly on a wrong checksum. |
| Container.WholeIsMaximal | crates/pardosa/src/file.rs:342-426 | The frames counted as wholly inside a prefix are as many as fit. |
| Container.CutFileScans | crates/pardosa/src/file.rs:342-466 | A container cut at any byte past its header scans to exactly the frames wholly inside; valid and torn bytes add up, and cutting off the torn part gives a clean container with the same frames. |
| Container.CleanFileScans | crates/pardosa/src/file.rs:342-426 | Every container of whole frames scans clean to those frames. |
| Container.ReadContainerFrames | crates/pardosa/src/file.rs:342-426 | The scan loop over a moving cursor returns the frames of the declarative scan, with valid length plus truncated bytes equal to the file length, and its errors. |
| Reader.ArtefactReader.WithStream | crates/pardosa/src/store.rs:498-566 | Eager ingestion holds the whole stream, or is refused and empty exactly when 65536 items or 64 MiB of charge are exceeded; the byte limit is reported when the first 65536 items already exceed it, the item limit otherwise. |
| Reader.ArtefactReader.ReadEvent | crates/pardosa/src/store.rs:692-846 | One read of the imperative session equals one step of the list specification, keeps both maps equal to those of the observed list and the byte counter equal to the queue's charge; the full-fiber-table, position-overflow, missing-genesis and late-refusal branches are unreachable. |
| Reader.SessionReads | crates/pardosa/src/store.rs:692-846 | The n-th read of a session: observations at positions 0, 1, 2, ... for exactly the accepted prefix, then one error naming the rule broken, then nothing for ever. |
| Reader.AcceptedIsLongestValidPrefix | crates/pardosa/src/store.rs:692-846 | The accepted prefix is exactly the longest one that leaves a valid dragline. |
| Reader.RefusedSessionReads | crates/pardosa/src/store.rs:692-725 | A refused session answers once with the refusal, then falls silent. |
| Reader.Decide | crates/pardosa/src/store.rs:731-846 | Looking two maps up decides the declarative rule over the whole observed list, and names the rule that is broken. |
| Reader.ViolationMeans | crates/pardosa/src/store.rs:731-846 | Which answer an event that does not extend the dragline gets, in terms of the events observed. |
| Reader.ChargeIs | crates/pardosa/src/store.rs:365-403 | A queue is charged 85 bytes and the payload capacity for each entry. |
| Reader.ArtefactReader.ObserveGenesis | crates/pardosa/src/store.rs:849-892 | A genesis is taken in exactly when it extends the observed dragline; otherwise nothing changes. |
| Reader.ArtefactReader.ObserveEvent | crates/pardosa/src/store.rs:895-937 | A later event, checked against its fiber's map entry alone, is taken in exactly when it extends the observed dragline; otherwise nothing changes. |
| Reader.FibersOfIsLast | crates/pardosa/src/store.rs:731-846 | The fiber map always holds id and commitment of each fiber's latest event. |
| Reader.EventsOfIsFind | crates/pardosa/src/store.rs:731-846 | The event map always holds the fiber of each observed event id. |
| Reader.DecodeFrames | crates/pardosa/src/store.rs:592-665 | Decoding under the limits succeeds exactly when every frame is one sound envelope and the whole queue fits, and yields all of them. |
| Reader.WithFrames | crates/pardosa/src/store.rs:568-665 | A session opened from frames is never refused by the second limit check and holds the envelopes of all frames in order. |
| Reader.SoundIff | crates/pardosa/src/store.rs:600-640 | A frame is taken exactly when it is one whole envelope under its own checksum. |
| Sessions.AdmitsExactlyExtensions | crates/pardosa/src/store/session_index.rs:242-330 | Tips, counts and seen ids suffice: an append is admitted exactly when its id is nonzero, its fiber intact, it extends the whole dragline and there is room. |
| Sessions.RefusalMeans | crates/pardosa/src/store/session_index.rs:242-330 | Why an append is refused, in terms of the dragline, and in which order the reasons count. |
| Sessions.DecodesIff | crates/pardosa/src/store/session_index.rs:375-399 | A frame decodes exactly when it is the wire form of one envelope and nothing else. |
| Sessions.SeenBoundNeverDecides | crates/pardosa/src/store/session_index.rs:266-275 | While the fiber and event bounds leave room, fewer than 10^10 events are on the dragline, so the third bound never refuses. |
| Sessions.BlameIsRight | crates/pardosa/src/store/session_index.rs:448-482 | Recovery marks a fiber broken only for events that really do not extend the dragline. |
| Sessions.AdmittedAppendKeepsStanding | crates/pardosa/src/store/session_index.rs:242-330 | Damage is contained: an admitted append neither breaks nor mends any fiber, and keeps a valid dragline valid. |
| Sessions.UnbrokenIffValid | crates/pardosa/src/store/session_index.rs:128-132 | An index has no broken slot exactly when the recovered dragline is valid. |
| Sessions.BreakIsPermanent | crates/pardosa/src/store/session_index.rs:448-464 | No later event mends a broken fiber. |
| Sessions.SessionIndex.ProcessEvent | crates/pardosa/src/store/session_index.rs:402-482 | Replaying an event fails exactly for want of room or a visible zero id; otherwise the index stands for the longer dragline, broken fibers marked and counted. |
| Sessions.SessionIndex.CommitUnchecked | crates/pardosa/src/store/session_index.rs:352-373 | After a validated event the index stands for the dragline with that event. |
| Sessions.BuildFromFrames | crates/pardosa/src/store/session_index.rs:496-505 | Rebuilding succeeds exactly when every frame is one envelope, no zero id shows and both bounds hold over the whole dragline; the index then stands for all of it. |
| Sessions.Store.AppendFrame | crates/pardosa/src/store/pipeline.rs:355-430 | A block is handed to the engine exactly when the session is certain and authorised the frame is one envelope with a nonzero id that extends the dragline on an intact fiber, and there is room; only a landed block enters the index, and a valid dragline stays valid whether or not an undetermined block landed. |
| NatsWriter.NatsEngine.AppendBlock | crates/pardosa-nats/src/adapter.rs:2602-2730 | One append: it publishes exactly when certain, unretired and of the recorded epoch, with the last known sequence; it answers `Landed` exactly for an acknowledgement from the right stream, undetermined exactly for a missing or foreign one, and becomes uncertain on every conflict, loss of authority or undetermined answer, and only then. |
| NatsWriter.EveryRunIsSafe | crates/pardosa-nats/src/adapter.rs:2602-2872 | In every interleaving of sessions, lost or late messages, ambiguous failures, epoch changes and repeated reads of the stream, the data stream is a valid dragline, what each session knows is a prefix of it, and since its last recovery a session's blocks lie in one run starting where it recovered, all acknowledged except possibly the last. |
| NatsRuns.OneRunIff | crates/pardosa-nats/src/adapter.rs:2759-2872 | The blocks of a session form one run starting right where it opened if and only if none of them lands after a recovery that found another session's block past its last sequence. |
| NatsRuns.SessionsCanSplit | crates/pardosa/src/store/pipeline.rs:639-757 | A run in which a session lands, folds over the stream after another session has landed, and lands again, so that its blocks are not one run. |
| NatsRuns.BehindNeverLands | crates/pardosa/src/store/pipeline.rs:549-606 | A session that has read more than its engine expects lands nothing, neither what it sends nor what it sent before, in any continuation in which it does not recover again. |
| NatsRuns.WhatReadingDoes | crates/pardosa/src/store/pipeline.rs:549-757 | Recovering brings knowledge and engine to the end of the stream; rereading brings the knowledge alone, and leaves the session behind exactly when the stream has grown. |
| NatsRuns.UncertainNeverPublishes | crates/pardosa-nats/src/adapter.rs:2557-2730 | After a conflict on sending, any answer but an acknowledgement, or a check that reads another epoch or a retirement, the session stays idle and makes no further publish in any continuation, recoveries and re-reads included. |
| NatsRuns.FailedSendMayRetry | crates/pardosa-nats/src/adapter.rs:2640-2665 | A send that fails before the broker answers leaves the engine as it was. |
| NatsWriter.StepKeepsInv | crates/pardosa-nats/src/adapter.rs:2602-2730 | Every protocol step keeps the invariant that ties sessions, messages in flight and stream. |
| NatsWriter.DeliverKeepsInv | crates/pardosa-nats/src/adapter.rs:2640-2730 | A message, however late, lands only on top of exactly the history it was checked against. |
| NatsWriter.AtMostOneBlockAfterSupersession | crates/pardosa-nats/src/adapter.rs:2557-2600 | After a session is superseded or the store retired, in any continuation, repeated reads included, at most one new block of it enters the stream, at the end the stream has now, and none past the sequence its engine expects. |
| NatsWriter.SupersededLandsIff | crates/pardosa-nats/src/adapter.rs:2557-2730 | A superseded session can bring a new block into the stream in some continuation if and only if it has passed its check with its last sequence at the end of the stream, or a message of its own expecting that end is under way; in all other states no continuation lets it. |
| NatsWriter.CeilingNeverRises | crates/pardosa-nats/src/adapter.rs:2557-2600 | A superseded session stays superseded, and the last position it may still come to own never grows, however often it reads the stream. |
| NatsWriter.SupersededBlockCanLand | crates/pardosa-nats/src/adapter.rs:2602-2660 | A run in which a superseded session lands a block, so the bound is met. |
| Composition.PipelinesKeepDraglineValid | crates/pardosa/src/store/pipeline.rs:355-757 | End to end, with nothing assumed of callers: however many writer pipelines submit whatever envelopes to one stream and fold over it or read it all in mid-session, the data stream stays a valid dragline; each index stands for exactly the prefix its session knows, and where that is more than the engine expects no publish of the session can land as things stand. |
| Composition.AdmittedIsSent | crates/pardosa/src/store/pipeline.rs:393-407 | An event that its index admits, submitted by a certain idle session of the recorded epoch, passes the check and can be sent. |
| Composition.OneIndexPerDragline | crates/pardosa/src/store/session_index.rs:496-505 | A dragline has at most one index, so opening, folding and reading everything build the same. |
| Composition.BuildIndex | crates/pardosa/src/store/session_index.rs:496-505 | Rebuilding from frames yields the index the protocol steps speak of, exactly when the frames are whole envelopes within the bounds. |
| Composition.ReadKeepsInv | crates/pardosa/src/store/pipeline.rs:549-757 | Opening, folding over and reading the stream keep every index standing for what its session knows. |
| Composition.StepIsProtocolStep | crates/pardosa/src/store/pipeline.rs:393-404 | A submission that passes the index extends what the session knows, which is all the protocol relies on. |
| Composition.ProtocolKeepsInv | crates/pardosa-nats/src/adapter.rs:2602-2730 | Every protocol step keeps every index standing for its session's view, with room reserved for the block in hand until it is acknowledged. |
| NatsCreate.CreationIsExclusive | crates/pardosa-nats/src/adapter.rs:1354-1642 | However `create` and `complete_creation` calls interleave, at most one call ever has its meta header acknowledged, also counting those that fail later; the meta records are in order and all its own, the data header is published at most once and only after all three of them, and at most one call returns a session. |
| NatsCreate.AckedHeaderStays | crates/pardosa-nats/src/adapter.rs:1354-1642 | Whatever became of it afterwards, a caller whose meta header was ever acknowledged is the one the meta stream begins with. |
| NatsCreate.StepKeepsInv | crates/pardosa-nats/src/adapter.rs:1888-2040 | Every step of creation or completion keeps the order of records and their authorship. |
| NatsCreate.PassesPresenceCheckIff | crates/pardosa-nats/src/adapter.rs:1316-1360 | A creation passes the presence check exactly when it looked at the meta stream before any call had ensured that stream and at the data stream before any had ensured the other. |
| NatsCreate.PresenceCheckDoesNotExclude | crates/pardosa-nats/src/adapter.rs:1316-1360 | A run in which two creations both pass it. |
| NatsCreate.UncontestedCreateReturns | crates/pardosa-nats/src/adapter.rs:1354-1642 | A run in which a creation alone returns its session with all four records its own. |
| NatsCreate.CompletionTakesOver | crates/pardosa-nats/src/adapter.rs:1888-2040 | A run in which a creator stops after its meta records and a completion returns the session. |
| Recovery.DefaultRecoverFrames | crates/pardosa/src/store/engine.rs:58-103 | The chunked loop, for any chunk size including zero, delivers every frame once, in order, under its index, until the callback refuses. |
| Recovery.FileRecoverFrames | crates/pardosa/src/file.rs:1846-1878 | The file override delivers the same from one scan, and nothing from a torn container. |
| Recovery.NatsRecoverFrames | crates/pardosa-nats/src/adapter.rs:2759-2872 | The range loop delivers what reading everything would, for any chunk size, and leaves the last sequence at the end of the stream; with a corrupt message it never succeeds and delivers only frames before it. |
| Recovery.NatsReadAll | crates/pardosa-nats/src/adapter.rs:386-466 | Reading everything succeeds exactly on a good header followed by good messages, and yields their payloads. |
| Recovery.ReadRange | crates/pardosa-nats/src/adapter.rs:582-628 | Reading a range succeeds exactly when each of its messages is one whole frame. |
| Recovery.GoodIff | crates/pardosa-nats/src/adapter.rs:562-579 | A message is good exactly when it is one frame, and a stream exactly when its first message is the container header. |
| Recovery.DeliverEnumerates | crates/pardosa/src/store/engine.rs:79-103 | With a callback that never refuses, the delivery is the enumeration of all frames. |
| Recovery.SameFramesEverywhere | crates/pardosa/src/file.rs:1802-1828 | The container file and the data stream of the same frames hand the same frames to every loop. |
| Ownership.ParseOfRecord | crates/pardosa/src/encoding.rs:1339-1665 | Each of the nine ownership records reads back from its encoding, whatever follows; a schema record, which has no length of its own, when nothing follows. |
| Ownership.RecordExact | crates/pardosa/src/encoding.rs:1339-1665 | The eight records without a partitioning rule are canonical: each is read exactly from its encoding followed by the rest (a schema record runs to the end of its frame). |
| Ownership.IdentityExact | crates/pardosa/src/encoding.rs:1055-1126 | Exactly what reads as an identity structure: its encoding with any bytes after the parameters its rule needs, counted by the declared length. |
| Ownership.IdentityCanonicalIff | crates/pardosa/src/encoding.rs:1055-1126 | An accepted identity structure is the encoding of what it reads as if and only if it declares 4 parameter bytes for a modulo or 12 for a consistent hash. |
| Ownership.IdentityIsNotCanonical | crates/pardosa/src/encoding.rs:1055-1126 | Every identity structure, with either rule, also reads from an input that is not its encoding. |
| Ownership.OutboundExact | crates/pardosa/src/encoding.rs:1339-1665 | An outbound pointer is recognised exactly from its bytes, so nothing else reads as a retirement. |
| Ownership.TagDecides | crates/pardosa/src/encoding.rs:1321-1337 | The first byte written is the record's wire tag, and alone decides which record is read; completed and interrupted migrations end in 1 and 2. |
| Meta.ReadMetaRecords | crates/pardosa/src/file.rs:491-591 | The loop over the ownership file, mutating one summary, is the fold of its records, and fails on torn bytes and unreadable records. |
| Meta.ReadableIff | crates/pardosa/src/file.rs:491-591 | A missing ownership file reads as empty, and a present one exactly when it is a container of whole frames whose records fold; a torn one never reads. |
| Meta.FramesAreRecords | crates/pardosa/src/file.rs:515-535 | Every frame of a readable ownership file is one record with nothing after it. |
| Meta.RetiredIffRecorded | crates/pardosa/src/file.rs:491-591 | A readable file says "retired" exactly when one of its records is an outbound pointer. |
| Meta.RetirementIsPermanent | crates/pardosa/src/file.rs:491-591 | Whatever bytes are appended to a retired ownership file, it is either unreadable or still retired. |
| Meta.SchemaIffRecorded | crates/pardosa/src/file.rs:555-570 | A readable file has a descriptor exactly when it holds a schema record and every one of them reads as that descriptor. |
| Meta.DescriptorIsPermanent | crates/pardosa/src/file.rs:491-591 | Whatever bytes are appended to an ownership file with a descriptor, it has that descriptor or does not read. |
| Meta.ConflictFails | crates/pardosa/src/file.rs:560-567 | A schema record that reads as another descriptor makes the file unreadable. |
| Meta.LatestCounts | crates/pardosa/src/file.rs:530-591 | Of claims, pointers, migration and rescue records the latest counts, recognised by its wire tag. |
| Meta.AppendedClaimCounts | crates/pardosa/src/file.rs:607-662 | A claim appended to a readable file is the one read back afterwards, with all else unchanged. |
| Meta.ReadAppended | crates/pardosa/src/file.rs:491-591 | Reading a file with more bytes appended goes on folding from where the old file ended, or fails. |
| FileEngine.FileEngine.AppendBlock | crates/pardosa/src/file.rs:1716-1800 | One append: visible contents, every contents a crash may leave, engine state and verdict for every short write, every failing point of the rollback and a failed sync; an authorised one answers an error only when nothing was written, and undetermined exactly when its write or sync failed. |
| FileEngine.FailedWriteLeaves | crates/pardosa/src/file.rs:1735-1779 | What a failed write leaves: nothing, durably, when its rollback reaches the sync; nothing visible when only the sync fails; otherwise the part written. |
| FileEngine.CorruptFileIsRefused | crates/pardosa/src/file.rs:342-466 | Opening a container with a wrong checksum fails with the mismatch and leaves the file as it was. |
| FileEngine.TornFileIsCut | crates/pardosa/src/file.rs:428-466 | Opening a container that ends in less than a frame keeps exactly the whole frames before it, durably. |
| FileEngine.FileEngine.SyncNow | crates/pardosa/src/file.rs:1908-1923 | A failed sync makes the session uncertain; a refused one touches nothing. |
| FileRuns.RecoveryKeepsLanded | crates/pardosa/src/file.rs:1274-1800 | After any run of appends, syncs, crashes and reopens, whatever a crash may leave scans to all landed frames in order plus at most one undetermined frame of each session. |
| FileRuns.LandedMeansDurable | crates/pardosa/src/file.rs:1716-1800 | `Landed(n)` means the file scans clean to exactly n frames ending in this one, and no crash can leave anything else. |
| FileRuns.UncertainIsFinal | crates/pardosa/src/file.rs:1613-1800 | After an append reported undetermined or a failed sync, in every continuation no attempt of that session is ever added, and until the store is opened again only crashes change what the file holds or may come to hold. |
| FileRuns.AnswersIff | crates/pardosa/src/file.rs:1716-1800 | An append is answered with an error exactly when nothing was attempted, and then nothing has changed; with `Undetermined` exactly when it leaves an attempt that did not land; with `Landed` exactly when its attempt did. |
| FileRuns.RetiredStoreRefuses | crates/pardosa/src/file.rs:1274-1300 | Once retired, whatever is appended to the ownership file, every append, sync and open refuses and changes nothing. |
| FileRuns.RecoveredFrameCanVanish | crates/pardosa/src/file.rs:428-466 | A run in which a recovered frame is gone after a later crash, because reopening a clean container does not sync. |
| FileRuns.RecoveredIsDurableIff | crates/pardosa/src/file.rs:428-466 | The frames recovered by a successful open survive every crash exactly when the container was torn, so that its cut was synced, or when every possible crash content held them before. |
| FileRuns.LandedOnlyIsDurable | crates/pardosa/src/file.rs:1716-1800 | As long as no append was reported undetermined, every crash content holds exactly the frames appended. |
| FileRuns.DurableFramesStay | crates/pardosa/src/file.rs:1274-1800 | Frames on the disk at a moment when a crash could leave nothing else are recovered first, in order, after any further run with any further crashes. |
| FileRuns.SyncedFramesStay | crates/pardosa/src/file.rs:1908-1923 | A successful authorised sync makes all a session recovered and appended durable for every further run. |
| FilePipelines.FileDraglineStaysValid | crates/pardosa/src/store/pipeline.rs:355-430 | End to end on files: whatever envelopes callers submit, however often they read the file again, however system calls fail and sessions end, crash and reopen, every content a crash can leave decodes to a valid dragline, and a certain session's index stands for exactly what its file holds. |
| FilePipelines.AdmittedLands | crates/pardosa/src/store/pipeline.rs:393-415 | An append that its index admits, from an authorised session on a working disk, lands: the frame is last in the file, durably, and the index stands for it. |
| FilePipelines.AppendKeepsInv | crates/pardosa/src/file.rs:1716-1800 | Every outcome of an admitted append, torn writes and failed rollbacks included, leaves only contents that decode to a valid dragline. |
| FileRuns.ScanOfImage | crates/pardosa/src/file.rs:342-466 | Whatever a crash leaves scans, and reconciling its tail leaves a clean container of the kept frames. |
| FileRuns.AppendKeepsInv | crates/pardosa/src/file.rs:1716-1800 | Every outcome of an append keeps all possible crash contents explained by the attempts so far. |
| FileRuns.OpenKeepsInv | crates/pardosa/src/file.rs:1274-1355 | So does every outcome of opening and reconciling. |
| FileRuns.RecountFindsTheSame | crates/pardosa/src/file.rs:1846-1878 | Scanning the file again in mid-session leaves the count of a certain session as it is. |
| FileCreate.Directory.Create | crates/pardosa/src/file.rs:842-981 | Creation refuses anything already present and over-long claims without touching the store; interrupted at any byte it leaves exactly that prefix; completed it leaves the claim, the descriptor and an empty container. |
| FileCreate.Directory.Complete | crates/pardosa/src/file.rs:1130-1224 | Completion writes the data header exactly when only the ownership file is present, readable, with an admissible descriptor and the supplied claim as its latest; otherwise nothing changes. |
| FileCreate.ReopenIsStable | crates/pardosa/src/file.rs:1274-1355 | Opening settles a store: whatever was there before, opening again with the same epoch starts from the same claim, descriptor and frames and changes nothing more. |
| FileCreate.OpenWriteIff | crates/pardosa/src/file.rs:1226-1355 | Exactly which artefacts open for writing with a carried epoch, over every combination of files, and to which claim, descriptor and frames. |
| FileCreate.CompleteReading | crates/pardosa/src/file.rs:491-591 | The ownership file written by creation reads back as the initial claim and the admitted descriptor. |
| FileCreate.PrefixReading | crates/pardosa/src/file.rs:491-591 | A prefix of that file is unreadable, or reads as nothing, or as the claim alone; only the whole file yields the descriptor. |
| FileCreate.OpenAfterMetaCrash | crates/pardosa/src/file.rs:1226-1263 | With the data file missing, opening succeeds exactly on a complete ownership file with the carried epoch, by completing creation. |
| FileCreate.CrashDuringCreate | crates/pardosa/src/file.rs:842-1355 | For a crash at any byte: opening succeeds exactly when the ownership file is complete, the data file is absent or has its whole header and the epoch matches, and then yields the initial claim, the descriptor and no frame; otherwise it refuses. |
| FileCreate.RetiredNeverOpens | crates/pardosa/src/file.rs:1226-1300 | A retired store is refused by opening with or without its data file, whatever is appended to the ownership file, and left as it is. |
| FileCreate.RetiredIsStillCompleted | crates/pardosa/src/file.rs:1130-1224 | A store retired before its data file was written is refused by opening and still completed; the resulting session has no authority to append. |
| Claims.LaterWinIsNewer | crates/pardosa/src/store.rs:2022-2060 | Accepted epochs strictly increase over any run, and no two accepted claims held the same expectation. |
| Claims.WinsIff | crates/pardosa/src/store.rs:2022-2060 | In a run that starts unowned, a claim wins exactly when it reads the record, expects the epoch of the newest accepted claim or none before the first, and brings a larger epoch. |
| Claims.FencePassesNewestOnly | crates/pardosa/src/store.rs:1748-1779 | In a run that starts unowned, the fence passes exactly the readable writes that carry the epoch of the newest accepted claim. |
| Claims.SupersededNeverPasses | crates/pardosa/src/store.rs:1748-1779 | Once a newer claim has won, an older epoch never passes the fence again. |
| Claims.AbsentStaysAbsent | crates/pardosa/src/store.rs:2022-2060 | An absent record can be neither claimed nor written under. |

## Case by case

Besides these results, small lemmas fix what a round trip or a shared definition leaves open: tags and
layouts (`DescriptorCodec.ScalarTags`, `DescriptorCodec.CompoundTags`, `PayloadCodec.ValueWire`,
`TypeDepth.BoundDescribed`), which error meets which input (`Wire.TextRefusals`,
`Envelope.EnvelopeRefusals`, `Ownership.RecordRefusals`, `Admission.NodeFault`), and which refusal counts
before which (`NatsWriter.MayPublishIff`, `NatsWriter.RefusalMeans`, `FileEngine.AuthorityIff`,
`FileEngine.RefusalMeans`, `FileEngine.OpenAuthorityIff`, `FileEngine.AppendVerdict`,
`FileCreate.CompletionIff`, `Claims.RefusalMeans`). They need little proof and are not listed above.

## Left out

- Ownership.ParseOfRecord: lengths over u32::MAX panic in the encoder and are excluded; identity-structure records are read back but not canonical (`Ownership.IdentityIsNotCanonical`).
- NatsWriter.EveryRunIsSafe: takes it that sessions publish only extensions of what they know, which `Composition.PipelinesKeepDraglineValid` then proves of the pipelines. Each read of the stream, on opening or later, sees it as it was when the read began, and a read that fails changes nothing. The protocol speaks of decoded envelopes; framing is tied in by the Container, Envelope and Recovery lemmas.
- FileRuns.RecoveryKeepsLanded: a crash leaves any prefix of the writes since the last sync, in order; reordered or garbled sectors are not modelled, and appends to the ownership file are taken as the bytes later read.
- FileCreate.CrashDuringCreate: the same prefix assumption; opening after the crash meets no further I/O failure, and the exclusion lock and failing directory look-ups are not part of the model.
- Payload types: `OrderedF32` and `OrderedF64` appear as descriptor tags only, not as values. The item-count check when a vector is encoded is left out because the constructor already bounds the vector.
- BLAKE3, CRC32C and UTF-8 validity (section 4 of RFC 3629) are arbitrary functions; nothing assumes them injective.
- Error payload numbers and diagnostic texts; only which condition is reported.
- Overflow of `usize` and `checked_advance`: lengths are those of buffers that exist, on a 64-bit platform.
- Async plumbing, NATS client error mapping, subject names and locators; deletion of streams or messages.
- Operating-system locks, paths, permissions and `QuotaWriter`; a short write leaves a prefix of the block.
- Simulation and fault-injection hooks; every outcome they inject is an outcome of the model.
- `FiberHandle`, `FiberState`, the rolling commitment, the retained cause that makes later reads refuse, raw-frame marking, reacquiring a released file exclusion (which nothing calls), reader cursors for migration and read-only sessions.
- The migration manager, takeover and liveness evaluation, `admit_event`, `admit_open` and remedies: stubs or small case tables.
- The repository's scripts.
