# Wildbloom: a model of the storage pool and the direct send

This project models the parts of Wildbloom in which correctness is an argument rather than a reading, and proves them.

- **Erasure coding** (`GF256`, `PrimitiveElement`, `Field`, `Polynomials`, `Tables`, `LinearAlgebra`, `Elimination`,
  `Interpolation`, `Generator`, `ErasureCode`). Arithmetic on bytes is defined without tables and proved to be a field;
  the tables are proved to be that arithmetic; the in-place inverter and the coder are proved over it. What an encoding
  *is* is stated independently of the generator matrix, as values of a polynomial.
- **The pool** (`PoolLayout`, `PoolPlacement`, `Pool`, `PoolRecovery`, `PoolTolerance`, `StoredEnvelope`). Nodes are a map
  of what they serve, which they may change or lie about; a digest is collision-free. Placement, upload, fetching, repair and
  extension compose with the code to the fault tolerance the pool is for.
- **The transfer** (`Frames`, `Transfer`, `TransferEnds`, `TransferSystem`, `TransferSafety`, `TransferLiveness`,
  `TransferReasons`, `TransferFlow`, `TransferPeers`, `MemorySink`). Two ends over first-in-first-out channels, with
  everything that may happen to them as steps: safety in every run, the cause of every failure, and progress to KEPT in
  every undisturbed run; and what each end keeps whatever the other sends. `TransferEnds` has the same ends as objects that update
  their fields and put bytes on a channel.
- **The session** (`Json`, `Messages`, `MessageCodec`, `MessageRoundTrip`, `MessageRefusals`, `MessageFields`,
  `SessionDescriptions`, `InputKeys`, `Session`, `SessionSafety`, `SessionProgress`, `SessionPeers`). The canonical codec,
  the lock-step of the two ends that exchange its messages, and their progress to a connection.
- **The envelope** (`FileNames`, `EnvelopeSizes`, `Envelope`, `EnvelopeWriter`, `EnvelopeReader`, `EnvelopeRoundTrip`).
  The streaming encoder and the reader, over abstract ciphers.
- **Smaller cores**: `Pacing` (token bucket over real time), `Words` (edit distance), `Base32`, `BundleGraph`.

`Wrappers`, `Bytes`, `Buffers` and `Sequences` hold what several of them share.

## How to read it

An operation that changes things step by step is a method, and its contract equates the result or the new state with
a function or a relation defined elsewhere; what the system promises is then a lemma about that function or relation.
In `TransferSystem` and `Session` the two ends are values and every event is a step; a run is any sequence of steps, so a
statement about every run covers every interleaving.

Where the code turned out not to do what one would expect of it, the model keeps the code:

- A stop that Drop sends before its invitation is refused by the page, because the table of events allows only the
  invitation at index 0, and so is a restart message that goes before `accept`, because index 1 allows only `accept`,
  `decline` and a stop. Drop's code lets both happen: a restart waits only for the connection to be made, which is
  before the offer that `accept` carries. `SessionSafety.EarlyStopHappens` and `EarlyRestartHappens` are such runs;
  `SessionSafety.BlunderedExactly` says by which steps Drop's messages go wrong, `SessionSafety.ComplaintsExactly` that
  the page accuses Drop exactly when it has read such a message, and `SessionSafety.InStep` what holds of every run
  without one. A restart that is begun early but whose message goes behind `accept` does no harm.
- The canonical check on stored metadata is made on decoded text, and the decoder drops a leading byte order mark, so
  that check lets a second spelling in bytes through: `Envelope.MetadataSpellings`.
- An empty source can be encrypted but not opened again: `EnvelopeRoundTrip.RoundTrip` says so in both directions.
- A token bucket of less than one byte is overdrawn, since at least one byte is always allowed
  (`Pacing.AllowedIsHeld`); from one byte on it never is.
- Preparing a pool with too many or too few copies fails only at its last validation (`Pool.PreparePool`).

## Model

| member | source | states |
|---|---|---|
| `Tables.CodingTables.constructor` | src/core/erasure.ts:3-15 | the loops fill EXP with the powers of two twice over, LOG with their logarithms and MUL with every product; no index leaves its table |
| `Polynomials.MulIsRemainder` | src/core/erasure.ts:5-15 | a product differs from the carry-less product of the two bytes as polynomials over GF(2) by a multiple of 0x11d |
| `Polynomials.RemainderUnique` | src/core/erasure.ts:5-15 | a byte that differs so from the carry-less product is the product: it is the only remainder modulo 0x11d |
| `GF256.MulAssociates` | src/core/erasure.ts:14-16 | multiplication is associative; with the commutative, distributive and unit laws beside it the bytes are a ring |
| `GF256.MulAddLeft` | src/core/erasure.ts:14-16 | multiplication distributes over exclusive or |
| `PrimitiveElement.PowInjective` | src/core/erasure.ts:5-10 | the 255 powers of two that EXP starts with are all different |
| `Field.HasLog` | src/core/erasure.ts:5-10 | every byte but zero is one of those powers, so LOG is defined wherever it is read |
| `Field.NoZeroDivisors` | src/core/erasure.ts:14-17 | a product is zero only if a factor is |
| `Tables.CodingTables.Times` | src/core/erasure.ts:16 | a table look-up is field multiplication, for every pair of bytes |
| `Tables.CodingTables.Invert` | src/core/erasure.ts:17 | the look-up through LOG and EXP gives the true inverse of every byte but zero |
| `Elimination.Invert` | src/core/erasure.ts:26-43 | in-place Gauss-Jordan elimination fails exactly on the singular matrices and otherwise ends with a two-sided inverse |
| `Elimination.ReduceColumn` | src/core/erasure.ts:29-41 | one column: the pivot is found exactly if the matrix can still be regular, and the swap, scaling and clearing keep the solutions of the augmented rows |
| `Interpolation.TooManyRoots` | src/core/erasure.ts:47-51 | a polynomial with as many distinct roots as coefficients is zero: the reason Vandermonde rows are independent |
| `Generator.Generate` | src/core/erasure.ts:45-55 | the generator exists exactly within the coding bounds; its rows times a column are the values at 0, 1, 2, ... of the polynomial through the column |
| `Generator.AnyRowsAreRegular` | src/core/erasure.ts:45-55 | any `required` distinct rows of the generator are an invertible matrix, so decoding never reaches the failure of `invert` |
| `ErasureCode.Combine` | src/core/erasure.ts:57-67 | byte by byte the output is the dot product of the coefficients with the inputs, inputs that end early counting as zeros |
| `ErasureCode.EncodeParts` | src/core/erasure.ts:77-93 | refuses exactly bad parameters and payloads that are too small; otherwise each position of the parts is a codeword of the payload's slices, across all stripes |
| `ErasureCode.Systematic` | src/core/erasure.ts:45-55 | the first `required` parts are the payload's consecutive slices, padded with zeros |
| `ErasureCode.EncodingUnique` | src/core/erasure.ts:77-93 | a payload has one encoding, however it is cut into stripes |
| `ErasureCode.PartsDetermine` | src/core/erasure.ts:95-116 | two payloads of one length that agree on any `required` parts are equal |
| `ErasureCode.DecodeParts` | src/core/erasure.ts:95-116 | refuses exactly the malformed inputs; from any `required` parts of a payload, in any order, returns the payload byte for byte |
| `PoolLayout.ValidateManifest` | src/core/pool.ts:82-118 | the one pass with its growing sets accepts exactly the valid manifests: good parts, no failure group serving two parts, all endpoints distinct |
| `PoolLayout.ApartStep` | src/core/pool.ts:107-112 | checking each part's groups against those already assigned is checking every pair of parts |
| `PoolLayout.SameHost` | src/core/pool.ts:73-79 | two endpoints are on one machine if they share a host name that is not the local one; on the local machine ports tell them apart |
| `PoolLayout.NodeIs` | src/core/pool.ts:35-54 | which nodes are valid by themselves: names of 1 to 40 small letters, digits, underscores and hyphens, and a weight of 1 to 1000 |
| `PoolPlacement.GroupRanked` | src/core/pool.ts:139-140 | the map built in ranked order lists each failure group once, in the order it first appears, with its nodes in order |
| `PoolPlacement.Deal` | src/core/pool.ts:141-142 | group number i goes to part i modulo the number of parts, whole and in order |
| `PoolPlacement.EnoughGroups` | src/core/pool.ts:129-142 | with total times copies groups every part is dealt at least `copies` of them |
| `PoolPlacement.DealtApart` | src/core/pool.ts:141-142 | no failure group is dealt to two parts |
| `PoolPlacement.AllNodesDealt` | src/core/pool.ts:139-147 | every node is dealt to exactly one part, so the final check of all nodes succeeds |
| `Pool.PreparePool` | src/core/pool.ts:120-149 | succeeds exactly on the inputs its guards describe - the last validation adds only the bounds on copies - and gives a valid manifest with the payload's parts on the nodes as dealt |
| `Pool.PlacePart` | src/core/pool.ts:232-253 | the groups counted for a part really serve it afterwards, never more than `copies`; if fewer, every group with a node that served it at the start, or that stores what it is handed, is among them |
| `Pool.UploadPool` | src/core/pool.ts:215-256 | writes nothing unless every file is its manifest part; what is reported for each part is still served when the upload ends, later parts included, and is at least the groups that could hold it, or `copies`; so nodes that store what they are handed give a protected report. It says recoverable exactly if groups were counted for `required` parts, and then that many parts are served, which is what a fetch needs |
| `Pool.OriginsApart` | src/core/pool.ts:98-116 | two parts of a valid manifest have no endpoint in common |
| `PoolRecovery.FetchPart` | src/core/pool.ts:262-270 | finds a part's bytes exactly if one of its targets serves bytes of the right length and digest |
| `PoolRecovery.FetchPool` | src/core/pool.ts:258-278 | for a layout made from a payload, returns that payload exactly when `required` parts are served, and the final digest check never fails |
| `PoolTolerance.Tolerance` | src/core/pool.ts:215-218 | once the report says protected, losing or corrupting any total - required groups (split) or copies - 1 groups (replicas) leaves enough parts to fetch the payload |
| `PoolTolerance.FetchAfterLosses` | src/core/pool.ts:215-278 | the promise put together: a payload prepared and reported protected comes back from a fetch after any losses the layout allows |
| `PoolTolerance.LossesPerPart` | src/core/pool.ts:109-112 | each part that is gone has cost `copies` lost groups of its own |
| `PoolTolerance.CountBound` | src/core/pool.ts:273 | parts that nobody serves are parts missing from the count that a fetch needs |
| `PoolTolerance.BoundIsExact` | src/core/pool.ts:215-273 | when each part is served by just `copies` groups, losing the groups of the first total - required + 1 parts, one group more than may be lost, leaves too few parts to fetch, whatever else happens |
| `PoolTolerance.OneGroupMore` | src/core/pool.ts:215-273 | so for every such layout there is a loss of one group more, touching no other group's nodes, after which fetching fails: the tolerance is exact |
| `PoolTolerance.PreparePoolRepair` | src/core/pool.ts:280-287 | the files made again from any `required` fetched parts are the original files |
| `PoolTolerance.PoolsMatch` | src/core/pool.ts:224-227 | such files pass the upload's check of digests and lengths |
| `PoolTolerance.FreshId` | src/core/pool.ts:186-187 | the least replacement number that is free, found after finitely many tries |
| `PoolTolerance.ExtendPool` | src/core/pool.ts:175-192 | succeeds exactly if the manifest, every line and the manifest with all the lines' nodes added are valid, and returns that manifest; a bad line is the one reason for its error; each node comes behind those its part had |
| `PoolTolerance.ExtendingKeeps` | src/core/pool.ts:172-192 | an extended layout is still the payload's, and no part becomes harder to find |
| `StoredEnvelope.EnvelopesCanBePooled` | src/core/pool.ts:120-135 | every envelope the encoder makes passes the pool's checks on what it stores, its magic number among them, so only the nodes and the layout can be refused |
| `StoredEnvelope.FetchAndOpen` | src/main.ts:1168-1169 | an encrypted and pooled file comes back, bytes, name and type, as long as enough parts are served, whatever else the nodes serve |
| `Frames.WriteU64` | src/direct/frames.ts:35-39 | puts the eight big-endian bytes of a safe integer in place and touches nothing else; refuses larger numbers |
| `Frames.ReadsU64` | src/direct/frames.ts:41-45 | the reader gives a number exactly for the eight bytes the writer makes of it, and refuses the rest |
| `Frames.LayoutIs` | src/direct/frames.ts:6-83 | byte for byte what each frame looks like: the type first, and numbers as eight bytes that write them in base 256 |
| `Frames.ValidIs` | src/direct/frames.ts:47-83 | which frames can be written: 1 to 65,527 bytes of data, numbers below 2^53, digests of 32 bytes |
| `Buffers.ReadU32Number` | src/core/crypto.ts:138-150 | what is read of four bytes is the number they write in base 256, the first the most significant |
| `Frames.EncodeData` | src/direct/frames.ts:47-54 | a DATA frame's bytes, or a refusal exactly when the frame would be empty, too long or beyond 2^53 - 1 |
| `Frames.EncodeEnd` | src/direct/frames.ts:63-70 | an END frame's bytes, or a refusal exactly when the digest is not 32 bytes or the size is unsafe |
| `Frames.DecodesExactly` | src/direct/frames.ts:85-114 | for each role the reader accepts exactly the frames that role may write, plus stops of unknown reason, which read as 2; no other frame has two spellings |
| `TransferEnds.SenderEnd.OnFrame` | src/direct/transfer.ts:196-229 | on any bytes the sender's fields and its channel become what the state machine says |
| `TransferEnds.SenderEnd.SendNext` | src/direct/transfer.ts:262-306 | one turn of the loop, whatever the pacing rule answers: sends the next bytes of the envelope, just the least of what is wanted, the rule and the window, and pauses past the high-water mark |
| `TransferEnds.SenderEnd.constructor` | src/direct/transfer.ts:241-246 | a sender starts failed exactly on a closed channel or one whose messages are too small |
| `TransferEnds.ReceiverEnd.OnFrame` | src/direct/transfer.ts:396-445 | on any bytes the receiver's fields, its queue and its channel become what the state machine says |
| `TransferEnds.ReceiverEnd.FinishJob` | src/direct/transfer.ts:381-437 | after the sink answers: what is counted, acknowledged, kept or stopped, with no second look at a failure meanwhile |
| `Transfer.BytesAreFrames` | src/direct/transfer.ts:196-204 | the byte-level handlers do on an encoded frame what the frame-level ones do on the frame |
| `TransferSafety.StepKeeps` | src/direct/transfer.ts:176-470 | every step of either end, the buffers, the sink, a cancel or a close keeps the invariant of the whole transfer |
| `TransferSafety.Safety` | src/direct/transfer.ts:176-470 | in every state of every run: acknowledged <= lastAck <= written <= received <= sent <= total, at most 8 MiB unacknowledged, the sink holds exactly the prefix written, neither end accuses the other, and KEPT heard means the whole file is kept |
| `TransferSafety.KeptForever` | src/direct/transfer.ts:213-220 | once the sender has heard KEPT the receiver's file stays kept, whatever happens later |
| `TransferSafety.EndTrusted` | src/direct/transfer.ts:431-435 | KEPT may follow a stop because the end of the file is not checked again for failure; the sender then hears the stop first |
| `TransferSafety.DataArrives` | src/direct/transfer.ts:406-413 | a DATA frame that arrives is always the next one, inside the envelope and inside the receiver's window |
| `TransferSafety.EndArrives` | src/direct/transfer.ts:425-430 | END arrives once, after every byte, and names the file of the manifest |
| `TransferSafety.DataWithinHighWater` | src/direct/transfer.ts:282-305 | DATA never lifts the send buffer above the high-water mark plus one frame |
| `TransferSafety.NoComplaint` | src/direct/transfer.ts:396-445 | a frame of an honest sender makes the receiver fail only if it is a stop |
| `TransferSafety.SinkGuards` | src/direct/transfer.ts:414-432 | what is written next always fits the sink, and only a complete envelope is put to its verification |
| `TransferReasons.EveryFailureHasItsCause` | src/direct/transfer.ts:77-88 | in every state of every run an end reports why it failed: of itself, something that happened there; of the other end, what that end failed with - storage, a cancel, or neither |
| `TransferReasons.FailuresAreTold` | src/direct/transfer.ts:186-262 | the failure of an end that can be heard is known to the other or on its way, and each stop carries the code of its own end's failure |
| `TransferFlow.Flows` | src/direct/transfer.ts:282-305 | in every run: less than a mebibyte written is unacknowledged and acknowledgements are a mebibyte apart but for the last; a sender pauses only over 1 MiB and goes on only at 256 KiB |
| `TransferPeers.ReceiverTakes` | src/direct/transfer.ts:396-445 | what a receiver makes of any frame in any state: it takes just the next data within the window and just the end that fits, and everything else is a stop, a wrong size or a breach |
| `TransferPeers.ReceiverKeepsTo` | src/direct/transfer.ts:396-445 | whatever bytes arrive, what is queued is what was received, within the announced length, and the end comes once, last and for the announced size |
| `TransferPeers.SenderTakes` | src/direct/transfer.ts:196-229 | what a sender makes of any frame: an acknowledgement must move forward within what was sent, KEPT must come behind END, anything else is a stop or a breach |
| `TransferPeers.SenderKeepsTo` | src/direct/transfer.ts:196-229 | whatever bytes arrive, what counts as acknowledged only rises and stays within what was sent, and KEPT counts only behind END |
| `TransferLiveness.ProgressDecreases` | src/direct/transfer.ts:262-310 | every step of two ends at work leaves less to do |
| `TransferLiveness.NoDeadlock` | src/direct/transfer.ts:145-147 | until KEPT is heard some step can be taken, sending just what the protocol's own pacing sends |
| `TransferLiveness.ReachesKept` | src/direct/transfer.ts:145-315 | a run without cancel, close or refusal takes at most nine steps a byte and eight more, and ends with the file kept |
| `MemorySink.Sink.Write` | src/direct/sink.ts:35-40 | holds the bytes behind what it held, or refuses exactly when it is closed or they do not fit |
| `MemorySink.Sink.Finish` | src/direct/sink.ts:41-53 | there is a file exactly if the whole envelope opens to the announced name, type and size and to the size and digest of END |
| `MemorySink.HonestEnvelopePasses` | src/direct/sink.ts:41-53 | a whole honest envelope passes, as the source under its cleaned name and normalised type and as nothing else |
| `EnvelopeSizes.PaddingFits` | src/core/crypto.ts:132-136 | padding is enough, less than doubles what is long, and leaves padded lengths alone |
| `EnvelopeSizes.PaddingIsLeast` | src/core/crypto.ts:132-136 | a plaintext is padded to the least that holds it of 64, 128, 256 and 512 KiB and the whole mebibytes |
| `EnvelopeSizes.PaddingMonotone` | src/core/crypto.ts:132-136 | a longer plaintext is never padded to less |
| `EnvelopeSizes.SizesAgree` | src/core/crypto.ts:175-181 | for every legal source: at most 257 records, the metadata in the first, a size within the reader's bounds and the transfer limit that gives back the padded length |
| `EnvelopeWriter.Encoder.PlaintextRecord` | src/core/crypto.ts:338-367 | a record is the next piece of metadata, source and padding; the source is hashed in order and each padding byte asked for once |
| `EnvelopeWriter.Encoder.Next` | src/core/crypto.ts:375-401 | the next sealed record, or nothing after the last; the digest appears with the last and covers the source |
| `EnvelopeWriter.CreateEnvelope` | src/core/crypto.ts:275-410 | the records put together are the envelope of metadata, source and padding; refused only for size or type |
| `EnvelopeWriter.EnvelopeLength` | src/core/crypto.ts:175-181 | the envelope is as long as was said without making it |
| `EnvelopeRoundTrip.NoncesDiffer` | src/core/crypto.ts:138-150 | what the writer makes is, record by record, the next mebibyte of the text sealed under a nonce that ends in the record's number, bound to the header and that number: no nonce is used twice |
| `Envelope.HeaderReads` | src/core/crypto.ts:437-471 | the reader finds in a header what the writer put there |
| `Envelope.HeaderShape` | src/core/crypto.ts:461-470 | in every file whose header passes, each record lies within the file, all but the last full and the last not empty |
| `Envelope.HeaderPasses` | src/core/crypto.ts:437-471 | exactly the files whose first bytes and length the reader accepts, in plain numbers |
| `Envelope.HeaderIs` | src/core/crypto.ts:437-471 | where the number of records, the nonce prefix and the salt stand, in the old form and the new |
| `Envelope.MimeIs` | src/core/crypto.ts:126-130 | a type is normalised to lower case, with one for none given, and refused exactly if it is long or holds a control |
| `Envelope.DescriptionsParse` | src/core/crypto.ts:473-500 | the reader's fixed-point and canonical checks accept every description the writer makes, unless the file is empty |
| `Envelope.MetadataSpellings` | src/core/crypto.ts:473-500 | stored metadata is accepted in exactly two spellings, the writer's and the same behind a byte order mark, which the decoder drops before the canonical check |
| `EnvelopeReader.DecryptPrivacyEnvelope` | src/core/crypto.ts:502-594 | for any bytes: accepts exactly the files whose records all open to a padded text with fitting metadata, returns its file, and never fails the last check |
| `EnvelopeRoundTrip.OpensUnderOwn` | src/core/crypto.ts:543-556 | what the reader takes for a record is exactly what opens, of the bytes at its place, under the nonce that ends in its number, bound to the header and that number |
| `EnvelopeReader.OneReading` | src/core/crypto.ts:543-585 | a file can be accepted in one way only |
| `EnvelopeRoundTrip.RoundTrip` | src/core/crypto.ts:275-594 | what was encrypted is accepted exactly if the source is not empty, as the source's bytes with the cleaned name and normalised type |
| `FileNames.FixedPoints` | src/core/security.ts:134-153 | cleaning a name twice is cleaning it once; the names it leaves alone are exactly the clean ones |
| `FileNames.SanitiseDoes` | src/core/security.ts:134-153 | what cleaning makes of any name: the fallback if nothing but spaces and dots is inside, otherwise the stretch from the first other character to the last that is not a space, cut to length |
| `FileNames.LeafDoes` | src/core/security.ts:135 | of a path what follows the last separator is taken |
| `FileNames.UnitsAre` | src/core/security.ts:134-153 | the code units that count as slashes, controls, reserved characters, white space and surrogates |
| `FileNames.ShortenDoes` | src/core/security.ts:146-152 | a long name is cut to a prefix of at most 180 units that is not empty, does not end in a space and splits no surrogate pair |
| `Base32.DecodeBase32` | src/core/security.ts:19-35 | though its accumulator wraps, it decodes exactly the 56-character addresses, to the 35 bytes that write the same number |
| `Base32.IndexIsPlace` | src/core/security.ts:12-26 | a character stands for its place in the alphabet, and no other character is taken |
| `Base32.BytesDetermined` | src/core/security.ts:19-35 | those bytes are the only ones of their length that write the number |
| `InputKeys.CanonicalKeysParse` | src/direct/messages.ts:149-152 | the test on a key's text accepts exactly the texts that parse as keys |
| `InputKeys.WrittenKeysParse` | src/core/crypto.ts:104-124 | a key that is written parses to its 32 bytes |
| `InputKeys.EncodeDecode` | src/core/crypto.ts:110-124 | decoding and encoding again gives the same text exactly when the unused bits are clear |
| `InputKeys.EncodeNumber` | src/core/crypto.ts:104-108 | the characters write the same number in base 64 that the bytes write in base 256 |
| `InputKeys.CharacterIsPlace` | src/core/crypto.ts:104-108 | a sextet is written as the character at its place in the URL-safe alphabet |
| `InputKeys.CanonicalIds` | src/direct/messages.ts:142-147 | the test on an id's text is that its four bits without data are clear |
| `Json.CanonicalIsUnambiguous` | src/direct/messages.ts:75-95 | no two values have the same canonical text: a reader of canonical text gets the value back |
| `Json.PrintsExactly` | src/direct/messages.ts:67-95 | exactly the values that have a canonical text: no null, whole numbers below 2^53, no lone surrogate, names in order |
| `Json.EscapedExactly` | src/direct/messages.ts:78-80 | only quotes, backslashes and controls are escaped in a string |
| `MessageFields.WrittenExactly` | src/direct/messages.ts:97-102 | a message of whole texts and small numbers has bytes exactly if they are within the limit |
| `MessageFields.IceUrlIs` | src/direct/messages.ts:154-166 | an ICE URL is one of three schemes, a colon and something without white space |
| `MessageFields.ServerIs` | src/direct/messages.ts:154-172 | a server has one to four URLs, with both secrets if one of them is TURN and neither otherwise |
| `MessageFields.DisguisedExactly` | src/direct/messages.ts:201-216 | the test on code units finds exactly the disguising code points, those past U+FFFF among them |
| `MessageFields.ManifestNameIs` | src/direct/messages.ts:212-216 | a manifest's name is one that cleaning leaves alone, with nothing in it that disguises it |
| `MessageFields.ManifestTypeIs` | src/direct/messages.ts:217-219 | a manifest's type is not empty, short, without controls and in lower case |
| `SessionDescriptions.SdpExactly` | src/direct/messages.ts:121-140 | a description is accepted exactly if it is made of printable lines, each with its end, the first the version, one of them a data channel on some port and the only media section, and one a SHA-256 fingerprint |
| `MessageCodec.CanonicalWellFormed` | src/direct/messages.ts:67-95 | canonical text holds no lone surrogate, so it survives UTF-8 |
| `MessageCodec.ExactNames` | src/direct/messages.ts:113-116 | a canonical object has exactly the names listed only as just those members, in that order |
| `MessageRoundTrip.IceExact` | src/direct/messages.ts:154-178 | a list of ICE servers is read from exactly the value it is written as, if it is valid and allowed |
| `MessageRoundTrip.DecodesExactly` | src/direct/messages.ts:97-313 | a message is read from bytes exactly when it may come at that index, its fields are proper and the bytes are the ones it is written as |
| `MessageRefusals.RefusedExactly` | src/direct/messages.ts:265-313 | a message is refused as unsupported exactly if it is a canonical object of another version, a proper invitation with a server, direction or size that cannot be used, or a proper manifest of too large a file; all else that is not read has failed |
| `Session.Link.Send` | src/direct/session.ts:175-186 | sends exactly if the link is open, not stopped (or the message is the stop) and one of eight is left; gives the index |
| `Session.Link.StopNow` | src/direct/session.ts:214-220 | a stop goes at most once, in place of the next message |
| `Session.Link.Read` | src/direct/session.ts:189-211 | decodes the next message at its index, or stops with the reader's reason |
| `SessionSafety.AllowedExactly` | src/direct/messages.ts:250-262 | which event may stand at which index: a restart only from 2 to 6, and Drop's stop nowhere before 1 |
| `SessionSafety.StepKeeps` | src/direct/session.ts:398-903 | every step of either end keeps the session's invariant, restarts started at any time after the connection is made included |
| `SessionSafety.InStep` | src/direct/session.ts:143-234 | in every state of every run: at most eight messages a side, seven but for the stop; a slot left for the stop; five restarts; each of the page's messages where it may come and no accusation by Drop; and the same of Drop's messages and the page unless Drop's message 0 is a stop or its message 1 a restart |
| `SessionSafety.RestartsMeet` | src/direct/session.ts:577-611 | a restart is read at the index of the page's own next message, and its answer arrives at the index Drop awaits |
| `SessionProgress.ReachesConnected` | src/direct/session.ts:443-611 | a run in which nobody stops, declines, fails to read or leaves, and no restart goes before the accept, has at most 39 steps; when no step is due any more the page is sending, Drop receiving, all is read, and every restart has been answered in its place and applied |
| `SessionProgress.RestartHappens` | src/direct/session.ts:725-859 | such a run: invitation, manifest, accept and answer, then a restart and its answer, applied |
| `SessionProgress.StopsEnd` | src/direct/session.ts:189-211 | in every run an end that has read a stop is over |
| `SessionPeers.DropTakes` | src/direct/session.ts:755-903 | what Drop makes of any message in any state: the one it waits for takes it on, a stop ends it, anything else it answers with a stop |
| `SessionPeers.PageTakes` | src/direct/session.ts:443-611 | what the page makes of any message: the one it waits for takes it on, a decline or a stop ends it, anything else it answers with a stop |
| `SessionPeers.EndedStays` | src/direct/session.ts:222-233 | once an end has ended the exchange it sends and reads nothing more |
| `SessionSafety.BlunderedExactly` | src/direct/session.ts:214-220 | Drop's messages go wrong exactly if some step was a stop with nothing sent, or a restart message with only the invitation sent: conditions to check before the step |
| `SessionSafety.NextIsRefused` | src/direct/session.ts:189-211 | a page that is not stopped and reads on refuses a message exactly if it is such a stop or restart |
| `SessionSafety.ComplaintsExactly` | src/direct/session.ts:189-211 | in every run in which the page does not stop of its own accord, it has accused Drop exactly if it has read such a message |
| `SessionSafety.EarlyStopHappens` | src/direct/session.ts:214-220 | a run of two steps in which a stop sent before the invitation is refused |
| `SessionSafety.EarlyRestartHappens` | src/direct/session.ts:745-859 | a run of eight steps in which a restart begun before `accept` takes index 1 and is refused |
| `SessionSafety.SentIsRead` | src/direct/session.ts:175-211 | a message with proper fields, sent in its place, is read by the codec of the other side as it was written |
| `Pacing.Stricter` | src/direct/pacing.ts:16-28 | the fewest bytes any rule allows, and the soonest any that refuses asks to be asked again |
| `Pacing.RatePacer.Pacing` | src/direct/pacing.ts:57-70 | refills the bucket for the time passed and what was sent, and answers from it |
| `Pacing.TokensBounded` | src/direct/pacing.ts:49-75 | with a bucket of at least one byte the tokens stay between none and the burst |
| `Pacing.AllowedIsHeld` | src/direct/pacing.ts:66-69 | what is allowed is in the bucket exactly because it holds a byte; a burst below one byte is overdrawn |
| `Pacing.RateBound` | src/direct/pacing.ts:43-48 | over any stretch the bytes sent are at most the burst and the rate in bytes a second times the time in milliseconds over a thousand |
| `Pacing.FirstIsFull` | src/direct/pacing.ts:57-70 | the first question after a reset finds a full bucket |
| `Pacing.AllowedExactly` | src/direct/pacing.ts:57-70 | from one question to the next: it is refused exactly if the tokens, less what was sent and plus the rate times the time, are short of the frame and of a whole bucket, and otherwise all there is is allowed |
| `Pacing.RetryIsSoonest` | src/direct/pacing.ts:66-69 | the time given to ask again is the least whole number of milliseconds in which what is missing comes in |
| `Pacing.RetryAllows` | src/direct/pacing.ts:66-69 | after a refusal, with nothing sent, a later question is allowed exactly once what was missing has come in; asked when told to, it allows a whole frame or a whole bucket |
| `Pacing.PathPacing.Pacing` | src/direct/pacing.ts:105-111 | allows the lesser of the protocol's rule and, while the path is relayed or unknown, the bucket; when the bucket refuses on a relayed path its retry time is passed on, and on an unknown path no answer of none comes without a retry time of at most a quarter of a second |
| `Pacing.StretchIsPaced` | src/direct/pacing.ts:93-113 | while the path does not become direct the bucket is the one its questions make |
| `Pacing.StretchBound` | src/direct/pacing.ts:88-113 | however the path has changed before, on each stretch that is relayed or unknown a sender that takes at most what it is answered sends at most the burst and the rate in bytes a second times the time |
| `Words.EditDistance` | src/get/words.ts:23-40 | the table ends with the least cost of turning one word into the other |
| `Words.DistanceIsLeast` | src/get/words.ts:22-40 | the recursion behind the table is the least cost over all edits that touch no part twice |
| `Words.Symmetric` | src/get/words.ts:23-40 | the distance is the same both ways |
| `Words.ZeroMeansEqual` | src/get/words.ts:23-40 | only equal words are at distance zero |
| `Words.Matches` | src/get/words.ts:50 | filtering by length first drops no word within the limit |
| `Words.SuggestWord` | src/get/words.ts:47-55 | the only word within one edit, else the only word within two, else none |
| `Words.SuggestionIsOnly` | src/get/words.ts:42-55 | every other word of the list is further off than the suggestion was looked for |
| `Words.SuggestionExactly` | src/get/words.ts:47-55 | exactly when a word is suggested: one place in the list is within one edit, or none is and one is within two, and the word there is the suggestion |
| `BundleGraph.EntryReachesWebTorrent` | vite.config.ts:30-48 | true exactly if a chain of static or dynamic imports leads from the first entry of the name to a chunk that holds the library, cycles included |
| `BundleGraph.EntryReachesMeans` | vite.config.ts:30-48 | the same in terms of the chunks alone: the first entry of the name, static or dynamic imports by file name, and a module of the library once backslashes are slashes |

## Left out

- Cryptography: sealing, opening, key derivation and digests are parameters with what is assumed of them written out
  (`Envelope.Sound`); in the pool a digest is a constructor, that is, free of collisions. Random bytes are arbitrary.
- Unicode and foreign text codecs: normalisation form C, lower case, UTF-8 and the JSON reader are parameters with what
  is assumed of them written out (`FileNames.Normalises`, `Envelope.SoundTexts`, `Messages.Sound`). `Json.ReadJson`
  shows that a reader as assumed exists.
- Signatures and receipts, URL normalisation, and the parsing of node and replacement lists: the pool model starts from
  parsed nodes and lines, and an endpoint is an opaque normalised value.
- The score that ranks the nodes: any order of the same nodes is taken as the ranking.
- Cancellation inside the coder, the uploads and the envelope (`checkpoint`, `assertActive`), progress callbacks,
  deadlines and timers. In the transfer and the session a cancel or a close is a step that may come at any time.
- Promises and the order of microtasks: between two awaits an end moves in one step, and an end that can go on may take
  its step at any later time. `createWaiter` has no counterpart.
- A send buffer that drains in the middle of a frame: it drains frame by frame, and the low event comes with the drain
  that crosses the threshold.
- Delivery in the session: sends succeed and arrive in order; a failed send is an end that gives up. What a person is
  told of the reason in a stop (`failureForPeerStop`) is not part of the session model.
- The order of members in a JSON object before it is printed: an object is held in ascending order of its names, so the
  sort of `canonicalJson` is not a step of its own.
- A source that changes while it is read, and the overwriting of keys and plaintext after use.
- Floating-point rounding in the pacer, where reals are used, and in the padding, where the least power of two is used.
- Screens, relays, browser peers, WebTorrent, checkout, share descriptors and their validators: they would add only
  foreign calls or one-branch facts.
- EnvelopeReader.DecryptPrivacyEnvelope: takes the 32 bytes of the key; its text is parsed in `InputKeys`.
- PoolTolerance.ExtendPool: the limit of 8192 characters on the list is not modelled, because the lines come parsed.
- Pool.UploadPool: an upload that a node refuses but stores all the same may go uncounted, as in the code; the report
  counts what was seen to be served. Which nodes store what they are handed (`Network.dependable`) is a fixed set.
- Pacing.StretchBound: assumes a clock that does not go back and a burst of at least one byte. The defaults are
  `RELAY_BYTES_PER_SECOND` and `RELAY_BURST_BYTES`.
