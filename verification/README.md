# Verified models of rbitcoin's tooling

A Dafny model of the algorithmic core of rbitcoin's scripts and fuzz support, with proofs
about whole runs of it:

- the BIP 324 v2 transport endpoint and the block download loop of the serve benchmark
  (`ByteStrings`, `Poly1305`, `Aead`, `FsCiphers`, `Wire`, `Session`, `Endpoint`,
  `Conversation`, `Download`);
- the offline repair of a double-appended index window
  (`Moves`, `IndexRepair`, `TxidRepair`, `StoreRepair`);
- the Base58 decoder with its in-place big-number buffer (`Radix`, `Base58`);
- rewinding and parking an oracle node by invalidating its tip (`BlockTree`);
- the mutation-test scheduler, its resumable backlog cursor and the dependents search
  (`MutantSchedule`, `MutantCursor`, `Dependents`);
- the script-kernel seed codec, script numbers and the key hashers
  (`SeedCodec`, `ScriptNum`, `Hashers`).

`dafny verify dfyconfig.toml` checks everything. Objects the source updates in place are
classes, loops are loops with invariants, and each is proved against a function on values;
the theorems are lemmas about those functions.

Parameters stand for what the model does not compute. The ChaCha20 block function is any
function from key, nonce and counter to 64 bytes; HKDF, the tagged hash, the x-only ECDH and
`hash256` are arbitrary functions of the right output length. Every theorem holds for all of
them. A socket is the list of pieces it will deliver, each some bytes or a timeout, followed
by end of file. A clock reading, a random key or a fuzz payload is an argument.

## What the proofs found

- `FSChaCha20` does not clear its buffer on a rekey, so keystream of the old key survives
  unless an epoch's chunks and the next key fill whole blocks (`RekeyLeavesNothingIff`,
  `TwoByteChunksLeaveSome`).
  The three-byte lengths of the protocol do (`LengthCipherRefinesBip324`).
- A command outside the short-id table survives framing if it is at most 12 ASCII
  characters without a NUL. The only others that do are 12 characters long and end in
  U+FFFD characters, which the cut at 12 bytes turns into as many stray bytes
  (`FramingIff`).
- If `recv_msg` would have delivered a message and times out instead, a second call gives the
  same answer, that is message, ciphers and unread rest, if and only if the two receiving
  ciphers have moved equally far, that is, if the timeout did not fall between a packet's
  length and its body (`V2.ReceiveMessage`). In the other case the ciphers stay one step
  apart for the rest of the session (`LostLengthIsNeverMadeGood`, `MessagesKeepLead`). Of the
  message alone only one half holds for every block function: equally far moved ciphers give
  the same message, but ciphers out of step can also give it (`SameMessageByChance`).
- The packet cipher rekeys with the AAD of the packet, where BIP 324 has none. It makes no
  difference, because the AAD reaches the tag alone and the tag is cut off
  (`RekeyIgnoresAad`).
- `_enc_packet` on contents of 2^24 bytes and more fails after the packet cipher has moved
  on and before the length cipher has (`V2.EncPacket`).
- A doubled window of an ordered index is found exactly when its slots are not all equal; a
  window of one slot is never found (`RepairUndoesDoubling`).
- A header range that starts inside the ghost window and ends past it is left unadjusted. It
  changes meaning unless all its txids stand again one window later (`KeepsMeaningIff`,
  `StraddlingLosesMeaning`), and
  a range behind it can come down onto it; `StayDisjointIff` says exactly when. The script's
  own description says that ranges starting in the window are cleared; the model follows the
  code.
- The Base58 length limit is not applied to an empty result, so a negative limit still
  accepts a blank string (`DecodeSpec` in `RoundTripIff`).

## Model

| member | source | states |
|---|---|---|
| ByteStrings.LEByte | scripts/ibd-serve-bench.py:622 | byte i of a little-endian number has the weight 256^i |
| ByteStrings.FromLEOfLE | scripts/ibd-serve-bench.py:622-627 | little-endian reading undoes little-endian writing for every value that fits the width |
| ByteStrings.XorBitwise | scripts/ibd-serve-bench.py:520 | the xor of two bytes has a bit exactly where one of them has it |
| ByteStrings.LEOfFromLE | scripts/repair-idx-double-append.py:69-76 | writing back a value that was read from four (or any number of) bytes leaves them as they were |
| Poly1305.Authenticator.Add | scripts/ibd-serve-bench.py:415-421 | the accumulator becomes the Horner value over the 16-byte blocks of the first `n` bytes |
| Poly1305.AbsorbIsPolynomial | scripts/ibd-serve-bench.py:415-421 | the Horner loop gives, modulo 2^130 - 5, the sum of the block numbers weighted with falling powers of `r` (section 2.5 of RFC 8439) |
| Poly1305.ThreeAddsAreOnePass | scripts/ibd-serve-bench.py:434-435 | the padded AAD, padded ciphertext and length blocks added separately give the polynomial of one pass over the string of section 2.8 of RFC 8439 |
| Poly1305.AbsorbPadded | scripts/ibd-serve-bench.py:415-421 | the `pad` flag is the same as zero-padding the message to whole blocks |
| Poly1305.ClampIsRfc | scripts/ibd-serve-bench.py:411 | the integer mask on `r` is the bytewise clamp of section 2.5 of RFC 8439 |
| Aead.Crypt | scripts/ibd-serve-bench.py:429-432 | the block loop masks byte i with byte i mod 64 of block i div 64 + 1, for every length |
| Aead.MaskIsKeystream | scripts/ibd-serve-bench.py:429-432 | the mask is the serialized key stream of section 2.4 of RFC 8439 from block 1 on |
| Aead.ComputeTag | scripts/ibd-serve-bench.py:443-447 | the code's tag is the clamped polynomial over the string of section 2.8 of RFC 8439, modulo 2^130 - 5, plus the second key half, modulo 2^128 |
| Aead.Encrypt | scripts/ibd-serve-bench.py:427-436 | the ciphertext and tag of section 2.8 of RFC 8439 |
| Aead.Decrypt | scripts/ibd-serve-bench.py:439-454 | the plaintext if the tag matches, nothing for a short or wrongly tagged input |
| Aead.OpenIffSealed | scripts/ibd-serve-bench.py:427-454 | decryption returns a plaintext if and only if the input is that plaintext's own encryption |
| FsCiphers.FSChaCha20Poly1305.Rekey | scripts/ibd-serve-bench.py:482-486 | every 224th packet replaces the key by 32 sealed zero bytes; the packet counter moves |
| FsCiphers.FSChaCha20Poly1305.Encrypt | scripts/ibd-serve-bench.py:488-491 | seals under the current key and nonce and moves the cipher on |
| FsCiphers.FSChaCha20Poly1305.Decrypt | scripts/ibd-serve-bench.py:493-498 | opens under the current key and nonce; a failure leaves the cipher where it was |
| FsCiphers.RekeyIgnoresAad | scripts/ibd-serve-bench.py:485 | the new key is the same for every AAD |
| FsCiphers.PacketCipherRefinesBip324 | scripts/ibd-serve-bench.py:472-498 | after any packets with any AADs the key is BIP 324's key of the current epoch, a function of the initial key and the epoch alone |
| FsCiphers.NonceParts | scripts/ibd-serve-bench.py:477-480 | the nonce of packet n holds n mod 224 and n div 224 |
| FsCiphers.NoncesAreFresh | scripts/ibd-serve-bench.py:477-484 | no two packets share a nonce and no packet has that of a rekey |
| FsCiphers.SealedWith | scripts/ibd-serve-bench.py:477-491 | packet n of any run is sealed with the key of epoch n div 224 and the nonce of BIP 324 |
| FsCiphers.FSChaCha20.Ks | scripts/ibd-serve-bench.py:508-516 | the buffered keystream yields its first `n` bytes and keeps the rest |
| FsCiphers.FSChaCha20.Crypt | scripts/ibd-serve-bench.py:518-525 | masks a chunk of any length and moves the cipher on, with the rekey after every 224th chunk |
| FsCiphers.CryptChunkCancel | scripts/ibd-serve-bench.py:518-525 | masking twice from one state gives the chunk back |
| FsCiphers.LengthCipherRefinesBip324 | scripts/ibd-serve-bench.py:501-525 | chunk k is masked with bytes 3(k mod 224) onwards of epoch k div 224, each key is bytes 672 to 704 of the epoch before, and the buffer is empty at every rekey |
| FsCiphers.EpochNonceParts | scripts/ibd-serve-bench.py:510-512 | the nonce of epoch e holds zero and e |
| FsCiphers.RekeyLeavesNothingIff | scripts/ibd-serve-bench.py:521-523 | for chunks of any lengths, no old keystream survives a rekey if and only if the epoch's chunks and the next key fill whole blocks |
| FsCiphers.TwoByteChunksLeaveSome | scripts/ibd-serve-bench.py:521-523 | an instance: an epoch of two-byte chunks leaves old keystream in the buffer |
| Wire.DecodesSealed | scripts/ibd-serve-bench.py:619-633 | a packet decodes in the state it was sealed in to its contents, its ignore bit and the unread rest |
| Wire.DecodesIffSealed | scripts/ibd-serve-bench.py:625-633 | a packet is accepted if and only if it was sealed from the receiver's own cipher state under the receiver's AAD |
| Wire.ShortId | scripts/ibd-serve-bench.py:83-114 | a name has a short id exactly when it is a non-empty table entry, and the id leads back to it |
| Wire.FramingIff | scripts/ibd-serve-bench.py:635-659 | for every Unicode command, a message survives framing if and only if the command has a short id, or has no NUL and is at most 12 ASCII characters or exactly 12 ending in U+FFFD |
| Wire.FieldFitsIff | scripts/ibd-serve-bench.py:640-658 | for any field width, which strings come back from UTF-8, the cut and the replacing ASCII decoder |
| Wire.Utf8Decodes | scripts/ibd-serve-bench.py:640 | the encoder's bytes give back every code point |
| Session.RecvTurn | scripts/ibd-serve-bench.py:644-659 | decoys and unreadable packets are passed over and the message behind them is delivered with the ciphers in step |
| Session.ReceivesIffSealed | scripts/ibd-serve-bench.py:644-659 | a call delivers a message if and only if the stream is skipped packets and then one that brings it, every one sealed from the receiver's own states |
| Session.SessionDelivers | scripts/ibd-serve-bench.py:619-659 | any number of messages with any noise between them arrive in order, across any number of rekeys, and both ends finish in the same cipher state |
| Session.LostLengthIsNeverMadeGood | scripts/ibd-serve-bench.py:625-659 | for every stream that would have yielded a message, a call that starts behind the first length never gives the same answer, that is message, ciphers and unread rest |
| Session.MessagesKeepLead | scripts/ibd-serve-bench.py:625-659 | no number of messages changes how far the length cipher is ahead of the packet cipher |
| Session.LostLengthLosesMessage | scripts/ibd-serve-bench.py:876-883 | an instance: with its length gone, a last message of at most two bytes is not delivered at all |
| Session.SameMessageByChance | scripts/ibd-serve-bench.py:625-659 | for one block function and stream, a call that starts behind a length delivers the same message and rest, with the ciphers one step apart |
| Session.ScanRecoversIff | scripts/ibd-serve-bench.py:600-611 | the peer's garbage is recovered if and only if it is at most 4095 bytes and the terminator does not occur earlier |
| Session.ScanMissingIff | scripts/ibd-serve-bench.py:609-610 | the scan gives up if and only if the first 4111 bytes hold no terminator |
| Session.FindInPrefix | scripts/ibd-serve-bench.py:602-608 | a terminator found in the bytes that have arrived is the first one of the whole stream |
| Session.RolesMirror | scripts/ibd-serve-bench.py:359-557 | for both roles, opposite roles over one shared point derive mirrored ciphers and terminators, from the initiator's key first and under the key names of the direction |
| Session.AwaitsVersion | scripts/ibd-serve-bench.py:612-617 | decoys before the version packet are skipped, and only the first packet is authenticated with the garbage |
| Session.GreetingCompletes | scripts/ibd-serve-bench.py:590-617 | an endpoint of either role completes the handshake on any greeting of the opposite role and then has the peer's sending ciphers as its receiving ones |
| Session.EndToEnd | scripts/ibd-serve-bench.py:528-659 | in both directions: over the whole stream of a peer of the opposite role the handshake completes and exactly the peer's messages come out, ending in its cipher state |
| Endpoint.MakeCiphers | scripts/ibd-serve-bench.py:528-557 | four fresh ciphers and two terminators as the role prescribes |
| Endpoint.V2.ReadMore | scripts/ibd-serve-bench.py:572-577 | exactly one arrival is taken, its bytes go to the end of the buffer, and the stream as a whole is unchanged |
| Endpoint.V2.ReadExact | scripts/ibd-serve-bench.py:579-584 | the first `n` bytes of the stream however it is split, or nothing consumed; it succeeds exactly when they are buffered or arrive before a timeout, and reads no more pieces than that takes |
| Endpoint.V2.EncPacket | scripts/ibd-serve-bench.py:619-623 | the packet and both ciphers moved, or for oversized contents a failure that has moved the packet cipher only |
| Endpoint.V2.SendMsg | scripts/ibd-serve-bench.py:635-642 | the framed message is appended to what was sent, or nothing is sent and only the packet cipher has moved |
| Endpoint.V2.DecPacket | scripts/ibd-serve-bench.py:625-633 | what the stream holds however it is split; it times out exactly when a timeout comes before the packet is complete, and then has changed nothing or consumed exactly the length |
| Endpoint.V2.ReadGarbage | scripts/ibd-serve-bench.py:600-611 | garbage, terminator and rest are independent of how the stream is split; it times out exactly when the bytes before a timeout do not settle the scan |
| Endpoint.V2.ReadVersion | scripts/ibd-serve-bench.py:612-617 | decoys are skipped up to the version packet, the first one under the garbage as AAD |
| Endpoint.V2.Introduce | scripts/ibd-serve-bench.py:590-599 | the bytes sent and the four cipher states derived from the first 64 bytes of the stream, or which failure |
| Endpoint.V2.Handshake | scripts/ibd-serve-bench.py:590-617 | on success what was sent and the ciphers of both directions; success and every error are what the whole stream calls for, and it times out exactly when the bytes before a timeout do not settle it |
| Endpoint.V2.ReceiveMessage | scripts/ibd-serve-bench.py:644-659 | the message the whole stream holds next; it times out exactly when the bytes before a timeout do not hold an answer; after a timeout the state is one that still holds the answer or one behind some packet's length, and where the first call would have delivered a message, a second gives the same message, ciphers and unread rest if and only if the two ciphers have moved equally far |
| Conversation.SendTurns | scripts/ibd-serve-bench.py:635-642 | any run of `send_msg` calls with decoys between them puts exactly those packets on the wire and leaves the ciphers behind them |
| Conversation.Collect | scripts/ibd-serve-bench.py:644-659 | the first pending message is delivered and the direction carries the rest |
| Conversation.Exchange | scripts/ibd-serve-bench.py:619-659 | for every interleaving of sends and receives at both ends and every splitting of the bytes, each end has received exactly the messages the other sent, in order, up to those still on their way |
| Conversation.Connect | scripts/ibd-serve-bench.py:528-617 | two endpoints of opposite roles complete the handshake on each other's bytes and are in step in both directions |
| Conversation.Converse | scripts/ibd-serve-bench.py:528-659 | the two together, from the keys on: what `recv_msg` returns at either end is what `send_msg` was given at the other |
| Download.DownloadIsInOrder | scripts/ibd-serve-bench.py:833-846 | in every run of events at most the window is in flight, queue and window are disjoint, no hash is requested twice, and requests plus queue are the header hashes in order of first appearance |
| Download.FirstSeenOrder | scripts/ibd-serve-bench.py:893-896 | queue order is the order of first appearance |
| Download.InFlightIff | scripts/ibd-serve-bench.py:833-943 | in every run, in flight is exactly what was requested and neither received nor reported missing nor given up since |
| Download.BlockBringsNext | scripts/ibd-serve-bench.py:906-915 | a block that was waited for brings exactly the next queued hash into flight |
| Download.ToppedKeeps | scripts/ibd-serve-bench.py:833-846 | a top-up leaves the window full or the queue empty and keeps the order |
| Download.Downloader.TopUp | scripts/ibd-serve-bench.py:833-846 | the front of the queue moves into the window in one request |
| Download.Downloader.OnHeaders | scripts/ibd-serve-bench.py:888-905 | unseen hashes are queued once, the end of headers is recognised, and the window is topped up |
| Download.Downloader.OnBlock | scripts/ibd-serve-bench.py:906-915 | the block leaves the window, the totals grow, and the window is topped up |
| Download.Downloader.OnNotFound | scripts/ibd-serve-bench.py:935-943 | the missing hashes leave the window and it is topped up |
| Download.Downloader.OnStall | scripts/ibd-serve-bench.py:860-874 | the window is emptied and topped up |
| Download.Run | scripts/ibd-serve-bench.py:851-943 | the loop stops exactly at the first event that reaches a limit or leaves nothing to wait for, the totals are those of the events handled, and in the latter case every header hash has been requested once |
| Moves.MoveStep | scripts/repair-idx-double-append.py:314-327 | a forward move inside one file reads only bytes it has not overwritten, for every piece size |
| IndexRepair.FindInversion | scripts/repair-idx-double-append.py:89-98 | the first slot below its predecessor, or none in an ordered index |
| IndexRepair.WidestWindow | scripts/repair-idx-double-append.py:108-119 | the widest window that repeats right before the inversion |
| IndexRepair.Widen | scripts/repair-idx-double-append.py:137-145 | every width from the start to the result repeats and the next one does not |
| IndexRepair.DetectClone | scripts/repair-idx-double-append.py:83-146 | inversion, last good fk and the widest repeated window, or which of them is missing |
| IndexRepair.OnlyTheWindowRepeats | scripts/repair-idx-double-append.py:101-118 | in an ordered index with a window doubled that is not constant, no other width repeats |
| IndexRepair.DetectsDoubledIff | scripts/repair-idx-double-append.py:83-146 | a doubled window is detected exactly if it is not constant, and otherwise nothing is reported |
| IndexRepair.ShiftSlots | scripts/repair-idx-double-append.py:216-217 | the in-place loop moves the slots down although source and destination overlap |
| IndexRepair.RepairSegment | scripts/repair-idx-double-append.py:198-229 | the detected window is gone, every other slot is kept in order, and length, high-water mark and count agree |
| IndexRepair.RepairUndoesDoubling | scripts/repair-idx-double-append.py:83-229 | repair of a doubled window gives back the original index if and only if the window is not constant, for a strictly increasing index if and only if it has at least two slots |
| TxidRepair.TxidFile.MoveTail | scripts/repair-idx-double-append.py:310-327 | for every batch size the tail is moved over the ghost entries; a short file fails on the first batch it does not hold, with exactly the batches before it moved |
| TxidRepair.TxidFile.Compact | scripts/repair-idx-double-append.py:289-334 | for every file, the outcome and the whole file left behind: compacted, refused, stopped at the first short batch, or cut or extended because nothing had to move |
| TxidRepair.CompactedEntry | scripts/repair-idx-double-append.py:308-328 | entry fk is the old entry fk up to the last good one and the old entry fk plus the ghost length after it |
| TxidRepair.AdjustHeaders | scripts/repair-idx-double-append.py:353-372 | both header tables are rewritten range by range and entries beyond the shorter one are untouched |
| TxidRepair.KeepsMeaningIff | scripts/repair-idx-double-append.py:357-372 | for any store, a range is cleared or names the same txids afterwards if and only if it does not straddle the end of the ghost window or all its txids stand again one window later; where no ghost txid recurs after the window, straddling alone decides |
| TxidRepair.StraddlingLosesMeaning | scripts/repair-idx-double-append.py:357-372 | an instance in every store of four entries: a straddling range is left pointing past the end |
| TxidRepair.TableKeepsMeaning | scripts/repair-idx-double-append.py:353-372 | all ranges of a table without straddling ones keep their meaning and stay in bounds and disjoint |
| TxidRepair.StayDisjointIff | scripts/repair-idx-double-append.py:357-372 | disjoint ranges stay disjoint if and only if neither straddles and has the other come down onto it |
| TxidRepair.TableStaysDisjointIff | scripts/repair-idx-double-append.py:353-372 | the same condition for a whole table |
| TxidRepair.StraddlingOverlaps | scripts/repair-idx-double-append.py:360-372 | an instance within a store: a straddling range overlapped by a later one |
| TxidRepair.CompactUndoesInsertion | scripts/repair-idx-double-append.py:303-331 | compaction gives back, byte for byte, a file into which entries of any contents were inserted |
| TxidRepair.TableRestoredIff | scripts/repair-idx-double-append.py:353-372 | a table whose later ranges were moved up is given back if and only if the insertion cut none of its ranges; exactly the cut ones are cleared |
| StoreRepair.RepairStore | scripts/repair-idx-double-append.py:180-246 | index, txids and headers lose the same window and their counts agree; for every outcome of the txid file, what it then holds and whether the header tables are adjusted or untouched |
| StoreRepair.RestoreStore | scripts/repair-idx-double-append.py:180-246 | repair undoes the corruption of a whole store if and only if the doubled window is not constant: index and txids are the original ones, and so is every header range the insertion did not cut |
| Radix.BufferFits | scripts/core-functional/core_dest.py:279 | 733 m div 1000 plus 1 bytes hold every number of m base-58 digits |
| Radix.ValueOfMinimal | scripts/core-functional/core_dest.py:302-303 | the digits of a number without leading zeros have its value |
| Base58.MulAdd | scripts/core-functional/core_dest.py:286-294 | the buffer holds 58 times its number plus the digit, no carry is lost, and the new length is exact |
| Base58.DecodeDigits | scripts/core-functional/core_dest.py:279-297 | the word's bytes, or a refusal that a single test at the end would also make |
| Base58.DecodeBase58 | scripts/core-functional/core_dest.py:267-303 | present exactly for well-formed strings whose bytes fit the limit or are none, and then those bytes |
| Base58.DigitIffPlace | scripts/core-functional/core_dest.py:34-37 | a character is digit d exactly when it is at place d of the alphabet |
| Base58.RoundTripIff | scripts/core-functional/core_dest.py:267-303 | decoding inverts the reference encoder, with any whitespace around, exactly when the data fits the limit or is empty |
| Base58.EncodeDecoded | scripts/core-functional/core_dest.py:267-303 | re-encoding what a word decodes to gives the word back |
| Base58.DecodeBase58Check | scripts/core-functional/core_dest.py:306-316 | present exactly when the last four decoded bytes are the checksum of the others and the length fits |
| BlockTree.RewindUntil | fuzz/src/block_diff.rs:1134-1159 | whichever siblings activate and whichever call fails, nothing at or below `keep` is invalidated; without a failed call a start at or above `keep` ends at `keep` with exactly the old valid blocks up to it, and "no progress" is never reported |
| BlockTree.TipInvalidated | fuzz/src/block_diff.rs:1136-1139 | invalidating a tip above `keep` removes the tip, nothing at or below `keep`, and leaves a valid block at `keep` or above |
| BlockTree.ParkAt | fuzz/src/chain_review.rs:724-753 | only proper descendants of the block are invalidated, all of them if it ends as tip; if no call failed a valid block ends as tip or off the active chain, certainly as tip if every block that does not descend from it is lower, and in no run as tip if one is higher |
| BlockTree.DescendantInvalidated | fuzz/src/chain_review.rs:738-747 | invalidating a tip above the block takes only blocks above the block |
| MutantSchedule.FileBatch | scripts/mutants_queue.py:221-239 | the longest run of one file from the offset, at most `cap` names |
| MutantSchedule.Schedule | scripts/mutants_queue.py:152-186 | each side is served in order, the half-budget rule holds at every batch, batches follow one another on the clock, each is of one side and file and as long as the file's run and `cap` allow, and it stops only when time or work is used up |
| MutantSchedule.BatchFollows | scripts/mutants_queue.py:109-149 | a batch chosen by the side rule keeps the rule for every row |
| MutantCursor.Cursor.ResumeOld | scripts/mutants_queue.py:87-100 | a listed name wins: the rotation starts at its first occurrence; an empty or vanished name leaves the index modulo the length |
| MutantCursor.Cursor.Split | scripts/mutants_queue.py:937-964 | the new names not yet tried and the backlog rotated to the cursor, which now names its first entry |
| MutantCursor.Cursor.AdvanceSide | scripts/mutants_queue.py:638-685 | the side's cursor moves by the completed count, a finished new phase moves the base for either side, and the next backlog name is recorded |
| MutantCursor.Job | scripts/mutants-nightly.sh:255-268 | one split and any interleaving of new and backlog batches: each side finishes a prefix of its own queue, its cursor moves by its own batches alone, the backlog goes on at the remembered name if it is listed, and the night's new time is used up exactly when a batch ends in the second half with work left on both sides |
| MutantCursor.StepsKeepPlace | scripts/mutants_queue.py:662-671 | after every step the name at the cursor's index is the cursor's name |
| MutantCursor.ResumesAtPlace | scripts/mutants_queue.py:87-100 | with distinct names the next job resumes exactly where the last one stopped |
| MutantCursor.NextJobContinues | scripts/mutants_queue.py:87-100 | over changing lists, a job goes on at the name the last one stopped at if it is still listed |
| MutantCursor.JobsWalkTheList | scripts/mutants_queue.py:638-685 | the work of any number of jobs is a prefix of the endless cyclic walk, and the cursor names the next entry |
| MutantCursor.NoEarlyRepeat | scripts/mutants_queue.py:662-671 | the walk repeats a name only after a whole round |
| Dependents.BuildReverse | scripts/mutants_queue.py:325-334 | the reverse map holds exactly the normal and dev links of packages other than the bench |
| Dependents.FindDependents | scripts/mutants_queue.py:335-344 | exactly the packages with a path to the given one, without duplicates, on any graph |
| Dependents.SortedDependents | scripts/mutants_queue.py:319-345 | the same packages in strictly ascending order |
| Dependents.ClosedHoldsReaching | scripts/mutants_queue.py:338-344 | a set closed under reverse links misses no package that reaches it |
| SeedCodec.EncodeShape0 | scripts/script-kernel-seeds.py:220-239 | exactly when a seed is refused or overflows, and the wire form otherwise |
| SeedCodec.ReadU16 | fuzz/src/script_review.rs:368-372 | two bytes at the cursor, which moves past them, or nothing |
| SeedCodec.DecodeRawSpend | fuzz/src/script_review.rs:374-419 | the cursor-driven decoder reads the header, both scripts and the witness items or fails where a field is short or too long |
| SeedCodec.DecodesIffWire | fuzz/src/script_review.rs:374-419 | a payload decodes to a spend if and only if it begins with that spend's own wire form |
| SeedCodec.SeedRoundTrip | fuzz/src/script_review.rs:493-511 | the Rust decoder reads back exactly what the Python encoder was given, with version 1, maximal sequence and locktime 0 |
| ScriptNum.EncodeScriptNum | scripts/script-kernel-seeds.py:72-86 | the byte loop and sign handling give the sign-magnitude form |
| ScriptNum.DecodeScriptNum | scripts/core-functional/rpc_util.py:918-929 | the number in at most four bytes, nothing in more |
| ScriptNum.ScriptNumRoundTrip | scripts/core-functional/rpc_util.py:918-929 | decoding an encoding gives the number exactly when its magnitude is below 2^31 and no number otherwise |
| ScriptNum.EncodingIsShortest | scripts/script-kernel-seeds.py:72-86 | no byte string for a number is shorter than its encoding |
| Hashers.OutPointHasher.Write | crates/rbitcoin-consensus/src/id_map.rs:40-47 | the state mixes in every byte of the write |
| Hashers.TxidHasher.Write | crates/rbitcoin-consensus/src/id_map.rs:12-25 | the shift-and-or loop of a short write and the copy of a long one both give the little-endian number of the first eight bytes |
| Hashers.LastWriteDecides | crates/rbitcoin-consensus/src/id_map.rs:33-36 | hashers with any histories agree after the same last write |
| Hashers.OutPointLosesTxid | crates/rbitcoin-consensus/src/id_map.rs:35-36 | after any writes, a last write of an output index leaves the index alone as hash |
| Hashers.TxidCollisionIff | crates/rbitcoin-consensus/src/id_map.rs:12-25 | two writes of any lengths collide if and only if their first eight bytes, filled up with zeros, are equal |
| Hashers.MixAllSplit | crates/rbitcoin-consensus/src/id_map.rs:33-47 | the hash does not depend on how the bytes are split into writes |
| Hashers.OneByteMatters | crates/rbitcoin-consensus/src/id_map.rs:33-47 | inputs that differ in exactly one byte hash differently |
| Hashers.UnMixMix | crates/rbitcoin-consensus/src/id_map.rs:43-46 | every step is undone by the inverse multiplier and the byte |
| Hashers.OrderMatters | crates/rbitcoin-consensus/src/id_map.rs:43-46 | from the initial state, two different bytes hash differently in the other order |

## Left out

- The inside of `chacha20_block`, SHA-256, HMAC, HKDF, secp256k1 and ElligatorSwift: parameters of the model.
- The `cryptography` package path of the AEAD (`_HAS_CRYPTO`): a library call; the pure-Python path is modelled.
- The OverflowError of an epoch number of 2^64 and more, after 224 * 2^64 packets: the model keeps the low eight bytes.
- Commands with lone surrogates, which Python cannot encode: a Dafny character is a Unicode scalar value.
- A responder's event loop: the source has none, so the responder in `Conversation` is built from the endpoint's own methods, and the version, verack and ping messages of `run` are ordinary messages.
- Getheaders requests, wall-clock times, rates and printed reports of the download loop: a stall is an event.
- The first widening loop of `detect_clone`, whose result is overwritten, and the `--last-good` and `--ghost-n` overrides with their separate clone check.
- Index metadata encoding, the segments before the last one and the removal of `tx.head`: no property beyond copying.
- DetectClone: requires a segment with at least one slot whose file holds every slot the metadata counts; the `struct.error` of a truncated or empty segment is not modelled. The same holds for FindInversion, WidestWindow, Widen, RepairSegment and RepairStore.
- RepairStore: takes the total count to be `first_fk` - 1 plus the last segment's count, which is what contiguous segments from fk 1 give.
- FileBatch: requires a positive cap, as Schedule requires a positive cap and batch length; smaller values raise ValueError in the source.
- AdvanceSide: requires a positive budget where the source would raise ValueError without one; Job requires one throughout, because `next_side` raises before any batch without it.
- Bech32, its error location over GF(1024) and the address descriptions of core_dest.py.
- Proof of work in the oracle's choice of tip: all blocks have equal work, as in the regtest harness.
- Parsing of mutant lines and diffs, `rollover`, `begin_night`, `remember` and the health report: bookkeeping with easy properties.
- Script verification behind the seed decoder and its other shapes.
- The node's consensus, store, network and RPC crates.
