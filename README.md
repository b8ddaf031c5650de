# EnRav card handler, modelled in Dafny

EnRav is an audio player that a MIFARE RFID card controls. Its `CardHandler`
class (`lib/UserInterface/src/cardHandler.cpp`) sits between the player and
an MFRC522 reader:

- It tells whether a new card has entered the field.
- It tells whether the card whose serial number (UID) the caller cached is
  still there, giving it three attempts.
- It caches a card's UID.
- It reads and writes the record the player keeps on a card. The record has
  an information block ("header": magic cookie, format version, volume,
  resumable flag, filename length) and the filename itself, stored block by
  block.
- It ends communication with the card.

The model has seven modules:

- `Bytes`: bytes, zero padding, NUL-terminated text (`UntilNul`) and
  little-endian 32-bit words.
- `Layout`: the header, the build constants that place it on the card (a
  `Config` value), and an explicit byte encoding of the header. The source's
  `Raw`/`Entry` union becomes `Encode`/`Decode`.
- `Addressing`: block arithmetic on the card.
  - Sector trailers (key blocks) and the key block of a sector.
  - The read path's 8-bit filename cursor, which hops over trailers on
    Classic cards.
  - The write path's (sector, block) cursor, made of two 8-bit counters that
    carry at the sector size.
- `Card`: the reader and the card in its field.
  - The driver operations the handler issues (`Op`).
  - Which of them the card refuses (`Faults`).
  - The card memory (`Memory`), and what a read returns and a write stores on
    MIFARE Classic (16-byte blocks) and Ultralight (4-byte pages) cards.
  - A `Reader` class whose methods are the driver calls. Each call appends to
    a log of operations.
- `Presence`: the three-round presence check as a pure function
  (`ProbeCard`).
- `Transfer`: both transfer paths as pure functions.
  - `ReadCard` gives the verdict, the metadata copied, the filename and the
    operations issued.
  - `WriteCard` and `WritePlan` give the operations issued and the writes
    that took effect.
  - Around them sit the read and write plans and the lemmas about them: the
    header round trip, cursor behaviour, authentication rules and the
    findings below.
- `Handler`: the classes `CardSerialNumber`, `CardData` and `CardHandler`.
  - Their methods follow the source's loops: the retry loop, the UID compare
    loop, the header block loops, the filename loops with their cursors and
    re-authentication.
  - Each method is proved against the functions of `Presence` and
    `Transfer`.

In the filename read, the buffer of `FileNameLength + 1` bytes (line 304)
shows that the last block is meant to contribute only the bytes still
missing. The code copies a fixed chunk in every iteration instead: the block
size, or the whole filename length when that is smaller (lines 331-334,
374). The model follows the code, and finding 2 below shows what that costs.

## Model

| member | source | states |
|---|---|---|
| Handler.CardHandler.constructor | lib/UserInterface/src/cardHandler.cpp:13-16 | the handler uses the reader it is given (possibly none) and has not yet dereferenced a null reader |
| Handler.CardSerialNumber.constructor | lib/UserInterface/src/cardHandler.cpp:140-143 | a cached serial number starts as a zero-length UID in a zeroed 10-byte buffer |
| Handler.CardHandler.IsNewCardPresent | lib/UserInterface/src/cardHandler.cpp:55-77 | without a reader the answer is always yes; with one it is the card's answer to one REQA, and the only effects are that request and its log entry |
| Handler.CardHandler.IsCardPresent | lib/UserInterface/src/cardHandler.cpp:80-127 | without a reader the answer is no; with one, the result, the reader's UID, its answer positions and the issued WakeupA/ReadSerial operations are exactly those of `ProbeCard` (at most three rounds, stopping at the first round whose UID matches) |
| Handler.CardHandler.Attempt | lib/UserInterface/src/cardHandler.cpp:89-122 | one round of the retry loop moves the reader exactly as `Round` does and reports whether the UID matched |
| Handler.CardHandler.SameSerial | lib/UserInterface/src/cardHandler.cpp:100-120 | the length-then-bytes compare loop answers true if and only if the reader's UID equals the cached serial number |
| Handler.CardHandler.GetCardSerial | lib/UserInterface/src/cardHandler.cpp:130-164 | on a successful serial read the cache holds the UID, zero-padded to 10 bytes, and its length; on failure or without a reader the cache is unchanged |
| Handler.CardHandler.ReadCardInformation | lib/UserInterface/src/cardHandler.cpp:167-430 | the record is marked valid exactly when `ReadCard` accepts; volume and resumable flag are copied once a version-1 header is seen; the filename is set only on acceptance; the log grows by exactly the operations `ReadCard` issues; card memory is untouched |
| Handler.CardHandler.ReadAuthenticated | lib/UserInterface/src/cardHandler.cpp:258-400 | after a successful authentication the method behaves as `ReadHeader`: information blocks read, cookie and version checked, record read |
| Handler.CardHandler.ReadRecordInto | lib/UserInterface/src/cardHandler.cpp:290-400 | the version-1 branch copies the metadata, rejects an empty filename, and otherwise behaves as `ReadRecord` |
| Handler.CardHandler.ReadInformationBlock | lib/UserInterface/src/cardHandler.cpp:259-276 | the header loop issues the reads of `HeaderReadPlan` up to the first failure; on success the structure holds `HeaderRaw`, the copied block prefixes over the prior contents |
| Handler.CardHandler.ReadInformationPage | lib/UserInterface/src/cardHandler.cpp:264-276 | one iteration of the header loop keeps the loop invariant `HeaderLoopAt` or reports the failing read |
| Handler.CardHandler.ReadFileName | lib/UserInterface/src/cardHandler.cpp:336-392 | the filename loop issues the operations of `NameReadPlan` up to the first failure; on success the text is `NameText`, the chunks of the blocks visited up to their first NUL |
| Handler.CardHandler.ReadNameStep | lib/UserInterface/src/cardHandler.cpp:338-391 | one iteration of the filename loop keeps `NameLoopAt` (cursor, active key block, text, trace) or stops at the failing operation |
| Handler.CardHandler.ReadNameBlock | lib/UserInterface/src/cardHandler.cpp:339-377 | re-authenticate if the key block changed, read the block and append its chunk up to a NUL, issuing exactly `NameStepOps` |
| Handler.CardHandler.AuthenticateNameSector | lib/UserInterface/src/cardHandler.cpp:339-358 | on Classic cards key A is authenticated exactly when the block's key block differs from the active one, and the active key block is then updated |
| Handler.CardHandler.NextNameCursor | lib/UserInterface/src/cardHandler.cpp:379-391 | the cursor update equals `NextNameBlock`: 8-bit increment, then past a Classic trailer |
| Handler.CardHandler.WriteCardInformation | lib/UserInterface/src/cardHandler.cpp:432-704 | a size mismatch fails with only the halt; otherwise the presence check runs as `ProbeCard` and the write as `WriteCard`; the memory afterwards is the old memory with the completed writes applied; the card is always halted last; without a reader the final halt dereferences null |
| Handler.CardHandler.WriteChecked | lib/UserInterface/src/cardHandler.cpp:460-697 | the size checks, then the presence check and the write, with log and memory as in `WriteCardInformation` minus the final halt |
| Handler.CardHandler.WritePresent | lib/UserInterface/src/cardHandler.cpp:480-697 | when the sizes agree, the card must still be present (`ProbeCard`) before anything is written |
| Handler.CardHandler.WriteRecord | lib/UserInterface/src/cardHandler.cpp:486-697 | the write proceeds as `WriteCard` with the card present: an unsupported card type writes nothing and issues nothing; log and memory follow `WriteCard` |
| Handler.CardHandler.WriteSupported | lib/UserInterface/src/cardHandler.cpp:486-697 | for a supported card type the header is built from the record and the result, log and memory are those of `WriteCard` |
| Handler.CardHandler.WriteTransfer | lib/UserInterface/src/cardHandler.cpp:519-697 | authentication, header blocks and filename blocks run in that order, each phase only after the one before succeeded; the log and memory follow the phase that failed |
| Handler.CardHandler.WriteBlocks | lib/UserInterface/src/cardHandler.cpp:561-697 | after a successful authentication the header blocks and then the filename blocks are written, stopping at the first refusal |
| Handler.CardHandler.AuthenticateInformation | lib/UserInterface/src/cardHandler.cpp:519-558 | picks block and sector size for the card type, starts the cursor on the information block, and issues the single authentication of `WriteAuthOp` |
| Handler.CardHandler.WriteInformationBlock | lib/UserInterface/src/cardHandler.cpp:561-596 | the header do-while writes the frames of `HeaderWritePlan` up to the first failure; memory afterwards is the old memory with the completed writes applied |
| Handler.CardHandler.WriteInformationPage | lib/UserInterface/src/cardHandler.cpp:571-596 | one iteration of the header loop keeps `HeaderWriteLoopAt` (cursor, source offset, trace, memory) or reports the failing write |
| Handler.CardHandler.WriteFileName | lib/UserInterface/src/cardHandler.cpp:630-691 | the filename do-while issues `NameWritePlan` for `(length + 1) / blockSize` rounded up blocks, up to the first failure, with memory updated accordingly |
| Handler.CardHandler.WriteNameBlocks | lib/UserInterface/src/cardHandler.cpp:632-691 | the loop over the filename blocks, from the cursor on the filename region, matches `NameWritePlan` |
| Handler.CardHandler.WriteNameStep | lib/UserInterface/src/cardHandler.cpp:642-691 | one iteration keeps `NameWriteLoopAt` (cursor, authenticated sector, position, trace, memory) or stops at the failing operation |
| Handler.CardHandler.AuthenticateWriteSector | lib/UserInterface/src/cardHandler.cpp:644-662 | on Classic cards a sector is authenticated exactly when it differs from the one last authenticated, and that sector is then remembered |
| Handler.CardHandler.BlocksFor | lib/UserInterface/src/cardHandler.cpp:561-565 | `neededBlocks` is the size divided by the block size, rounded up, and positive for a positive size |
| Handler.CardHandler.FillInfoBuffer | lib/UserInterface/src/cardHandler.cpp:574 | the frame holds the next `blockSize` source bytes followed by zeros |
| Handler.CardHandler.FillNameBuffer | lib/UserInterface/src/cardHandler.cpp:664-667 | after the memset and `getBytes` the frame holds the filename window cut at its first NUL, then zeros |
| Handler.CardHandler.GetBytes | lib/UserInterface/src/cardHandler.cpp:667 | `String::getBytes` writes the window of the string up to a NUL, zero-fills to the window's end, NUL-terminates, and leaves the rest of the buffer alone |
| Handler.CardHandler.StoreTerminated | lib/UserInterface/src/cardHandler.cpp:667 | the copy and the terminator leave the text followed by zeros up to the terminator, and nothing beyond changes |
| Handler.CardHandler.BlockAddress | lib/UserInterface/src/cardHandler.cpp:576 | the 8-bit block number handed to `MIFARE_Write` is the cursor's `Address` |
| Handler.CardHandler.AdvanceCursor | lib/UserInterface/src/cardHandler.cpp:587-592 | the cursor update equals `Advance` |
| Handler.CardHandler.StopCommunication | lib/UserInterface/src/cardHandler.cpp:708-713 | issues HaltA then StopCrypto1 and changes nothing else; without a reader it dereferences null |
| Presence.Round | lib/UserInterface/src/cardHandler.cpp:89-122 | once the card is found a round changes nothing; otherwise it uses one wake-up answer and lengthens the trace, and a round that finds the card has read the cached UID |
| Presence.ProbeCard | lib/UserInterface/src/cardHandler.cpp:85-126 | the check uses at most three wake-up answers, and answers yes only with the cached UID in the reader |
| Presence.CachedSerialRecognised | lib/UserInterface/src/cardHandler.cpp:100-120 | a UID cached the way `GetCardSerial` caches it is recognised, and only that UID is |
| Presence.RoundsFound | lib/UserInterface/src/cardHandler.cpp:88-123 | after `k` rounds the card counts as found exactly when some round woke it and read a matching UID; otherwise every round used one wake-up answer, and each woken round also used one serial answer |
| Presence.ProbeCardFound | lib/UserInterface/src/cardHandler.cpp:80-127 | the presence check answers yes exactly when one of its three rounds matches |
| Presence.RoundsStop | lib/UserInterface/src/cardHandler.cpp:115-119 | once the card is recognised, further rounds change nothing (the `break`) |
| Presence.RoundsTrace | lib/UserInterface/src/cardHandler.cpp:88-123 | the check issues only WakeupA and ReadSerial; it uses at most one wake-up per round and one serial answer per successful wake-up; a match leaves the matching UID in the reader |
| Layout.Encode | lib/UserInterface/src/cardHandler.cpp:486-494 | the `Entry` fields laid out in the first 8 bytes of `Raw`: the cookie's four little-endian bytes, then version, volume, the configuration bit-field and the filename length |
| Layout.Decode | lib/UserInterface/src/cardHandler.cpp:280-300 | when only the two flag bits of the configuration byte are used, re-encoding the decoded `Entry` view gives the raw header bytes back |
| Layout.DecodeEncode | lib/UserInterface/src/cardHandler.cpp:486-494 | decoding the encoded header gives the header back |
| Layout.DecodeDependsOnFields | lib/UserInterface/src/cardHandler.cpp:280-300 | only the header field bytes decide the decoded header |
| Layout.WrittenHeaderDecodes | lib/UserInterface/src/cardHandler.cpp:486-494 | the header the write path builds decodes with the magic cookie, version 1, the record's volume and resumable flag, `Full` clear, and the length modulo 256 |
| Layout.NameLimitNeverRejects | lib/UserInterface/src/cardHandler.cpp:494-501 | the `> 256` guard, applied to the 8-bit stored length, never rejects (finding 3, as written) |
| Layout.NameFitsKeepsLength | lib/UserInterface/src/cardHandler.cpp:494-501 | a guard of at most 255 accepts exactly the filenames whose length the header keeps unchanged (finding 3, corrected) |
| Addressing.KeyBlock | lib/UserInterface/src/cardHandler.cpp:344 | the key block computed for a block is a trailer in the same sector |
| Addressing.SectorKeyBlock | lib/UserInterface/src/cardHandler.cpp:344 | the 8-bit expression `(block / 4) * 4 + 3` is the key block of the block's sector |
| Addressing.NextNameBlock | lib/UserInterface/src/cardHandler.cpp:379-391 | on Classic cards the next cursor is never a trailer; otherwise it is the 8-bit successor |
| Addressing.NameCursorStep | lib/UserInterface/src/cardHandler.cpp:379-391 | the source's increment-and-skip equals `NextNameBlock` |
| Addressing.NameBlockNotTrailer | lib/UserInterface/src/cardHandler.cpp:379-391 | from a non-trailer start, the Classic read cursor never rests on a trailer |
| Addressing.NameBlockContiguous | lib/UserInterface/src/cardHandler.cpp:379-391 | with no trailer in the way and no 8-bit wrap, iteration `k` reads block `start + k` |
| Addressing.NextNameBlockChangesSector | lib/UserInterface/src/cardHandler.cpp:344-357 | a cursor advance changes the key block exactly when it lands on the first block of a sector |
| Addressing.AddressOf | lib/UserInterface/src/cardHandler.cpp:576 | `sector * sectorSize + block`, truncated to a byte, is `Address` |
| Addressing.AdvanceLinear | lib/UserInterface/src/cardHandler.cpp:587-592 | each advance moves the linear position forward by one, modulo 256 sectors, and keeps the block inside its sector |
| Addressing.CursorAtAddress | lib/UserInterface/src/cardHandler.cpp:571-596 | iteration `k` of a write loop writes block `start + k` modulo 256 |
| Addressing.CursorAtBlock | lib/UserInterface/src/cardHandler.cpp:682-687 | the block part of the cursor counts modulo the sector size |
| Addressing.Advance | lib/UserInterface/src/cardHandler.cpp:587-592 | the cursor update (repeated at lines 682-687) keeps the block inside its sector, and changes the sector exactly when it resets the block to 0 |
| Addressing.NameBlockRises | lib/UserInterface/src/cardHandler.cpp:379-391 | away from the 8-bit wrap, the read cursor rises by one or two blocks per iteration |
| Addressing.NameBlocksDistinct | lib/UserInterface/src/cardHandler.cpp:379-391 | away from the 8-bit wrap, the read loop never visits a block twice |
| Transfer.RoundUpDivBounds | lib/UserInterface/src/cardHandler.cpp:632-637 | the rounded-up block count covers the size and overshoots it by less than one block |
| Transfer.ChunksBeforeEnd | lib/UserInterface/src/cardHandler.cpp:336-377 | the read loop is still running before iteration `k` exactly when `k` is below the rounded-up block count |
| Transfer.HeaderRaw | lib/UserInterface/src/cardHandler.cpp:259-276 | the header buffer after the loop keeps its size: each block's prefix is copied in over the uninitialised contents |
| Transfer.HeaderLoopDone | lib/UserInterface/src/cardHandler.cpp:264-276 | a header loop that read all its blocks issued exactly `HeaderReadPlan` and left `HeaderRaw` in the structure |
| Transfer.NameReadPlanBlocks | lib/UserInterface/src/cardHandler.cpp:336-392 | the filename loop reads, in order, the blocks the cursor visits |
| Transfer.NameReadsAvoidTrailers | lib/UserInterface/src/cardHandler.cpp:379-391 | on Classic cards, from a non-trailer start, no trailer is ever read |
| Transfer.NameReadStepAuth | lib/UserInterface/src/cardHandler.cpp:339-363 | every iteration ends with a read of the cursor's block and authenticates first exactly on Classic cards at the first iteration or at a sector's first block, with that sector's key block |
| Transfer.NameReadPlanOk | lib/UserInterface/src/cardHandler.cpp:336-392 | the filename loop succeeds exactly when every block it visits can be authenticated and read |
| Transfer.NameTextLength | lib/UserInterface/src/cardHandler.cpp:363-377 | after `n` iterations the text has at most `n` chunks of bytes, and exactly that many when no chunk holds a NUL |
| Transfer.NameTextChunks | lib/UserInterface/src/cardHandler.cpp:363-377 | the text never runs ahead of the loop's `position`, and keeps pace with it when no chunk holds a NUL |
| Transfer.ReadNameOverrun | lib/UserInterface/src/cardHandler.cpp:304-377 | a 20-byte filename on a Classic card is read as two full 16-byte chunks: 32 bytes for a 21-byte buffer (finding 2, as written) |
| Transfer.ClippedNameFits | lib/UserInterface/src/cardHandler.cpp:304-377 | if each iteration copies only the bytes still missing, the text never exceeds the filename length, and matches it when no chunk holds a NUL (finding 2, corrected) |
| Transfer.ReadCard | lib/UserInterface/src/cardHandler.cpp:167-430 | nothing is issued exactly when the structure sizes disagree or the card type is unsupported; metadata is copied only after a successful authentication and header read; an accepted record has its metadata; a rejected one has no filename |
| Transfer.ReadHeader | lib/UserInterface/src/cardHandler.cpp:258-406 | metadata is copied only when every header block was read and the decoded cookie and version are right, and it is then the header's volume and resumable flag; an accepted record has its metadata; a rejected one has no filename |
| Transfer.ReadRecord | lib/UserInterface/src/cardHandler.cpp:290-400 | the version-1 branch always copies the header's metadata; it rejects the record as empty exactly when the length is 0, and accepts it exactly when the length is non-zero and every operation of the filename loop succeeds |
| Transfer.ReadCardAccepts | lib/UserInterface/src/cardHandler.cpp:290-400 | a good version-1 header with a non-zero length, read without refusals, is accepted with its metadata and the loop's text as filename |
| Transfer.ReadCountWithinBlocks | lib/UserInterface/src/cardHandler.cpp:331-337 | the read loop visits no more blocks than the write loop writes for the same length |
| Transfer.ChunkedNamePrefix | lib/UserInterface/src/cardHandler.cpp:336-377 | if each visited block's chunk is the matching window of a filename, the text after `m` iterations is the filename's prefix up to the loop's `position` |
| Transfer.HeldNameReadsBack | lib/UserInterface/src/cardHandler.cpp:336-392 | a card whose visited blocks hold the frames of a NUL-free filename is read back as exactly that filename |
| Transfer.WrongVersionSkipsName | lib/UserInterface/src/cardHandler.cpp:290-406 | a header with the right cookie and another version is rejected with no metadata copied and no block read beyond the header |
| Transfer.StartCursorAddress | lib/UserInterface/src/cardHandler.cpp:524-545 | the write cursor starts on the region's first block, inside its sector |
| Transfer.HeaderWritePlanWrites | lib/UserInterface/src/cardHandler.cpp:571-596 | the header loop writes consecutive blocks from the information block on, block `k` receiving the `k`-th slice of the structure |
| Transfer.HeaderBlocksCover | lib/UserInterface/src/cardHandler.cpp:561-565 | the header blocks cover the information block with less than one block to spare |
| Transfer.NameWritePlanWrites | lib/UserInterface/src/cardHandler.cpp:642-691 | the filename loop writes one frame per block, in cursor order |
| Transfer.HeaderFrame | lib/UserInterface/src/cardHandler.cpp:574 | the 16 bytes written from the 18-byte buffer hold the next `blockSize` bytes of the structure, then zeros |
| Transfer.NameFrame | lib/UserInterface/src/cardHandler.cpp:664-667 | the 16 bytes written from the 18-byte buffer are zero past `blockSize` |
| Transfer.NameFrameString | lib/UserInterface/src/cardHandler.cpp:664-667 | the text in a filename frame, up to its first NUL, is the filename window up to its first NUL |
| Transfer.NameFrameContents | lib/UserInterface/src/cardHandler.cpp:664-667 | for a filename without NULs, frame `k` holds the `k`-th block-sized slice, zero-padded |
| Transfer.NameBlocksCoverTerminator | lib/UserInterface/src/cardHandler.cpp:632-637 | the filename blocks hold the filename and its terminating NUL, with less than one block to spare |
| Transfer.KeyBlockOfCursor | lib/UserInterface/src/cardHandler.cpp:654 | the block authenticated for a sector, `sector * 4 + 3`, is the key block of the cursor's address |
| Transfer.SectorChangeAt | lib/UserInterface/src/cardHandler.cpp:651-687 | the authenticated sector differs from the cursor's sector exactly at the first iteration (unless it is sector 0) and whenever the block count wraps to a sector's start |
| Transfer.NameWriteStepAuth | lib/UserInterface/src/cardHandler.cpp:644-676 | every filename iteration ends with the write of its frame; on Classic cards it authenticates first exactly when the sector changed, with that sector's key block |
| Transfer.NameWritePlanCount | lib/UserInterface/src/cardHandler.cpp:642-691 | each iteration of the filename loop writes exactly one block |
| Transfer.PlanWriteCount | lib/UserInterface/src/cardHandler.cpp:519-691 | the write path authenticates first and then writes one block per header block and one per filename block |
| Transfer.WritePlan | lib/UserInterface/src/cardHandler.cpp:519-691 | the plan opens with the authentication for the information block and writes exactly one block per header block and per filename block |
| Transfer.WriteCard | lib/UserInterface/src/cardHandler.cpp:432-704 | with the card gone or of an unsupported type nothing is issued; the writes that took effect are a prefix of the operations issued; on success both are the whole `WritePlan` |
| Transfer.WritePhases | lib/UserInterface/src/cardHandler.cpp:519-691 | the write runs authentication, header writes and filename writes in sequence, stopping at the first refusal, and memory reflects only the writes that completed |
| Transfer.WriteCardPhases | lib/UserInterface/src/cardHandler.cpp:432-704 | `WriteCard` succeeds exactly when all three phases succeed; its trace and memory effect follow the phase that failed |
| Transfer.HeaderWritesHold | lib/UserInterface/src/cardHandler.cpp:571-596 | after the header writes the card holds the header bytes in its information blocks |
| Transfer.NameWritesKeepHeader | lib/UserInterface/src/cardHandler.cpp:642-691 | filename writes past the information blocks do not disturb the stored header |
| Transfer.HeldHeaderDecodes | lib/UserInterface/src/cardHandler.cpp:259-290 | a card holding a header's bytes is read back as that header |
| Transfer.WrittenCardHoldsHeader | lib/UserInterface/src/cardHandler.cpp:432-704 | a successful write leaves the card holding the written header |
| Transfer.ReadBackHeader | lib/UserInterface/src/cardHandler.cpp:258-334 | reading a card that holds a version-1 header with the right cookie copies its volume and resumable flag, and rejects it as empty exactly when the length is 0 |
| Transfer.WrittenRecordReadsBack | lib/UserInterface/src/cardHandler.cpp:486-494 | after a successful write, a read returns the written volume and resumable flag, and reports an empty filename exactly when the length is a multiple of 256 |
| Transfer.NameWritesHoldName | lib/UserInterface/src/cardHandler.cpp:642-691 | with no trailer among the filename blocks and no 8-bit wrap, the filename loop leaves the block the read loop visits at step `k` holding frame `k` |
| Transfer.WrittenCardHoldsName | lib/UserInterface/src/cardHandler.cpp:432-704 | under the same layout, a successful write leaves the card holding the filename's frames where the read loop looks |
| Transfer.ReadBackName | lib/UserInterface/src/cardHandler.cpp:258-400 | a card holding a good version-1 header and the frames of a NUL-free filename of that length is accepted with that filename and the header's metadata |
| Transfer.WrittenNameReadsBack | lib/UserInterface/src/cardHandler.cpp:304-392 | after a successful write of a NUL-free filename of 1 to 255 bytes, with no trailer in its blocks, a read without refusals accepts the record with the written filename, volume and resumable flag |
| Transfer.TrailerWritten | lib/UserInterface/src/cardHandler.cpp:642-691 | a 50-byte filename written from block 4 of a Classic card puts its fourth frame into trailer block 7 (finding 1, as written) |
| Transfer.TrailerSkipped | lib/UserInterface/src/cardHandler.cpp:379-391 | the read of the same filename visits blocks 4, 5, 6, 8 and skips the trailer (finding 1) |
| Transfer.SkippingNameWritesMatchReads | lib/UserInterface/src/cardHandler.cpp:642-691 | filename writes that move their cursor like the read path put frame `k` in the block the read loop visits at step `k`, never in a trailer (finding 1, corrected) |
| Transfer.SkippingNameWritesHold | lib/UserInterface/src/cardHandler.cpp:642-691 | trailer-skipping filename writes leave each block the read loop visits holding its frame (finding 1, corrected) |
| Transfer.SkippingNameWritesReadBack | lib/UserInterface/src/cardHandler.cpp:642-691 | with trailer-skipping writes, a NUL-free filename reads back exactly, wherever the trailers lie (finding 1, corrected) |
| Card.ExecutedOutcome | lib/UserInterface/src/cardHandler.cpp:642-691 | the writes that took effect are a prefix of the operations issued, which are a prefix of the plan, and all three agree when nothing is refused |
| Card.FailIndexSpec | lib/UserInterface/src/cardHandler.cpp:642-691 | the first failing operation of a sequence is preceded only by operations that succeed |
| Card.ApplyWritesLast | lib/UserInterface/src/cardHandler.cpp:571-691 | a block holds the last frame written to it |
| Card.ApplyWritesUntouched | lib/UserInterface/src/cardHandler.cpp:571-691 | blocks no write touches keep their contents |
| Bytes.Uint32RoundTrip | lib/UserInterface/src/cardHandler.cpp:280-288 | the cookie's four bytes decode to the cookie |
| Bytes.Uint32BytesOf | lib/UserInterface/src/cardHandler.cpp:280-288 | any four bytes are the encoding of the word they decode to |

## Left out

- `connectCardReader` (lines 23-52), the default constructor's pin wiring (lines 4-11) and the destructor: these are hardware set-up. The reader is a constructor parameter, possibly null.
- The MFRC522 driver is not part of this model. `Reader` stands in for it:
  - REQA, WakeupA and serial reads answer from scripts;
  - authentications, reads and writes succeed unless the card's `Faults` refuse them;
  - a write stores the first native-size bytes of the frame.
- `PICC_GetType` is not modelled. The card type is a field of the reader.
- Logging (`ESP_LOG*`) is left out because it has no effect on the card or the record.
- The key preparation (six 0xFF bytes, lines 206-210 and 474-478) is left out: the model's authentications take no key.
- Handler.CardHandler.ReadCardInformation: `malloc` failure of the filename buffer (lines 304-310) is not modelled; allocation always succeeds. The buffer is a sequence, so the overrun of finding 2 shows up as a length rather than as memory corruption.
- `cardHandler.h` is not part of this model. The sizes, the magic cookie and the first blocks of each region are therefore `Config` parameters.
  - The header's byte layout is fixed by `Layout.Encode`: cookie little-endian, then version, volume, flag byte and length. The bytes of the structure after these fields are never set by the write path; they are the `junk` parameter below.
  - The filename length field is taken to be 8 bits wide.
- Uninitialised memory is modelled by parameters:
  - `residue` holds what the stack structure held before a read;
  - `junk` holds the bytes the header `memcpy` copies past the fields.
- `String(pFileName)` is modelled as the bytes up to the first NUL. No character encoding is modelled.
- Handler.CardHandler.ReadFileName: requires `len < 256`, which the 8-bit length field guarantees in the source.

## Findings

| source | as written | input that shows it | evidently intended | confidence | as-written member | corrected member |
|---|---|---|---|---|---|---|
| lib/UserInterface/src/cardHandler.cpp:642-691 | the filename write loop advances `operatingBlock` through all four blocks of a Classic sector, so it writes filename data over the sector trailer | a 50-byte filename on a Classic card with the filename region at block 4: the fourth frame goes to block 7, a trailer, while the read path reads block 8 | skip trailers exactly as the read loop does (lines 379-391), so each frame lands in the block the reader visits | medium, not executed | Transfer.TrailerWritten | Transfer.SkippingNameWritesReadBack |
| lib/UserInterface/src/cardHandler.cpp:304-377 | every iteration `strncat`s a full chunk (`cardBlockSize`, 16 on Classic) into a buffer of `FileNameLength + 1` bytes | a 20-byte filename on a Classic card with no NUL in its blocks: two iterations append 32 bytes | copy only the `FileNameLength - position` bytes still missing in the last iteration | high, not executed | Transfer.ReadNameOverrun | Transfer.ClippedNameFits |
| lib/UserInterface/src/cardHandler.cpp:494-501 | the length is stored in the header field first and then compared against 256 | a 300-byte filename: the stored length is 44 and the guard passes, so the card records a 44-byte filename | reject filenames longer than 255 bytes before storing the length | low, not executed (the field's width is in a header that is not part of this model) | Layout.NameLimitNeverRejects | Layout.NameFitsKeepsLength |

The handler methods keep the behaviour as written, because they model the
code. The corrected definitions stand beside them with their properties
proved.
