# Filling-station controller: a verified model

The system drives fuel dispensers and tank gauges over serial and network links, keeps
sales and stock on a station service and brings them to a backend. This project models
the parts where a small slip loses a frame, a sale or a stock record, and proves what
they guarantee: for all byte streams and all cuttings of them, for all configurations
that pass validation, and for all runs with losses, repetitions and crashes.

`dafny verify dfyconfig.toml` checks everything.

## The parts

**Dispenser protocols.** Four hand-written serial codecs.
- `Wire` bytes and nibbles; `Crc` the two 16-bit codes as bit-serial division, and burst
  detection for both.
- `WayneCrc`, `WayneAccumulator`, `WayneParser`, `WayneMeter`, `WayneReports`: the
  table-driven CRC, the stateful framer, the frame parser, the metered volume and amount,
  and that every report of a pump is read as what it says.
- `WayneFrames`, `WayneEcho`: every frame the PC itself transmits, and why its own echo is
  never taken for a pump.
- `Azt`, `AztStream`, `AztResync`, `AztOverflow`, `AztTruncation`, `AztCorruption`:
  complement pairs and an XOR checksum, popped out of a shared buffer that resynchronises.
- `Shelf`: CRC-CCITT frames. `Bcd`, `BlueSky`: decimal numbers under a 7-bit XOR.
- `KnownFrames`: frames of all four that the source and its tests spell out byte by byte.

**Durable delivery.** `SyncQueue` is the station's retry queue, `SyncService` and
`StockSync` the backend's processing of a batch, `CatalogConvergence` what catalogs do to
the stock, and `SyncDelivery` both sides as one step system: requests and answers are lost,
repeated or late, several deliveries run inside the backend at once, and either side
stops anywhere; `SyncSafety` says what holds over all its runs. `Outbox` and `OutboxRuns`
do the same for the totals sent to an external target.

**Tank gauges.** `GaugeConfig` is configuration and its validation, `GaugeIds` the
freezing of older tank identities on loading, `Modbus` the batched
register reads down to the reply bytes, `GaugeRound` one polling round, `GaugeTotals` the
all-or-nothing totals, and `GaugeExport` what a validated station sends and whether the
backend takes it.

**Others.** `ShiftTotals` compares the service's running totals with the desktop's;
`Base64Url` is the token segment decoder.

## Shape

Code that works step by step is a method or class here: the framer's and the receive
buffer's fields, the queue and outbox tables, the transaction on the stock rows, the
level map, the table and buffer loops. Each such method is proved equal to a function of
its inputs or of the old state; the properties are lemmas about that function. Concurrent
behaviour is a step system whose theorems quantify over all runs.

## What the code does not guarantee

Some expectations fail for particular inputs; each has the exact condition, or a lemma
with such an input, or both.
- SHELF sends its CRC low byte first, so one change of the last message byte (0x89)
  together with one of the first CRC byte (0xA1) is not detected (`AdjacentBytesCorruption`).
- The Wayne overflow rule makes the framer depend on how the line is read
  (`OverflowDependsOnCuts`), exactly when it discards an address byte
  (`CuttingHarmlessIff`); and a built frame arrives whole only if its payload and CRC hide
  no terminator (`BuiltFrameWhole`).
- Digits of a Wayne fill report can be taken for a hose status (`AmountReadsAsHose`,
  exactly when: `HoseFromTailIff`), and a damaged nibble for an exponent, so that a field
  that is no number reads as a volume (`ExponentReadsAsVolume`, exactly when:
  `DamagedFieldIff`).
- A repeated Wayne configuration can hold the two bytes that mark the meter block, and the
  volume is then read off the wrong bytes (`EchoReadsAsMeter`); every other report is read
  as it was sent (`ReportIsRead`).
- An AZT request survives only with an address in 1..225 and no ETX in command and data
  (`RequestRoundTrip`); the 300-byte bound counts noise (`NoiseBudget`) and can drop a
  frame that is still arriving (exactly when: `OverflowCostsIff`); a frame without a
  command delays the requests behind it in the same read (`CommandlessDelays`, exactly
  when: `AllDeliveredIff`).
- The AZT answer decoder rescans behind a damaged frame: one changed byte can make an
  acknowledgement of it (`ScanningCorruption`) or other data
  (`CorruptedFrameReadsAsOtherData`), exactly when: `AcceptedCorruptions`.
- The BlueSky check byte misses a flipped top bit (`BlueSky.SingleByteCorruption`).
- A product name of blanks passes the station's validation, and so does a tank id or label
  of byte order marks, which only the backend trims (`TextsPartIff`); the backend then
  refuses every catalog of that station that is not older than the one it has
  (`BlankNameRefused`, exactly when: `CatalogAcceptedIff`), and for such an id its readings
  too (`ReadingsAccepted`).
- Validation compares the first registers of slots only, so two slots on one wire can share
  registers (`OverlapIsValid`, exactly when: `ShareRegisterIff`).
- A stop between an accepted post and the deletion of its row leaves the row to be posted
  again (`StopDuplicates`, exactly when: `AcceptedRowStaysIff`); only that or inserting the
  same totals anew can repeat a post (`DuplicatesNeedAStop`).
- The desktop adds amounts as JavaScript numbers. They are exact up to 2^53; beyond that
  its shift total can part from the service's (exactly when: `SidesAgreeIff`) and from the
  sum of its own position lines (`DesktopStopsAdding`, exactly when: `PositionsAddUpIff`).
  The service is exact up to 2^64 - 1, where it stops counting.
- A Wayne address byte with bit 7 set is trimmed in front of a plain address, so that frame
  can be read differently from one without it (`HighBitReadsOtherFrame`, exactly when:
  `HighBitTransparent`).
- An answered batch of which no verdict is written changes no row and spends no retry, so
  the station sends it again (`AnsweredBatchSpends`).
- A catalog with a tank list and a valid stamp older than the stored one is acknowledged
  without a look at its entries, however malformed (`CatalogStep`).

## Model

| member | source | states |
|---|---|---|
| `Crc.CrcIsBitSerial` | crates/shelf-v22/src/codec.rs:7-20 | The bytewise register update is the bit-serial polynomial division of the whole message in transmission order, for both codes and every start value |
| `Crc.BurstDetected` | crates/wayne-europump/src/crc.rs:25-32 | Changing anything inside sixteen consecutive bits of a message, at any bit offset, changes its CRC, for both codes |
| `Crc.ByteWindowDetected` | crates/wayne-europump/src/crc.rs:25-32 | Two messages of equal length that differ only inside two adjacent bytes never share a CRC |
| `WayneCrc.TableValue` | crates/wayne-europump/src/crc.rs:1-22 | The branching inner loop computes the register effect of one byte, eight clocks of the 0xA001 division |
| `WayneCrc.BuildCrcTable` | crates/wayne-europump/src/crc.rs:1-22 | All 256 entries are that effect |
| `WayneCrc.TableStep` | crates/wayne-europump/src/crc.rs:27-30 | One table look-up and shift does what eight single-bit clocks do |
| `WayneCrc.CrcFast` | crates/wayne-europump/src/crc.rs:25-32 | The table-driven loop refines the bit-at-a-time CRC on every input |
| `WayneCrc.Residue` | crates/wayne-europump/src/crc.rs:34-42 | The CRC of any data followed by its own low and high CRC byte is zero |
| `WayneAccumulator.FrameAccumulator.PushBytes` | crates/wayne-europump/src/parser.rs:396-420 | Emits exactly the drained frames of buffer plus chunk and keeps the drained rest, cleared when longer than 64 bytes |
| `WayneAccumulator.FrameAccumulator.TrimLeadingGarbage` | crates/wayne-europump/src/parser.rs:422-444 | The buffer becomes its trimmed form: noise before the first address and a turnaround artefact gone |
| `WayneAccumulator.DrainInTwo` | crates/wayne-europump/src/parser.rs:396-420 | Draining a stream at once, or a first part and then the rest, gives the same addressed frames and the same leftover |
| `WayneAccumulator.PushAllIsDrain` | crates/wayne-europump/src/parser.rs:396-420 | Any cutting into reads is one drain of the whole stream as long as the overflow rule never fires |
| `WayneAccumulator.ClearLoses` | crates/wayne-europump/src/parser.rs:415-418 | Discarding a frame that is still arriving always costs bytes, whatever follows |
| `WayneAccumulator.CuttingHarmlessIff` | crates/wayne-europump/src/parser.rs:384-458 | A cutting delivers the addressed frames of the whole stream and keeps its leftover from the first address byte on if and only if every overflow along it discards a buffer without an address byte |
| `WayneAccumulator.ChunkIndependence` | crates/wayne-europump/src/parser.rs:396-458 | Two cuttings of one stream deliver the same addressed frames and keep the same bytes from the first address on, unless an overflow discards an address byte; without overflow the leftovers are equal |
| `WayneAccumulator.EmittedShape` | crates/wayne-europump/src/parser.rs:396-458 | Every emitted frame starts with an address byte or contains none at all |
| `WayneAccumulator.FramesRecovered` | crates/wayne-europump/src/parser.rs:384-458 | Frames from addresses with or without bit 7 that hide no terminator, with noise between them, come out whole, in order and alone if and only if no overflow on the way discards an address byte |
| `WayneAccumulator.OverflowDependsOnCuts` | crates/wayne-europump/src/parser.rs:415-418 | A concrete stream whose frame survives one read and is lost in two |
| `WayneAccumulator.EmittedIsCut` | crates/wayne-europump/src/parser.rs:396-458 | Every emitted frame is one short frame from a known address or ends at its first 03 FA |
| `WayneParser.ScanEmbeddedHoseStatus` | crates/wayne-europump/src/parser.rs:167-192 | Returns the last embedded hose block of the body, or none |
| `WayneParser.GarbageFramesMeanNothing` | crates/wayne-europump/src/parser.rs:230-379 | An emitted frame without an address byte parses to an unknown frame with no bytes |
| `WayneParser.HighBitTransparent` | crates/wayne-europump/src/parser.rs:62-88 | Setting bit 7 of the address of a verified frame leaves its reading the same if and only if the next byte is no plain address or what starts there parses to nothing known |
| `WayneMeter.MeterRoundTrip` | crates/wayne-europump/src/parser.rs:11-19 | Every volume and amount of up to eight digits is decoded exactly from its BCD bytes |
| `WayneMeter.DamagedFieldIff` | crates/wayne-europump/src/parser.rs:11-19 | A field with a nibble above nine is never an amount, and a volume other than zero if and only if one nibble alone is above nine, is an E, is neither first nor last, and a digit in front of it is not zero; then digits and exponent are named |
| `WayneMeter.ExponentReadsAsVolume` | crates/wayne-europump/src/parser.rs:11-14 | Such a field: four bytes that are no amount read as a volume of one litre |
| `WayneMeter.HighBitReadsOtherFrame` | crates/wayne-europump/src/parser.rs:62-88 | Verified frames, for every address and report, that read as a fill report with bit 7 of the address set and as nothing known without |
| `WayneMeter.FillIsRead` | crates/wayne-europump/src/parser.rs:134-379 | The parsed frame of a pump's fill report carries exactly the volume and amount sent, its address and sequence, and completes the sale only on a done tail |
| `WayneMeter.HoseFromTailIff` | crates/wayne-europump/src/parser.rs:167-192 | The tail alone decides the reported hose if and only if it names one or no run of the digits looks like a hose status |
| `WayneMeter.AmountReadsAsHose` | crates/wayne-europump/src/parser.rs:114-132 | A concrete finished sale of 3 040 150 whose digits are taken for a hose status |
| `WayneReports.ShortFramesAre` | crates/wayne-europump/src/parser.rs:208-247 | Exactly what every three-byte frame is read as, for every first byte and code: polls, idles and acknowledgements of addresses 0x50 to 0x6F with or without bit 7, and nothing else |
| `WayneReports.ReportIsRead` | crates/wayne-europump/src/parser.rs:230-379 | Every hose status of three layouts, state report and meter report of three layouts, from every known address and sequence, is read as itself with its own bytes, the same with bit 7 of the address set, and counts as the answer of that pump alone |
| `WayneReports.SuffixedHoseIsRead` | crates/wayne-europump/src/parser.rs:195-213 | A hose status with a status byte its CRC does not cover is read the same |
| `WayneReports.VerifiesIff` | crates/wayne-europump/src/parser.rs:74-213 | A frame passes its check if and only if all before its last four bytes, or all but one byte of that, leaves no CRC remainder together with the check bytes, its address taken as it is or without bit 7 |
| `WayneReports.UnverifiedOnlyShows` | crates/wayne-europump/src/parser.rs:252-285 | A frame that fails the check never completes a sale and shows something only if it carries a meter block |
| `WayneReports.EchoReadsAsMeter` | crates/wayne-europump/src/parser.rs:91-111 | A repeated configuration whose bytes hold 02 08 before the meter block has its volume read off the wrong bytes, and off which |
| `WayneReports.OnlyTerminatedIsKnown` | crates/wayne-europump/src/parser.rs:230-379 | Nothing is known of a frame that is neither short nor ends in 03 FA under a data sequence byte |
| `WayneFrames.AppendChannels` | crates/wayne-europump/src/builder.rs:119-121 | The loop appends the channel numbers 1..n in order |
| `WayneFrames.AppendProducts` | crates/wayne-europump/src/builder.rs:127-136 | The loop appends the three-byte price entry of every channel, the last one flagged |
| `WayneFrames.BuildConfig` | crates/wayne-europump/src/builder.rs:105-144 | The payload announces and numbers one to four channels, shows per channel the two leading digits of the last four of its price, else its product code, flags the last one, and ends with the preset and the authorisation |
| `WayneFrames.BuildPreAuthorise` | crates/wayne-europump/src/dart.rs:6-34 | Behind a header that announces their bytes go the first four prices, each written as three BCD bytes and capped at 9999, then the nozzle |
| `KnownFrames.StopTableIsComputed` | crates/wayne-europump/src/builder.rs:175-182 | The emergency stop frames kept as bytes are, for every address, the stop frames that would be built |
| `WayneEcho.EchoHarmless` | crates/wayne-europump/src/builder.rs:3-182 | Nothing the framer cuts out of any frame the PC can send counts as a dispenser response, for all prices, nozzles and preset bytes, even when payload or CRC bytes imitate a terminator |
| `WayneEcho.EchoSafety` | crates/wayne-europump/src/frame.rs:89-101 | The same for an echo split into reads in any way |
| `WayneEcho.EchoThenAnswers` | services/dispenser-service/src/engine/protocols/wayne.rs:478-500 | With the echo and the pump's answers on one accumulator, the echo's frames, all harmless, and then exactly the answers come out if and only if no overflow discards an address byte |
| `WayneEcho.BuiltFrameWhole` | crates/wayne-europump/src/crc.rs:34-42 | A built data frame comes out of the framer whole if and only if no 03 FA pair occurs in its payload or CRC |
| `Azt.BuildFrame` | crates/azt/src/codec.rs:104-126 | The loop produces lead-in, start byte, complement pairs, terminators and checksum of address, command and data |
| `Azt.ParseRequestBody` | crates/azt/src/codec.rs:217-257 | The loop parses the body exactly as the recursive grammar does |
| `Azt.ReceiveBuffer.PopRequest` | crates/azt/src/codec.rs:165-208 | Result and remaining buffer are those of the specified pop, including resynchronisation, overflow and frames without a command |
| `Azt.ReceiveBuffer.PopAll` | crates/azt/src/codec.rs:165-208 | The caller's loop yields the popped requests in order and the buffer left when nothing more comes |
| `Azt.DecodeDataFrame` | crates/azt/src/codec.rs:282-307 | The response loop accepts exactly the bodies of the grammar |
| `Azt.ChecksumIsParity` | crates/azt/src/codec.rs:65-71 | Each bit of the checksum is the parity of that bit over the normal bytes and one ETX, only bit 6 is always set |
| `AztStream.ParsedIsEncoded` | crates/azt/src/codec.rs:217-257 | Whatever parses completely is exactly the encoding of the bytes returned, which hold no ETX |
| `AztStream.AddressRoundTrip` | crates/azt/src/codec.rs:42-83 | Every address the configuration admits is recovered from its start byte and address byte |
| `AztStream.RequestRoundTrip` | crates/azt/src/codec.rs:86-92 | A request comes back as sent if and only if its address is 1..225 and neither command nor data hold ETX |
| `AztResync.NothingLost` | crates/azt/src/codec.rs:165-208 | Whatever frames without a command occur, the requests delivered by the reads followed by those the buffer still has to serve are those of the whole stream, in order, as long as the 300-byte rule throws nothing away |
| `AztResync.ChunkIndependence` | crates/azt/src/codec.rs:165-208 | Two cuttings of one stream have the same requests delivered or still buffered, in order, and the same bytes left behind them, as long as the 300-byte rule throws nothing away |
| `AztResync.EnoughPasses` | crates/azt/src/codec.rs:165-208 | One pass of the popping loop more than there are frames without a command serves every request of the buffer |
| `AztResync.AllDeliveredIff` | crates/azt/src/codec.rs:165-208 | As long as the 300-byte rule throws nothing away, reads deliver every request of the stream if and only if no request stands behind a frame without a command in the buffer of the last read |
| `AztResync.CommandlessDelays` | crates/azt/src/codec.rs:177-192 | A bare address frame delays the whole request behind it in the same read until the next one, for every address and request, and not in a read of its own |
| `AztResync.StreamRoundTrip` | crates/azt/src/codec.rs:86-208 | Any list of admissible requests sent back to back and read in any pieces arrives complete, in order and unmixed, and leaves nothing buffered |
| `AztOverflow.InsideFrame` | crates/azt/src/codec.rs:210-257 | Whatever passes for a frame inside a whole frame ends where that frame ends and carries less |
| `AztOverflow.OverflowCostsIff` | crates/azt/src/codec.rs:165-208 | Reads deliver, or still hold whole in the buffer, exactly the requests of the stream if and only if the 300-byte rule drops no frame that the bytes still to come would have completed and that would have been answered |
| `AztOverflow.CuttingsAgree` | crates/azt/src/codec.rs:165-208 | Two cuttings of one stream that drop no such frame deliver or hold the same requests in order |
| `AztTruncation.Resynchronises` | crates/azt/src/codec.rs:165-248 | After noise, any line of truncated frames that ends in a whole one answers exactly the whole frames in order, and besides them only a frame lacking a checksum equal to the next lead-in byte |
| `AztTruncation.LineResynchronises` | crates/azt/src/codec.rs:165-248 | The same for a line on its own: no request ever mixes bytes of two frames |
| `AztTruncation.NoiseBudget` | crates/azt/src/codec.rs:193-201 | A frame read in two pieces behind noise survives if and only if noise and first piece together stay within 300 bytes |
| `AztCorruption.SingleByteCorruption` | crates/azt/src/codec.rs:282-307 | A single-byte change after STX is accepted exactly when it turns a data byte at a false end into ETX |
| `AztCorruption.AllCorruptionsRejected` | crates/azt/src/codec.rs:282-307 | The body decoder rejects all single-byte changes if and only if the data hold no false end, which printable data never do |
| `AztCorruption.ScanningCorruption` | crates/azt/src/codec.rs:265-307 | What the scanning decoder returns for every single-byte change of a printable frame: the control code as a short answer, the rest of the data behind a false start with a fitting checksum, and nothing otherwise |
| `AztCorruption.AcceptedCorruptions` | crates/azt/src/codec.rs:265-307 | A single-byte change of a printable frame is accepted if and only if the new byte is ACK, NAK or CAN, or is STX in place of a complement byte behind which the data have the checksum of the whole |
| `AztCorruption.CorruptedFrameReadsAsOtherData` | crates/azt/src/codec.rs:265-307 | A concrete changed byte turns the data 001 into the data 1 |
| `Shelf.ComputeCrc` | crates/shelf-v22/src/codec.rs:7-20 | The nested loop computes CRC-CCITT from the bit clock shared with the other code |
| `Shelf.DecodeIffBuilt` | crates/shelf-v22/src/codec.rs:22-61 | A frame is accepted, with the given fields, if and only if the builder makes exactly it from them |
| `Shelf.TakeAfterNoise` | crates/shelf-v22/src/codec.rs:64-83 | A built frame behind any noise without a start byte is cut out whole, whatever follows |
| `Shelf.AdjacentBytesCorruption` | crates/shelf-v22/src/codec.rs:41-61 | A change confined to two adjacent bytes is accepted exactly when it flips 0x89 in the last message byte and 0xA1 in the first CRC byte; every other one is rejected |
| `Bcd.Encode` | crates/texnouz-bluesky/src/codec.rs:170-181 | Filling in place from the back yields the value's digit pairs, and nothing exactly when the value has more digits than the field |
| `Bcd.Decode` | crates/texnouz-bluesky/src/codec.rs:185-196 | The checked loop returns the number the digits write, and nothing exactly for a nibble above nine or a number beyond 64 bits |
| `Bcd.BcdBijection` | crates/texnouz-bluesky/src/codec.rs:170-196 | A digit string decodes to a number if and only if it is that number's encoding in its width |
| `BlueSky.TakeFrame` | crates/texnouz-bluesky/src/codec.rs:142-164 | The scanning loop finds the first whole frame of the specification |
| `BlueSky.DecodeIffBuilt` | crates/texnouz-bluesky/src/codec.rs:37-137 | A reply is accepted with a command and data if and only if the builder makes exactly that frame from them |
| `BlueSky.TakeAfterNoise` | crates/texnouz-bluesky/src/codec.rs:142-164 | A built frame behind noise without a precode is cut out whole, whatever follows |
| `BlueSky.SingleByteCorruption` | crates/texnouz-bluesky/src/codec.rs:108-137 | A single-byte change goes unnoticed exactly when it flips only the top bit of a data byte or of the command |
| `BlueSky.PriceRecovered` | crates/texnouz-bluesky/src/commands.rs:98-103 | A price is sent exactly when it is at most 99999 and is then recovered exactly behind any such noise |
| `BlueSky.DosesRecovered` | crates/texnouz-bluesky/src/commands.rs:106-121 | The same for doses by amount and by volume up to 99999999, under their own commands |
| `BlueSky.FillIsExact` | crates/texnouz-bluesky/src/parser.rs:19-27 | A fill report reads as two numbers exactly when it is their two four-byte encodings |
| `BlueSky.CheckByteIsParity` | crates/texnouz-bluesky/src/codec.rs:29-31 | Each of the low seven bits of the check byte is the parity of that bit over the bytes covered, and the top bit is clear |
| `SyncQueue.StationQueue.EnqueueOn` | services/dispenser-service/src/sync.rs:96-124 | A known id becomes pending again in place, a new one is appended |
| `SyncQueue.StationQueue.WriteVerdicts` | services/dispenser-service/src/sync.rs:475-502 | After the verdict loop every written accepted row is synced now with its retries kept, every other written row has one more retry and the right error, and no other row changed |
| `SyncQueue.StationQueue.ReviveNoVerdict` | services/dispenser-service/src/sync.rs:527-537 | Exactly the unsynced rows last written without a verdict have no retries used, and nothing else changed |
| `SyncQueue.EnqueueIds` | services/dispenser-service/src/sync.rs:96-124 | Neither way of enqueueing removes or reorders a record, and a known one is not duplicated |
| `SyncQueue.AnsweredBatchSpends` | services/dispenser-service/src/sync.rs:475-502 | An answered batch lowers the retries left if and only if a verdict of it is written, and changes no row otherwise |
| `SyncQueue.QueueTerminates` | services/dispenser-service/src/sync.rs:415-505 | Over any run without new records, answered batches with a written verdict are at most the retries left at the start, and no row is ever removed |
| `SyncQueue.SettlesAfterEnoughBatches` | services/dispenser-service/src/sync.rs:415-505 | After that many such batches the next one is empty and every row is synced or out of retries |
| `SyncQueue.EnqueuedIsPending` | services/dispenser-service/src/sync.rs:96-124 | An enqueued record is pending with all its retries and no error, every other row is untouched, and the gauge side enqueues only unknown records |
| `SyncQueue.SyncedStaysOut` | services/dispenser-service/src/sync.rs:96-537 | A synced record is in no later batch, whatever batches, additions and restarts happen, until it is enqueued again |
| `SyncQueue.AcceptedIsSynced` | services/dispenser-service/src/sync.rs:475-502 | So is every record whose acceptance was written |
| `SyncService.Backend.ProcessBatch` | apps/backend/src/sync/sync.service.ts:24-77 | The batch loop leaves the specified tables and the two verdict lists |
| `SyncService.Backend.ProcessRecord` | apps/backend/src/sync/sync.service.ts:28-67 | One record's look-up, transaction or handler gives the specified verdict, and a rejection leaves the tables untouched |
| `SyncService.EveryRecordAnswered` | apps/backend/src/sync/sync.service.ts:24-77 | Accepted and rejected together are the batch as a multiset |
| `SyncService.ResendChangesNothing` | apps/backend/src/sync/sync.service.ts:30-60 | Records accepted once, sent again after any other batches, change nothing and are accepted again unless the database refuses |
| `StockSync.Transaction.StoreTankCatalog` | apps/backend/src/sync/stock-sync.ts:34-54 | The upsert loop and the retirement leave the specified rows; failure exactly when the specification refuses |
| `StockSync.ReadingIsIdempotent` | apps/backend/src/sync/stock-sync.ts:56-88 | A reading is stored with the values it carries, stored again changes nothing, and no reading touches those of another tank or moment |
| `StockSync.ReadingNamesProduct` | apps/backend/src/sync/stock-sync.ts:56-83 | The stored row names the reading's own product and product name, else the tank's; a known tank is never changed and an unknown one becomes an unmanaged placeholder of that product |
| `StockSync.ReadingAcceptedIff` | apps/backend/src/sync/stock-sync.ts:56-83 | A reading is refused exactly when its tank or moment is missing, a value is missing or negative where it may not be, or it names no product |
| `CatalogConvergence.UpsertSucceeds` | apps/backend/src/sync/stock-sync.ts:39-50 | The loop throws unless every entry is well-formed and no tank id repeats |
| `CatalogConvergence.CatalogStep` | apps/backend/src/sync/stock-sync.ts:34-54 | A catalog that takes over leaves each of its tanks with its own title, product, capacity, monitoring, staleness and stamp, switches off every other managed tank and touches nothing else; it is refused exactly for a missing tank list, a bad stamp, or a malformed entry when it is not older than the stored stamp, and ignored when older |
| `CatalogConvergence.ReplayMirrors` | apps/backend/src/sync/stock-sync.ts:34-86 | Every managed row stays dated no later than the station's stamp and the active managed rows are the newest catalog's, over all runs |
| `CatalogConvergence.ActiveTanksMirrorNewest` | apps/backend/src/sync/stock-sync.ts:34-86 | After any arrivals the active managed tanks are those of a greatest well-formed catalog seen, each field of each row being the entry's own, and no other |
| `CatalogConvergence.Converges` | apps/backend/src/sync/stock-sync.ts:34-86 | Two histories that saw the same well-formed catalogs with distinct stamps, in any order and repetition and mixed with anything, show the same tanks |
| `CatalogConvergence.CatalogApplies` | apps/backend/src/sync/stock-sync.ts:34-54 | On any stock, an accepted catalog not older than the stored stamp gives each of its tanks its own row, switches off the other managed ones, and leaves every row dated after it alone |
| `SyncDelivery.InvStep` | services/dispenser-service/src/sync.rs:415-505 | Every step of station and backend, with concurrent deliveries, losses, repetitions and stops, keeps the invariant |
| `SyncDelivery.AloneIsBatch` | apps/backend/src/sync/sync.service.ts:24-77 | The steps of a delivery that nothing comes between leave the tables and the accepted and rejected records of the batch loop, so the step system refines it |
| `SyncDelivery.WritesAreVerdicts` | services/dispenser-service/src/sync.rs:475-502 | The station's write steps leave the rows of the verdict loop, whichever writes succeed |
| `SyncSafety.SyncedIsProcessed` | services/dispenser-service/src/sync.rs:478-505 | In every reachable state a row is marked synced only if the backend holds its processed mark for this station |
| `SyncSafety.StoredAtMostOnce` | apps/backend/src/sync/sync.service.ts:39-56 | Two steps of a run that change the stock work on different records, however often each was delivered |
| `SyncSafety.StockIsItsLog` | apps/backend/src/sync/sync.service.ts:39-56 | The stock is what the stored records, once each and in order, make of an empty one |
| `SyncSafety.NewestSyncedCatalogRules` | apps/backend/src/sync/stock-sync.ts:34-54 | Once the newest catalog the station ever enqueued is marked synced, the backend's active tanks are exactly that catalog's |
| `Outbox.Table.Persist` | crates/atg/src/outbox.rs:35-61 | One transaction queues every new reading and inserts every payload not yet present, or changes nothing |
| `Outbox.Table.DeliverOnce` | crates/atg/src/outbox.rs:77-97 | The oldest row for the target is posted if and only if it is due; acceptance removes it alone and keeps the order; a refusal changes it alone, by one attempt and a wait of 2 s doubled per earlier attempt up to 256 s and 300 s from the eighth on |
| `Outbox.HeadIsOldest` | crates/atg/src/outbox.rs:78-80 | No row for the target comes before the selected one |
| `Outbox.DelayBounds` | crates/atg/src/outbox.rs:90 | The delay stays within 2000..300000 ms and never shrinks with attempts |
| `Outbox.RetryAddsNothing` | crates/atg/src/outbox.rs:35-61 | Persisting a pending batch again adds nothing |
| `Outbox.ReadingsQueuedOnce` | crates/atg/src/outbox.rs:9-60 | Every reading of a persisted round is queued, what was queued stays, and a retried transaction queues nothing twice |
| `Outbox.InsertedStay` | crates/atg/src/outbox.rs:46-58 | After an insertion every payload has its row, what was there stays in place, and a new row is unattempted, due at once and of one of the payloads |
| `OutboxRuns.NeverLost` | crates/atg/src/outbox.rs:77-97 | Over all runs a row leaves the outbox only in a step that settles an accepted post of that row |
| `OutboxRuns.EveryTotalArrives` | crates/atg/src/outbox.rs:35-97 | Every persisted total is still there, or was delivered after it was persisted |
| `OutboxRuns.PostsInOrder` | crates/atg/src/outbox.rs:78-86 | When a row is posted, everything for its target that was ever in the outbox and comes before it has been delivered |
| `OutboxRuns.AcceptedRowStaysIff` | crates/atg/src/outbox.rs:86-94 | Until a later post of it is settled as accepted, and unless the same totals are inserted anew, an accepted row is still in the outbox if and only if the station stopped between the answer and the deletion |
| `OutboxRuns.DuplicatesNeedAStop` | crates/atg/src/outbox.rs:86-94 | An accepted row is posted again only if the station stopped between that answer and the deletion, or the same totals were inserted anew after the row had gone |
| `OutboxRuns.StopDuplicates` | crates/atg/src/outbox.rs:86-87 | A concrete run: a stop after an accepted post makes the same total be posted and accepted twice |
| `GaugeConfig.ValidateTanks` | crates/config/src/lib.rs:888-939 | The loops accept exactly the tank lists with distinct ids and sources, sound fields and explicit ids wherever a product has several tanks |
| `GaugeConfig.CheckSources` | crates/config/src/lib.rs:920-936 | The nozzle loop accepts exactly sources of the right product that no tank used before |
| `GaugeConfig.ValidateSlot` | crates/config/src/lib.rs:989-1106 | The checks of one slot pass exactly when it is sound and its number, probe, group unit, tank id and tank clash with no earlier slot, and then the sets are extended by it |
| `GaugeConfig.ValidateSlots` | crates/config/src/lib.rs:986-1106 | The slot loop accepts a controller exactly when all its slots fit each other and those before |
| `GaugeConfig.ValidateGauges` | crates/config/src/lib.rs:941-1110 | The whole validation accepts exactly the configurations whose controllers and slots are sound and pairwise compatible |
| `GaugeConfig.TankForIsExact` | crates/config/src/lib.rs:676-696 | With valid tanks the look-up answers exactly the tank that carries the slot's id, or the product's only tank when either side names no id |
| `GaugeConfig.SlotsDoNotCollide` | crates/config/src/lib.rs:1004-1058 | In a valid configuration two slots never map to the same tank and never start at the same register of one controller |
| `GaugeConfig.ShareRegisterIff` | crates/config/src/lib.rs:1004-1012 | In a valid configuration two slots on one host, port and unit share a register if and only if their first registers lie less than twelve apart |
| `GaugeConfig.AlignedShareNothing` | crates/config/src/lib.rs:1004-1012 | No two slots share a register when the windows on one wire start at registers that agree modulo twelve |
| `GaugeConfig.OverlapIsValid` | crates/config/src/lib.rs:1004-1012 | A concrete valid configuration in which two slots read the same six registers |
| `GaugeIds.FreezeTanks` | crates/config/src/lib.rs:635-655 | The in-place loop names every unnamed tank as specified, and fails exactly when several slots could name one |
| `GaugeIds.TakesSlotName` | crates/config/src/lib.rs:638-653 | An unnamed tank takes the id of the slot that was meant for it, or its label, unless that is blank, else its product number |
| `GaugeIds.FreezingKeepsMeaning` | crates/config/src/lib.rs:634-674 | If the frozen tanks are valid, every slot is for the same tank before and after freezing, and freezing again changes nothing |
| `GaugeIds.FreezeFailsIff` | crates/config/src/lib.rs:635-655 | Freezing the tanks fails if and only if several slots measure the product of an unnamed tank |
| `GaugeIds.SlotFreezesIff` | crates/config/src/lib.rs:656-674 | An unnamed slot fails if and only if several tanks hold its product, else takes the id of the only one, or a name of its own without one |
| `Modbus.ReadWindow` | crates/atg/src/modbus.rs:94-112 | An invalid window is refused without a request; otherwise the planned requests go out in order and the result is what their replies carry |
| `Modbus.ReadBatches` | crates/atg/src/modbus.rs:114-136 | The batch loop, in 16-bit arithmetic that never overflows, sends a prefix of the plan and reads exactly its replies |
| `Modbus.PlanCoversOnce` | crates/atg/src/modbus.rs:121-134 | Each register of the window lies in exactly one request, in order, each request of at most 125 registers, a multiple of 12 and numbered from 1 |
| `Modbus.SlotInOneRequest` | crates/atg/src/modbus.rs:125-126 | The twelve registers of a slot come from one request |
| `Modbus.RepliesAreExact` | crates/atg/src/modbus.rs:8-51 | The client accepts exactly the reply frames with its transaction, unit and register count, and consumes nothing past them |
| `Modbus.WindowIsRead` | crates/atg/src/modbus.rs:114-136 | From a device that answers each request from its registers, the window arrives whole and in order |
| `Modbus.SlotReadsItsRegisters` | crates/atg/src/lib.rs:18-29 | A validated slot fails exactly on a bad value of its own twelve registers and otherwise returns those values, whatever the rest of the window holds |
| `Modbus.FloatIsIeee` | crates/atg/src/modbus.rs:50-67 | Four register bytes decode to the single-precision number of section 3.4 of IEEE 754, subnormals included, and to no number exactly for an all-ones exponent |
| `GaugeRound.LevelMap.PollRound` | crates/atg/src/lib.rs:194-267 | The nested loops leave the specified level map and hand on samples and windows, or nothing when the configuration changed on the way |
| `GaugeRound.RoundShowsEachSlot` | crates/atg/src/lib.rs:194-267 | In a valid configuration every tank of a polled slot ends a round, broken off or not, showing the fifth, third and sixth number of that slot's reading, or its own earlier level (first its configured volume at time 0) marked with the error, and every other tank is unchanged |
| `GaugeRound.SamplesAreDistinct` | crates/atg/src/lib.rs:214-240 | A round samples each tank at most once, every sample carries one slot's six numbers with the heights in millimetres and the volume as a percentage of the capacity, and every complete reading of a slot with a tank is sampled |
| `GaugeRound.TankShowsItsRegisters` | crates/atg/src/lib.rs:214-236 | In a valid configuration a tank ends a round showing volume, temperature and water decoded from its own slot's registers, and an error exactly when one of the slot's six values is bad |
| `GaugeTotals.SumMaxima` | crates/atg/src/integration.rs:77-85 | The accumulated map holds, per key, the sum over the slots that have it |
| `GaugeTotals.ApplyPercentages` | crates/atg/src/integration.rs:88-104 | Adds the percentage of every positive denominator with a value, and the maximum, and nothing else |
| `GaugeTotals.BuildRound` | crates/atg/src/integration.rs:108-162 | The grouping loops and the filter publish exactly the specified totals |
| `GaugeTotals.PublishedIffComplete` | crates/atg/src/integration.rs:108-162 | A total is published if and only if some slot feeds it (same fuel, same external station or controller) and every such slot on every controller has a valid reading |
| `GaugeTotals.TotalsAreExact` | crates/atg/src/integration.rs:12-74 | Published volumes are the sums of the fourth, fifth and sixth number read for exactly those slots, heights the largest of the first and second, and the temperature the mean of the third weighted by the positive fifths, or the plain one; it lies between any bounds of theirs |
| `GaugeTotals.MaxIs` | crates/atg/src/integration.rs:49-51 | The folded maximum is an upper bound that some slot attains |
| `GaugeTotals.TemperatureBetween` | crates/atg/src/integration.rs:52-69 | The volume-weighted mean, or the plain one without weight, lies between the smallest and largest temperature |
| `GaugeTotals.PercentagesAreComplete` | crates/atg/src/integration.rs:88-162 | A percentage appears if and only if every slot of the group supplied its denominator (tank capacity, else slot capacity, for both volumes) and they sum to more than zero, and is then the published total, for a volume the sum of the readings, over that sum |
| `GaugeExport.CatalogAcceptedIff` | crates/atg/src/outbox.rs:25-34 | Whatever it has stored, the backend takes a validated station's catalog if and only if it is older than the stored one or id, label and product name of every tank are texts in the backend's sense |
| `GaugeExport.TextsPartIff` | crates/config/src/lib.rs:911-916 | A text passes the station's trim and not the backend's exactly when it is all blank to the backend and holds U+FEFF, and the other way round exactly when it is all blank to the station and holds U+0085 |
| `GaugeExport.BlankNameRefused` | crates/config/src/lib.rs:872-886 | Two concrete sites that pass validation and have every catalog refused that is not older than the stored one: a product named by a blank, a tank labelled by U+FEFF |
| `GaugeExport.ReadingsAccepted` | crates/atg/src/lib.rs:214-240 | Whatever it has stored, the backend takes a validated station's reading if and only if the tank's id is a text in its sense, and then stores volume, temperature, heights and product as the probe measured them, under that tank and time |
| `GaugeExport.BackendShowsSite` | crates/atg/src/outbox.rs:25-34 | After the catalog of a validated site is taken, each tank's row shows its label, capacity, product, product name, whether a gauge slot is for it and its staleness, unless dated later, and no other tank stays active unless dated later |
| `ShiftTotals.Coordinator.OnTransactionRecorded` | services/dispenser-service/src/shifts.rs:402-439 | The active shift gains exactly the transaction's worth, capped at the counters' widths |
| `ShiftTotals.Coordinator.CommitAztSale` | services/dispenser-service/src/shifts.rs:371-400 | Only finished sales whose database transaction commits are taken and credited by their own figures; otherwise the shift is untouched |
| `ShiftTotals.ApplyTx` | apps/desktop/src/store.ts:40-85 | The copied and edited shift is the specified one, position line included |
| `ShiftTotals.DesktopIsExact` | apps/desktop/src/store.ts:40-85 | Up to 2^53 the desktop's totals are the start plus what the shift's transactions are worth |
| `ShiftTotals.PositionIsExact` | apps/desktop/src/store.ts:54-75 | Up to 2^53 each position's line is its start plus what the shift's transactions at that position are worth |
| `ShiftTotals.AddsUpStepIff` | apps/desktop/src/store.ts:54-84 | Position totals that add up to the shift totals still do after one transaction if and only if rounding moves the shift total by as much as the line of the sale's position |
| `ShiftTotals.PositionsAddUpIff` | apps/desktop/src/store.ts:54-84 | Over any transactions the position totals add up to the shift totals at every moment if and only if they do at the start and every counted sale moves total and line by as much |
| `ShiftTotals.PositionsAddUp` | apps/desktop/src/store.ts:54-84 | In particular position totals keep summing to the shift totals up to 2^53 |
| `ShiftTotals.DesktopStopsAdding` | apps/desktop/src/store.ts:54-84 | At 2^53 a sale of one unit reaches its position's line on the desktop but not the shift total |
| `ShiftTotals.SidesAgreeIff` | services/dispenser-service/src/shifts.rs:371-439 | Given the same sales over the recording and the AZT path, service and desktop show equal totals after every sale if and only if no sale takes the true totals beyond the service's 32-bit count and 64-bit amount and each amount is added without rounding on the desktop |
| `ShiftTotals.SidesAgreeUpToExact` | services/dispenser-service/src/shifts.rs:371-439 | In particular they agree throughout while the count fits 32 bits and the amount does not exceed 2^53 |
| `ShiftTotals.ContinuedSaleCountsOnce` | crates/types/src/lib.rs:201-209 | A sale stopped and continued any number of times counts once and is worth its first leg plus each segment once |
| `ShiftTotals.OnlySalesCount` | crates/types/src/lib.rs:201-209 | An aborted sale and one of another shift leave both sides' totals alone, every other sale of the shift adds its worth, and the count is the number of completed and stopped ones |
| `ShiftTotals.JsNumberIsNearest` | apps/desktop/src/store.ts:54-84 | The desktop's number is the nearest multiple of the spacing, of two equally near ones the even multiple |
| `ShiftTotals.SpacingIs` | apps/desktop/src/store.ts:54-84 | That spacing is the power of two that leaves 53 binary digits, one below 2^53 |
| `Base64Url.Decode` | crates/atg/src/poster.rs:249-297 | The chunk loop returns exactly what the groups of four decode to, and nothing when one is malformed |
| `Base64Url.RoundTrip` | crates/atg/src/poster.rs:249-297 | Decoding the unpadded base64url encoding of any byte string returns that byte string |
| `Base64Url.DecodeFailsIff` | crates/atg/src/poster.rs:249-297 | A text is refused if and only if its length leaves one over a multiple of four or a character belongs to neither base64 alphabet |

## Left out

- Serial ports, sockets, HTTP, SQL text and the object mapper: bytes, sequences, maps and atomic steps stand for them; a failed or conflicting database call is a step that rejects.
- The poll engine, the sale state machines and shift start, end and handover: they depend on queries and modules outside the protocol and stock path.
- The seven-day purge of processed ids and the non-transactional price and health handlers: they are not part of the stock path, and a purge would end its at-most-once guarantee.
- Other writers of the stock rows, such as manual reservoir editing: only records from the station's queue change the modelled stock.
- Record ids: a deterministic hash of type, entity and payload is taken to be injective.
- A delivery or reconciliation whose JSON id is not a string: the look-up would use its printed form.
- IEEE rounding in sums, percentages and shift volumes: computed over `real`. Decoding a 32-bit float is modelled bit by bit, and the desktop's amounts and counts are rounded as JavaScript rounds them, without an upper end.
- The order of the published totals and of map iterations: results are maps.
- The choice of Wayne preset bytes from litres or money: the three bytes are a parameter and the echo results hold for all of them.
- Gilbarco and the AZT digit helpers: fixed-width digit loops that would repeat the decimal results.
- ValidateGauges: the URL and login checks of the gauge configuration are one flag that says whether they pass.
- SidesAgreeIff: takes every sale to reach both sides; a totals update that fails in the service's database is only logged there, and that sale is then credited on the desktop alone.
- NothingLost: assumes that the 300-byte rule throws nothing away; what that rule costs is stated exactly by `OverflowCostsIff`.
- AllDeliveredIff: assumes the same.
- AztResync.ChunkIndependence: assumes the same on both cuttings; `CuttingsAgree` covers the others.
- The display status of tank snapshots.
- FreezingKeepsMeaning: says nothing when the frozen tanks fail validation, because the configuration is then refused.
- The configuration checks of fueling positions other than the AZT address range.
- Reports, exports, webhooks, messaging, authentication, user interfaces and the simulator.
