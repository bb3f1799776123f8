# Homescope: a verified model

Homescope is a fleet of battery sensors that broadcast encrypted packets, a
receiver dongle that forwards what it hears over USB, a gateway that publishes
it, and an API that opens it. This project models the parts whose correctness
is not visible in any single function, in Dafny 4.11, and proves what they
promise. `dafny verify dfyconfig.toml` checks everything.

## What is modelled

**The life of a sensor's nonces** (`SeqCounter`, `SensorRuns`, `TornWrites`,
`LogLayout`, `UicrRecord`, `BoardLife`, `Chip`). A packet's nonce is its
sequence number, so a number must never be used twice under one key. The
counter is a two-page append log in flash that survives power cuts by resuming
at the highest ceiling it wrote. Flash is modelled by its physics: an erase sets
every bit of a page, a write can only clear bits (bitwise AND), and a failed or
cut operation leaves any residue at all in the page or word it touched.
`SeqCounter` holds the counter as a class over a flash peripheral, each method
proved against a transition function; `SensorRuns` proves that numbers strictly
increase over every run from any storage contents; `TornWrites` and `LogLayout`
prove the stronger facts that hold from erased storage under milder faults, and
that every call whose operations succeed then hands out a number.
`BoardLife` adds the UICR key record and the provisioning tool and proves over
whole lives of a board - boots, packets, cuts, `flash`, `--unlock`, `provision`
and `rotate` stopped after any step - that no (key, number) pair is used twice.
The tool may halt the core anywhere: before a boot, between its key read and its
storage scan, between packets, and inside a reservation. `Chip` is the tool's
imperative side over UICR and the whole of flash: every way its methods can end
is a life in the sense of `BoardLife`, so those results apply to it; and over a
session in which no hardware operation fails, success is characterised exactly.

**Frames and resynchronisation** (`Crc`, `Frame`, `Decoder`). The frame
checksum is modelled bit by bit over 16-bit vectors (FCS-16, section C.2 of RFC
1662). Parsing and encoding are inverse in both directions, every burst of up
to 16 bits is caught, every verdict is characterised by the bytes that cause it,
the jump to the next `H` finds exactly what examining every byte would find, and
what is emitted depends only on the bytes, never on how they were split into
reads.

**Packets in four layers** (`Measurements`, `Packets`, `Observations`,
`EndToEnd`). Each decoder is characterised from both sides - it accepts a byte
string exactly when that string is the encoding of the value it returns - and
together they give the end-to-end theorem: any number of readings, from any
sensors, arrive at the API as they were taken. The packet cipher is a pair of
functions that open exactly what was sealed; `Packets.LawsAreConsistent` shows
that this can be met.

**Deduplication** (`Lru`, `CacheTraces`, `Dedup`). The bounded cache is a class
over an array proved against a list; over any trace it holds exactly the N most
recently touched keys. From that follows exactly when the receiver suppresses a
report, what it forwards, and that with at most 32 addresses it agrees with an
unbounded map.

**Three smaller machines** (`UnknownDevices`, `FirmwareStore`, `DeviceKeys` with
`Registry`): the unknown-device reporter with its rate bound and its silences,
the firmware store with its crash-safe order of file operations, and the device
registry whose cache is always the opened table.

## Where the code falls short of its promise

- At the last reservation the unchecked 32-bit addition wraps: from any safe
  running state without room for another block, the number just issued is issued
  again after a reboot (`SensorRuns.WithoutRoomANumberRepeats`), and the log of
  4194303 records is such a state (`LogLayout.TheLastCeilingRepeats`). With room
  it never is.
- A blank header does not mean erased key words, although the record format
  treats the header as the commit of a complete key. An install that was cut
  leaves key words behind a blank header, and the next one, which skips the
  erase, ends with a well-formed header in front of another key - exactly when
  some word written before lacks a bit the new key needs
  (`UicrRecord.ACutInstallSpoilsTheNext`). The readback catches it and the tool
  reports a failure; the record stays. It is never a key the board held before
  (`BoardLife.WrittenKeyIsNew`).
- `provision` and `rotate` do not read the record again after flashing, as
  `flash` does. An image with a segment in UICR can take the verified key away
  and the install still succeeds (`BoardLife.AnImageInUicrTakesTheKey`); only
  without such a segment does success mean that the key is there.
- A deletion the file system refuses is ignored by the firmware store: it is the
  one way a call that succeeds leaves an image no row points at
  (`FirmwareStore.Store.Add`, `FirmwareStore.Store.Remove`).
- Erasing the counter without a new key repeats numbers
  (`BoardLife.ErasingUnderALiveKeyRepeats`), which is why the order of the
  install matters; and so would a halted boot that outlived the flashing
  (`BoardLife.ABootOutlivingTheFlashRepeats`).

## Premises

- Counter: a reservation starts only while the ceiling plus 1024 fits 32 bits.
- Keys: a newly minted key is not one the board held before. Only when it is
  minted for a record with a blank header over key words that are not erased,
  more is assumed, as holds of a key drawn at random: no key held before is made
  only of bits of it. A torn record erase, and an image with a segment in UICR,
  do not leave an earlier key's record behind.
- Install: the core stays halted while a key is installed, and a boot halted
  before its storage scan does not go on once an image has been programmed.
- Images: every image keeps the counter in the same two pages, so that after
  `flash` the firmware scans the pages it wrote before; and the image programmed
  by `flash` touches neither these pages nor UICR.
- Unlocking: the chip erase takes all of flash and UICR or, when cut, nothing.
  Flash without UICR is what `BoardLife.ErasingUnderALiveKeyRepeats` is about.
- Cipher: opening succeeds exactly on what was sealed under the same key, nonce
  and associated data (section 2.8 of RFC 8439).
- Firmware store and registry: a failed file or database operation changes
  nothing, and registry calls do not overlap.

## Model

| member | source | states |
|---|---|---|
| `SeqCounter.Counter.Load` | firmware/sensor/src/seq_counter.rs:47-90 | whatever the storage holds, a boot fails exactly when a slot it looks at cannot be read, and otherwise resumes at the highest ceiling reachable from a page start, behind the first slot holding it |
| `SeqCounter.ScanIsUnique` | firmware/sensor/src/seq_counter.rs:54-70 | what a boot finds is determined by the stored words |
| `SeqCounter.Counter.TakeNext` | firmware/sensor/src/seq_counter.rs:92-100 | for every behaviour of the hardware, storage, state and result of one call are the ones the transition function gives for it |
| `SeqCounter.Counter.AdvanceReservation` | firmware/sensor/src/seq_counter.rs:102-128 | for every behaviour of the hardware, a reservation changes state only after the ceiling read back; every failed step leaves the counter's state as it was |
| `SeqCounter.CallsAreExact` | firmware/sensor/src/seq_counter.rs:92-128 | a call fails exactly when it must reserve and an operation fails, stops the program exactly when none fails and the word to write lacks a bit of the next ceiling, and otherwise hands out the next number, out of a new block exactly when the old one is used up |
| `SeqCounter.Flash.Write` | firmware/sensor/src/seq_counter.rs:147-151 | a completed write leaves the AND of old word and data, a failed one leaves anything in that word and nothing elsewhere |
| `SeqCounter.Flash.Erase` | firmware/sensor/src/seq_counter.rs:153-159 | a completed erase sets every bit of one page, a failed one leaves anything in that page and nothing elsewhere |
| `SensorRuns.BootTies` | firmware/sensor/src/seq_counter.rs:57-89 | a boot's first number is above every number whose ceiling is still readable |
| `SensorRuns.NextKeepsTie` | firmware/sensor/src/seq_counter.rs:92-128 | across any outcome of a call the slot before the next one stays readable and holds the current ceiling |
| `SensorRuns.StepIsSafe` | firmware/sensor/src/seq_counter.rs:47-128 | the safety invariant is kept by every boot, call, flash failure and power cut |
| `SensorRuns.NumbersStrictlyIncrease` | firmware/sensor/src/seq_counter.rs:47-128 | from any storage contents, over any run of boots, calls, torn operations and cuts, the numbers handed out strictly increase |
| `SensorRuns.CeilingsNeverRegress` | firmware/sensor/src/seq_counter.rs:57-77 | no later boot resumes below a ceiling once reserved |
| `SensorRuns.WithoutRoomANumberRepeats` | firmware/sensor/src/seq_counter.rs:108-109 | without room for another block, a number is handed out twice across one reboot |
| `TornWrites.ReadbackNeverFails` | firmware/sensor/src/seq_counter.rs:102-128 | from erased storage, when cut writes clear only bits they should and erases happen or not, the readback assertion never fires in any run |
| `TornWrites.BootPicksAWritableSlot` | firmware/sensor/src/seq_counter.rs:72-77 | under the same faults the slot every boot picks can still take the next ceiling |
| `TornWrites.HealthyCallsIssue` | firmware/sensor/src/seq_counter.rs:92-128 | from erased storage, under the same faults, every call none of whose operations fails hands out the next number |
| `LogLayout.RecordsAreWhereTheyBelong` | firmware/sensor/src/seq_counter.rs:168-193 | record k of the log is 1024 k in slot (k - 1) mod 2048 |
| `LogLayout.BootRecoversTheLog` | firmware/sensor/src/seq_counter.rs:57-89 | a boot over the log recovers exactly its newest record and the slot after it |
| `LogLayout.StorageIsTheLog` | firmware/sensor/src/seq_counter.rs:33-128 | with all-or-nothing operations from erased storage, every slot is erased or holds its record, a boot recovers the newest, and page erases are at most one per page filled plus one per failed attempt |
| `LogLayout.OnlyErasesReachOtherWords` | firmware/sensor/src/seq_counter.rs:102-106 | what is counted as a page erase is every call that can change a word other than the one the next ceiling goes to |
| `LogLayout.BootSkipsAtMostOneBlock` | firmware/sensor/src/seq_counter.rs:84-89 | a boot resumes above every number handed out and skips at most 1024 from the number that was next |
| `LogLayout.TheLastCeilingRepeats` | firmware/sensor/src/seq_counter.rs:108-109 | over the log of the last ceiling that fits, two boots hand out one number twice |
| `Words.WriteOver` | firmware/sensor/src/seq_counter.rs:147-151 | programming a word stores exactly the data when and only when the old word has all its bits |
| `Words.WriteStaysWithin` | firmware/sensor/src/seq_counter.rs:147-151 | whatever was stored, a write leaves only bits of the data |
| `UicrRecord.Encode` | common/src/uicr_record.rs:137-153 | the word loop produces the record of the key |
| `UicrRecord.DecodeRecord` | common/src/uicr_record.rs:159-172 | the decode loop returns the specified verdict |
| `UicrRecord.PresentIsOneWord` | common/src/uicr_record.rs:184-205 | exactly one header word announces a key |
| `UicrRecord.HeaderVerdicts` | common/src/uicr_record.rs:184-205 | each verdict on a header, from its four bytes |
| `UicrRecord.DecodesExactlyItsRecord` | common/src/uicr_record.rs:137-172 | nine words decode to a key exactly when they are that key's record |
| `UicrRecord.HeaderCommitsTheKey` | provision/src/chip.rs:159-168 | over erased words, every proper prefix of the writes decodes as blank and the whole as the key |
| `UicrRecord.LeftoversCommitAnotherKey` | provision/src/chip.rs:159-168 | over leftover key words the finished record always announces a key, and the right one exactly when no leftover lacks a bit it needs |
| `UicrRecord.ACutInstallSpoilsTheNext` | provision/src/commands.rs:742-752 | after an install cut behind any of its key words, the next one's record announces its own key exactly when the words written before have every bit it needs, and otherwise some other key |
| `UicrRecord.ABlankHeaderDoesNotMeanErasedKeyWords` | provision/src/commands.rs:742-752 | two keys for which it is another key, behind a header that reads as blank |
| `BoardLife.CallInSteps` | firmware/sensor/src/seq_counter.rs:102-128 | the three steps in which the tool can halt a reservation are, left alone, one call |
| `BoardLife.WrittenKeyIsNew` | provision/src/chip.rs:159-168 | whatever key words were left, the completed header never announces a key the board held before |
| `BoardLife.StepIsSafe` | provision/src/commands.rs:726-789 | every step of boots halted anywhere, packets, cuts, installs, flashing and unlocking keeps the nonce invariant |
| `BoardLife.NoncesNeverRepeat` | provision/src/commands.rs:741-771 | over every life of a board, no (key, number) pair is issued twice and the numbers under one key increase |
| `BoardLife.StorageIsErasedOnlyUnderAFreshKey` | provision/src/commands.rs:750-768 | whenever storage is erased, nothing was ever sealed under the minted key or under the key UICR holds, and these are the same key unless an image overwrote the record |
| `BoardLife.AnImageInUicrTakesTheKey` | provision/src/commands.rs:757-771 | an image with a segment in UICR can leave an install that ran to its reset without a key |
| `BoardLife.ErasingUnderALiveKeyRepeats` | provision/src/chip.rs:222-232 | erased storage under a key in use hands out number 0 again |
| `BoardLife.ABootOutlivingTheFlashRepeats` | firmware/sensor/src/main.rs:86-188 | a boot halted between key read and storage scan that went on after a failed install with an image would hand out number 0 again |
| `Chip.FindMismatch` | provision/src/chip/memory.rs:4-32 | the chunked compare answers "equal" only for equal words and otherwise names the first difference |
| `Chip.Chip.Finish` | provision/src/chip/nvmc.rs:28-36 | success means the bracketed work succeeded and the controller is read-only again; short of a hardware failure it is read-only after failed work too |
| `Chip.Chip.EraseUicrRecord` | provision/src/chip.rs:146-157 | an erase can leave anything without failing; success means every word reads back erased and only the hardware prevents it; any ending is a step of the board's life |
| `Chip.Chip.WriteUicrRecord` | provision/src/chip.rs:159-176 | success means UICR is exactly the key's record and, when no operation fails, comes exactly when what was there has every bit of it; any ending is a run of the board's life |
| `Chip.Chip.Flash` | provision/src/chip.rs:198-220 | an image with an offset over erased flash, or with a segment outside flash and UICR, is refused with nothing changed, and for disjoint segments nothing else but the hardware is in the way; success means every segment in flash reads back; only pages of the segments change, and UICR only under an image that reaches into it |
| `Chip.TouchesExactly` | provision/src/chip.rs:198-220 | the pages counted as the image's are exactly those some word of a segment lies in |
| `Chip.Chip.EraseStorage` | provision/src/chip.rs:232-253 | a malformed range is refused before anything is erased; an erase can leave anything without failing, and success means every word of the range, wherever it lies in flash, reads back erased; only a range outside flash or the hardware prevents it; nothing outside it changes |
| `Chip.Chip.InstallFirmware` | provision/src/commands.rs:757-769 | the image is programmed, then the range it declares erased; success means both and comes, when no operation fails, exactly for the acceptable images; failure ends the session |
| `Chip.Chip.InstallKey` | provision/src/commands.rs:726-789 | however it ends, the board lived a life of the model; success means the image is in flash, its declared range erased and, unless the image reaches into UICR, the new key there; nothing else in flash changes; when no operation fails, success comes exactly when the record was erased or has every bit of the new one, and the image is acceptable |
| `Chip.Chip.InstallClearsTheCounter` | provision/src/commands.rs:764-768 | when the declared range is the counter's storage, a finished install leaves the counter erased |
| `Chip.Chip.Rekey` | provision/src/commands.rs:366-436 | the same from the record read through halt and mint: on working hardware it succeeds exactly when a blank header stands over words with every bit of the new record or the header is not blank, and the image is acceptable |
| `Crc.BurstIsDetected` | common/src/frame.rs:12-14 | data and checksum that differ from checked ones within 16 consecutive bits never check |
| `Crc.ResidueIsGoodFcs` | common/src/frame.rs:14-14 | that residue is 0xF0B8, the "good FCS" of section C.2 of RFC 1662 |
| `Crc.ChecksumOfNothing` | common/src/frame.rs:14-14 | the start value and the final complement cancel over no data |
| `Crc.ChecksIffResidue` | common/src/frame.rs:70-76 | a checksum is right exactly when running over data and checksum ends at the residue |
| `Frame.Encode` | common/src/frame.rs:53-79 | one frame is written over the front of the buffer and nothing behind it, exactly when it fits |
| `Frame.FrameLayout` | common/src/frame.rs:53-79 | the bytes of a frame: `HS`, the length low byte first, the payload, the checksum over length and payload low byte first |
| `Frame.ParsesExactlyFrames` | common/src/frame.rs:53-146 | a buffer parses as a payload exactly when it starts with that payload's frame |
| `Frame.EveryPrefixIsIncomplete` | common/src/frame.rs:88-146 | a frame cut short anywhere is incomplete, never corrupt |
| `Frame.IncompleteExactly` | common/src/frame.rs:88-127 | the parser waits exactly while the bytes agree, as far as they go, with everything before the checksum of some longer frame |
| `Frame.FaultsAreExact` | common/src/frame.rs:88-137 | bad magic, oversized length and bad checksum are each reported exactly when the bytes show it, the oversized length with the header alone |
| `Frame.DiscardStopsAtMagic` | common/src/frame.rs:148-158 | a corrupt buffer is to be skipped up to the first `H` behind its first byte, or wholly |
| `Frame.CorruptIsHopeless` | common/src/frame.rs:148-172 | once position 0 is judged corrupt, nothing that still arrives makes it a frame start |
| `Frame.VerdictIsStable` | common/src/frame.rs:88-146 | bytes that arrive later never change a verdict already reached |
| `Frame.IncompleteIsShort` | common/src/frame.rs:16-33 | an incomplete verdict holds fewer than 1030 bytes |
| `Frame.SeekMagic` | common/src/frame.rs:148-158 | nothing skipped is a possible frame start, and the stop is one or the end |
| `Frame.BurstIsBadCrc` | common/src/frame.rs:129-137 | a nonempty burst of up to 16 bits in payload and checksum is always answered with a checksum error, for every payload length |
| `Decoder.FrameDecoder.DecodeBuffer` | gateway/src/decoder.rs:13-31 | the loop ends, and item and remaining bytes are the specified ones |
| `Decoder.SkipIsByteByByte` | common/src/frame.rs:154-158 | one jump over bytes that cannot start a frame is the same as passing them one by one |
| `Decoder.DrainRefinesScan` | gateway/src/decoder.rs:13-31 | jumping finds exactly the payloads, and leaves exactly the bytes, that examining every position does |
| `Decoder.ChunkingDoesNotMatter` | gateway/src/decoder.rs:13-31 | payloads and leftover bytes depend only on the stream, never on the reads |
| `Decoder.TheBufferAwaitsAFrame` | gateway/src/decoder.rs:13-31 | whatever was read, the bytes held back are the beginning of a frame as far as they go, and less than the whole of one |
| `Decoder.NoFrameIsLost` | gateway/src/decoder.rs:13-31 | examining every position, each place where a valid frame starts is emitted, inside an emitted frame, or still buffered |
| `Decoder.NoFrameIsLostInPieces` | gateway/src/decoder.rs:13-31 | the same of the decoder fed in any pieces, and what it emits are frames of the stream in order, none overlapping the next |
| `Decoder.CleanStreamDecodes` | common/src/frame.rs:53-158 | frames with `H`-free bytes between them decode to exactly their payloads |
| `Measurements.GoldenBytes` | common/src/measurement.rs:102-106 | the id table and the byte order, on the documented wire bytes |
| `Packets.GoldenHeader` | common/src/packet/cipher.rs:96-146 | the layouts of packet header, nonce and associated data, byte for byte |
| `Observations.GoldenObservation` | common/src/observation.rs:51-73 | the observation header's layout, byte for byte |
| `Measurements.MeasurementRoundTrip` | common/src/measurement.rs:61-85 | an encoded measurement reads back, whatever follows it |
| `Measurements.ReadMeasurementIsEncoded` | common/src/measurement.rs:61-70 | only encodings read as measurements |
| `Measurements.UnreadableExactly` | common/src/measurement.rs:61-70 | bytes are truncated exactly when they are the beginning of an entry, and of unknown id exactly when no entry starts with their first byte |
| `Measurements.Walk.Next` | common/src/packet.rs:227-246 | one entry per call; an unreadable one is the last |
| `Measurements.DecodeV1` | common/src/packet/v1.rs:51-79 | the slot-filling loop is the fold |
| `Measurements.BodyIsCharacterised` | common/src/packet/v1.rs:37-79 | a body is accepted exactly when it is the section of a nonempty list of distinct kinds, with exactly those values, and refused with exactly its leftmost fault |
| `Measurements.OrderDoesNotMatter` | common/src/packet/v1.rs:51-79 | wire order never changes the outcome |
| `Packets.NonceInjective` | common/src/packet/cipher.rs:141-146 | nonces are equal only if numbers are |
| `Packets.AssociatedDataInjective` | common/src/packet/cipher.rs:115-120 | the associated data determines address, version and number |
| `Packets.SealLayout` | common/src/packet/cipher.rs:55-146 | the nonce and the associated data a body is sealed with, byte for byte |
| `Packets.ParsesExactlyPackets` | common/src/packet.rs:81-91 | bytes parse as a packet exactly when they are its encoding |
| `Packets.StripsExactlyTheMagic` | common/src/packet.rs:93-102 | stripping succeeds exactly behind the air magic, and tells bytes too short for it from bytes that start otherwise |
| `Packets.EncodePacket` | common/src/packet.rs:122-157 | the sealed packet is written at its place, exactly when it fits |
| `Packets.EncodeAir` | common/src/packet.rs:159-172 | magic and sealed packet fill the front of the buffer, exactly when they fit |
| `Packets.DecodesExactlySealedPackets` | common/src/packet.rs:106-120 | a packet decodes to metrics exactly when it was sealed under this key and address from a nonempty list of distinct kinds with those values |
| `Packets.RejectionsAreExact` | common/src/packet.rs:106-120 | each rejection comes exactly for its reason: too long, too short for a tag, not sealed under this key, address, version and number, or - sealed - the leftmost fault of the body |
| `Packets.VersionIsJudgedAfterTheSeal` | common/src/packet.rs:113-119 | an unsupported version is reported exactly of an authentic packet of another version |
| `Observations.EncodeObservation` | common/src/observation.rs:51-73 | the observation is written at its place, exactly when it fits |
| `Observations.ParsesExactlyObservations` | common/src/observation.rs:29-46 | bytes parse as an observation exactly when they are its encoding |
| `Observations.OpensExactlySealedReadings` | common/src/reading.rs:43-60 | an envelope opens to a reading exactly when its packet was sealed from it; address, rssi and time come off the envelope |
| `Observations.FailsExactlyAsThePacket` | common/src/reading.rs:43-60 | an envelope fails with the header exactly when there are fewer than five bytes, and otherwise exactly with what its packet is rejected for |
| `EndToEnd.PacketBuilder.BuildPacket` | firmware/sensor/src/packet_builder.rs:24-47 | for every behaviour of the hardware, every packet carries the number its call handed out behind the air magic; a flash failure, a stopped program and more than three measurements end in their own result, and a number is used up even when the packet then does not fit |
| `EndToEnd.CipherNoncesNeverRepeat` | common/src/packet/cipher.rs:122-146 | over every life of a board no two packets are sealed under the same key and nonce |
| `EndToEnd.ReadingsArriveIntact` | gateway/src/main.rs:91-121 | any packets, built, heard, framed, read in any pieces with `H`-free noise between, open in order to the numbers, addresses and metrics sent |
| `Lru.LruCache.constructor` | firmware/receiver/src/lru_cache.rs:22-28 | a new cache of any capacity is empty |
| `Lru.LruCache.Insert` | firmware/receiver/src/lru_cache.rs:32-65 | the key comes to the front with its value; in a full cache a new key displaces the one touched longest ago; the old value is returned; only a cache without slots is indexed out of bounds |
| `Lru.LruCache.Get` | firmware/receiver/src/lru_cache.rs:67-75 | a hit returns the value and comes to the front; a miss changes no entry |
| `Lru.LruCache.FindItem` | firmware/receiver/src/lru_cache.rs:77-82 | the scan of the packed prefix finds a key exactly when it is held |
| `CacheTraces.CacheHoldsMostRecent` | firmware/receiver/src/lru_cache.rs:31-83 | after any trace a key is held exactly when fewer than N others were touched since it was, behind exactly those, with the value last inserted |
| `Dedup.PacketHandler.OnExtAdvReports` | firmware/receiver/src/ble_scan.rs:65-116 | a batch of reports leaves the cache and the queue as handling its sightings in order does |
| `Dedup.PacketHandler.OnSighting` | firmware/receiver/src/ble_scan.rs:85-112 | one sighting: lookup, suppression, recording before the size check, drop-oldest |
| `Dedup.SuppressedExactly` | firmware/receiver/src/ble_scan.rs:87-96 | a sighting is suppressed exactly when the previous one from its address had its number and fewer than 32 other addresses were seen in between |
| `Dedup.ForwardedExactly` | firmware/receiver/src/ble_scan.rs:87-100 | a sighting is forwarded exactly when its packet has at most 252 bytes and it is not suppressed by that condition |
| `Dedup.SightingExactly` | firmware/receiver/src/ble_scan.rs:71-85 | an advertisement is a sighting exactly when it is manufacturer data of company 0xFFFF holding a packet behind the air magic, and then one with the packet's number |
| `Dedup.SightingsInOrder` | firmware/receiver/src/ble_scan.rs:65-85 | a batch's sightings are all of its advertisements that are one, each once, in order |
| `Dedup.AgreesWithUnboundedMap` | firmware/receiver/src/ble_scan.rs:87-96 | with at most 32 addresses the decisions are those of an unbounded map |
| `Dedup.QueueKeepsNewest` | firmware/receiver/src/ble_scan.rs:87-112 | over any trace the queue holds, in order, address, signal strength and packet of the latest 512 of exactly the sightings that fit and are not suppressed |
| `UnknownDevices.UnknownDevices.RecordPacket` | api/src/ingest/unknown_devices.rs:42-79 | state and report are the specified ones |
| `UnknownDevices.CountsAreExact` | api/src/ingest/unknown_devices.rs:42-79 | at most 256 addresses are tracked, each with the count of all its packets, and the overflow count is all packets of the others |
| `UnknownDevices.EveryPacketIsCounted` | api/src/ingest/unknown_devices.rs:42-79 | the counts and the overflow add up to all packets recorded |
| `UnknownDevices.ReportsAreTrue` | api/src/ingest/unknown_devices.rs:16-24 | a report's counts are those of all packets so far from its address or from the untracked ones, and its span runs from the first packet |
| `UnknownDevices.ReportsAreSpaced` | api/src/ingest/unknown_devices.rs:14-14 | two reports about one source are at least an hour apart, whatever the clock does |
| `UnknownDevices.SilentExactly` | api/src/ingest/unknown_devices.rs:42-79 | a packet is passed over exactly when the latest report on its source is less than an hour ago; the first of a source is always reported |
| `UnknownDevices.TrackedExactly` | api/src/ingest/unknown_devices.rs:54-67 | the tracked addresses are exactly the first 256 to be heard |
| `UnknownDevices.ReportsAreBounded` | api/src/ingest/unknown_devices.rs:11-79 | over a run of duration T at most 257 (1 + T / 1h) reports are raised |
| `FirmwareStore.SortKeepsRows` | provision/src/firmware.rs:240-242 | sorting keeps the rows, orders them by name and keeps names unique |
| `FirmwareStore.LessIsLexicographic` | provision/src/firmware.rs:242-242 | the order of names: the smaller character at the first difference, or the end of the name |
| `FirmwareStore.AsciiNames` | provision/src/firmware.rs:151-153 | within ASCII a name is a nonempty run of the characters `!` to `~` |
| `FirmwareStore.ReplacedRows` | provision/src/firmware.rs:225-245 | replacing gives the rows of all other names and the new one, unique and ordered |
| `FirmwareStore.RemovedRows` | provision/src/firmware.rs:210-215 | removing keeps exactly the rows of all other names, unique and ordered |
| `FirmwareStore.Store.Replace` | provision/src/firmware.rs:225-245 | the row of that name is replaced and returned, and every row in memory has its image |
| `FirmwareStore.Store.Add` | provision/src/firmware.rs:150-202 | stopped after any file operation every manifest row has its image, and names on disk stay unique and ordered; each refusal comes exactly for its reason; success records hash, name, load address and storage range the image declares, files the bytes under their hash, replaces the row, deletes the displaced image unless a row needs it, and leaves an image unreferenced that was not before only when that deletion is refused |
| `FirmwareStore.Store.Remove` | provision/src/firmware.rs:210-223 | the same for removal; a name not there changes nothing, and only a refused manifest write fails the call |
| `DeviceKeys.ParseRing` | api/src/devices/keys.rs:246-302 | a key file loads exactly when it means a ring, and then exactly that ring in any line order; it is refused with an error exactly when its first faulty line has that fault, the one the parser checks first |
| `DeviceKeys.SealedColumnOpens` | api/src/devices/keys.rs:88-141 | a sealed key opens under every ring that still holds its generation |
| `DeviceKeys.OpensExactlySealedKeys` | api/src/devices/keys.rs:118-141 | a column opens to a key exactly when it is that key sealed for this address under a generation the ring holds |
| `DeviceKeys.KeyFaultsAreExact` | api/src/devices/keys.rs:334-348 | a column does not open exactly for one of five reasons: missing, wrong size, unknown layout, generation not held, or not a key sealed for this address under it |
| `DeviceKeys.ColumnLayout` | api/src/devices/keys.rs:91-146 | the bytes of a stored column, and what its key is sealed with |
| `DeviceKeys.KeyContextInjective` | api/src/devices/keys.rs:143-146 | the sealing context determines version, generation and address |
| `Registry.DeviceRegistry.Load` | api/src/devices/registry.rs:32-70 | the load fails exactly when the key file means no ring or the table cannot be read; otherwise the loop over the records ends with the table's openable keys opened under that ring, and counts the others |
| `Registry.DeviceRegistry.Get` | api/src/devices/registry.rs:87-93 | a lookup serves the opened table, and the key last handed out |
| `Registry.DeviceRegistry.Provision` | api/src/devices/registry.rs:116-155 | a new address enters table and cache together with the key returned; the refusals are exactly no entropy, a failed database and an address already there, in this order, and change neither |
| `Registry.DeviceRegistry.RotateKey` | api/src/devices/registry.rs:157-181 | the key changes in table and cache together; the refusals are exactly no entropy, a failed database and an unknown address, in this order, and change neither |
| `Registry.RestartServesTheSame` | api/src/devices/registry.rs:32-70 | a restart under any ring holding the generations in use serves everything served before with the same keys, whatever is current, and nothing else unless the ring brings a missing generation |
| `Registry.RestartServesTheKeysHandedOut` | api/src/devices/registry.rs:87-93 | after such a restart every key handed out last is the one served |

## Left out

- The ciphers themselves: sealing and opening are two functions that are
  inverse under equal key, nonce and associated data; their size limit of
  hundreds of gigabytes is never reached by these buffers.
- Liveness after a torn page erase: residue can make the readback assertion fire
  again after every reboot; only safety and `SeqCounter.CallsAreExact` are
  claimed there.
- A cut chip erase while unlocking, a `flash` image that overwrites storage, and
  what an image writes into UICR: it may leave anything in the record.
- Memory outside UICR and flash: an image segment or a storage range reaching
  there is an error.
- Connecting, prompts, `report_boot`, log streaming and the hex form of a key.
- Bluetooth, USB, serial, MQTT, HTTP, database and file plumbing; asynchronous
  scheduling. Clock readings, random draws and hardware outcomes are parameters
  or nondeterministic.
- The capture time of a scanned packet; its age is a parameter of the journey.
- An artifact's build time, commit and dirty flag, and creating the store's
  directory.
- Manifest writes cut in the middle of the file.
- Splitting a key file into lines and fields, and reading its numbers and hex
  digits: the parser works on lines already split.
- Overlapping registry calls: the table write and the cache insert are separate
  steps.
- Wrap-around of 64-bit ticks and packet counts.
- The reference parser in the protocol document, which discards a whole frame on
  a checksum failure and is not equivalent to the code.
- Topic and site parsing, unit display, summaries, listings, ELF reading, linker
  layout and deployment.
