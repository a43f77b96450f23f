# Verified model of NetPulse's capture, replay and lookup kernels

This Dafny project models the parts of NetPulse where a promise spans several functions, and proves those promises for
all inputs, all runs or all interleavings.

| file | what it models |
|---|---|
| `Pcapng.dfy`, `ForeignPcapng.dfy`, `DraftPcapng.dfy`, `WrittenFiles.dfy` | the pcapng writer and reader on their own files, on any cut of them and on files by other writers, against what draft-ietf-opsawg-pcapng (sections 4.1 to 4.4) means by them |
| `Recording.dfy`, `FileSource.dfy`, `Replay.dfy`, `SealedFiles.dfy` | recording, sealing, importing, replaying and checkpointed seeking |
| `Transport.dfy`, `Client.dfy`, `Daemon.dfy`, `Pipe.dfy` | the capture daemon, its framed wire format, the client's accounting, and the worker, channel and writer under every interleaving |
| `Shed.dfy` | staged load shedding with hysteresis |
| `Attribution.dfy` | attributing flows to processes through a pruned, bounded cache |
| `GeoIntervals.dfy`, `Cidr.dfy` | the GeoIP interval compiler and CIDR arithmetic |
| `ChunkedBody.dfy`, `ChunkedStreams.dfy`, `ChunkedFailures.dfy` | the chunked request body reader, exactly which streams it accepts, and with which error it refuses the others |
| `Dns.dfy`, `DnsMessages.dfy` | DNS name decompression, message dissection and a compressing encoder to read back |
| `Gates.dfy` | the lock-free probe gate and feed throttle |
| `Bytes.dfy`, `Arith.dfy`, `Wrappers.dfy` | machine words, arithmetic facts, `Option` and `Result` |

Code that changes state is modelled by classes and methods with loops; each is proved equal to a specification function,
and the results are lemmas about those functions. Protocols between threads are state machines over their atomic steps.
Machine integers are explicit: values have 16, 32 or 64-bit types, and sums that saturate, wrap or must fit say so.
Where a format or a limit is a matter of numbers, some result states it in those numbers and not through the model's names.

## Where the code and what is said about it differ

The model follows the code. The members cited say exactly when the code does what is said of it, or that it does not.

- A seek is documented as bounded by the checkpoint spacing (`crates/netpulse-capture/src/replay.rs:206-208`). Checkpoints
  carry absolute monotonic times while the frame times start at zero, so this holds exactly when the first monotonic time
  is zero or there are at most that many frames (`Replay.SeekCost`, `Replay.SeekIsFar`). Where a seek lands is still exact
  (`Replay.SeekExactWhenInStep`).
- Expired mappings are said never to satisfy a future attribution (`src-tauri/src/main.rs:1359-1362`). Eviction is invisible
  exactly to flows that start at or after the latest event, and to all flows before two seconds, when no mapping can have
  expired yet (`Attribution.ForgettingIsExact`); for every other pair of times some run forgets a flow
  (`Attribution.EvictionForgetsEarlierFlows`).
- A recording is said to write only what its payload level permits, and its manifest never to claim a level the frames do
  not carry (`crates/netpulse-capture/src/recording.rs:14-16`, `211-213`). The recorder keeps the bytes it is given at every
  level: what is sealed is permitted exactly when what was captured is (`SealedFiles.PermittedIffCaptured`), and the manifest
  is right exactly when the level is full payload just if some frame bears payload (`SealedFiles.ManifestAgrees`). A
  metadata-only recording of a frame of 55 bytes, kept whole, is `SealedFiles.MetadataOnlyKeepsPayload`.
- The names of a DNS message are returned as labels joined with dots. That tells the labels apart when none has a dot in it
  (`Dns.TextDetermines`), which the reader does not check (`Dns.DottedCollides`).
- Replay is said to agree with import (`crates/netpulse-capture/src/replay.rs:36`, `55`). It does exactly when the nanoseconds of every record's whole seconds fit 64 bits
  (`Replay.ReplayEqualsImport`): past that the writer's product saturates and the importer's wraps.
- The pcapng format gives every packet the link type, resolution and offset of its own interface. The reader, which also
  serves captures of other writers (`crates/netpulse-engine/src/export.rs:316-325`), has one link type and one unit in force
  for the whole file and ignores offsets (`DraftPcapng.OffsetIsIgnored`). Two interfaces that it confuses are
  `DraftPcapng.SecondInterfaceMisleads`. The writer's own files are read as the format means them
  (`WrittenFiles.WrittenConforms`).
- The format gives every section its own byte order; the reader keeps that of the first
  (`crates/netpulse-capture/src/pcapng.rs:190`). A later section in the other order is lost
  (`ForeignPcapng.OtherOrderSectionIsLost`). With this, `DraftPcapng.ReadAsMeantExactly` says exactly which files the reader
  and the format agree on, but for files in which the swapped length of such a header leads somewhere in the rest of the file
  (`DraftPcapng.SkipsAhead`). Those need at least 16 MiB or a header whose length is a multiple of 256
  (`ForeignPcapng.SkipNeedsRoom`); some are read right by accident (`DraftPcapng.SkippedMayBeRight`).
- The daemon's batches have no limit in bytes, and the client refuses payloads over 10 MiB. The device hands out frames of up
  to 65,535 bytes, up to 512 a pull (`crates/netpulse-platform/src/npcap.rs:44-51`), and the default batch is 256 frames, so a
  batch may have about 16.8 MB. Delivery is complete exactly when no payload is over the limit (`Daemon.DaemonToClient`,
  `Pipe.CaptureToPipeline`); such a batch ends it (`Daemon.LongFramesAreRefused`).
- The format pads the data of a simple packet cut by the snap length. The reader does not use the snap length and returns
  the padding as packet data, unless the packet is whole or needs none (`DraftPcapng.PaddedData`,
  `DraftPcapng.PaddingIsReadAsData`).
- Two feed emissions are 3000 ms apart in recorded time (`FeedThrottle.WinsAreSpaced`) but not on the clock
  (`FeedThrottle.ClockGap`, `FeedThrottle.ClockGapIsAttained`).
- A cut that leaves 1 to 11 bytes is not reported as truncated (`Pcapng.CutFile`).
- The order and duplicate checks of the interval validator are subsumed by its overlap check
  (`GeoIntervals.SubsumedChecks`), and the wrapped adjacency comparison lets a repeated whole-address-space interval
  through (`GeoIntervals.CompilerAccepts`).
- The AS merge compares number and organisation only, so it can change an address's AS name
  (`GeoIntervals.AsnMergePreserves`); the parser in the same script always sets name and organisation alike.
- Timestamp units are cut to whole nanoseconds, so resolutions beyond nine decimal or binary digits drift
  (`ForeignPcapng.UnitExact`).

## Model

| member | source | states |
|---|---|---|
| `Pcapng.PushBlock` | crates/netpulse-capture/src/pcapng.rs:84-92 | appends one block: type, total length, body padded to 32 bits, total length again |
| `Pcapng.WriteEpb` | crates/netpulse-capture/src/pcapng.rs:118-131 | appends the packet block of a record: the 64-bit nanosecond count split into two words (saturating product, wrapping sum), captured and original length, padded data |
| `Pcapng.WriteEpbs` | crates/netpulse-capture/src/pcapng.rs:76-78 | the record loop appends the packet blocks in order |
| `Pcapng.Write` | crates/netpulse-capture/src/pcapng.rs:72-80 | the file is the section header, one interface description with nanosecond resolution and one packet block a record |
| `Pcapng.ParseTsresol` | crates/netpulse-capture/src/pcapng.rs:230-259 | the option walk returns the specified resolution: the first nonempty if_tsresol before the end mark or a malformed option |
| `Pcapng.ApplyBlock` | crates/netpulse-capture/src/pcapng.rs:189-215 | the effect of one whole block on link type, unit, records and the truncation flag |
| `Pcapng.ParseBlocks` | crates/netpulse-capture/src/pcapng.rs:180-217 | the block loop over offsets is the block recursion over suffixes, for every buffer |
| `Pcapng.Parse` | crates/netpulse-capture/src/pcapng.rs:137-226 | the reader computes the specified result, with each of its errors, for every buffer |
| `Pcapng.RoundTrip` | crates/netpulse-capture/src/pcapng.rs:72-226 | parse(write(link, rs)) gives back the same link type, exactly rs and no truncation, precisely when every timestamp is normalised and its nanoseconds fit 64 bits; all three link types, all record lists whose blocks fit |
| `Pcapng.OnDiskSame` | crates/netpulse-capture/src/pcapng.rs:118-124 | a record comes back unchanged if and only if its timestamp is normalised and fits |
| `Pcapng.WholeFile` | crates/netpulse-capture/src/pcapng.rs:137-226 | what any written file reads back as, also where timestamps saturate or wrap |
| `Pcapng.CutFile` | crates/netpulse-capture/src/pcapng.rs:180-217 | any cut of a written file: an error below 60 bytes; from there exactly the records whose blocks are whole, flagged truncated exactly when at least 12 bytes are left over |
| `Pcapng.WholeCountLongest` | crates/netpulse-capture/src/pcapng.rs:180-217 | the records kept by a cut are the longest prefix whose blocks fit in it |
| `ForeignPcapng.ForeignFileReads` | crates/netpulse-capture/src/pcapng.rs:133-226 | a file by any writer, of any sections each in either byte order, with any options, repeated interface descriptions, simple packets however cut and padded, and unknown blocks, is read block by block through the sections in the order of the first one, or gives the error of the first unsupported link type; at the first header in the other order it stops, truncated, or goes on where the swapped length leads |
| `ForeignPcapng.OneOrderReads` | crates/netpulse-capture/src/pcapng.rs:133-226 | a file of one byte order is read block by block to its end |
| `ForeignPcapng.OtherOrderHeader` | crates/netpulse-capture/src/pcapng.rs:180-190 | a section header in the other byte order is stepped over by its swapped length, or ends the reading, truncated, where that is no block length or runs past the end |
| `ForeignPcapng.SkipNeedsRoom` | crates/netpulse-capture/src/pcapng.rs:182-187 | below 16 MiB the swapped length leads nowhere unless the header is a multiple of 256 bytes long |
| `ForeignPcapng.OtherOrderSectionIsLost` | crates/netpulse-capture/src/pcapng.rs:180-190 | a little-endian section with an interface, a 28-byte big-endian section header and less than 400 MiB of anything read as no packets, truncated |
| `ForeignPcapng.ByteOrderIsInvisible` | crates/netpulse-capture/src/pcapng.rs:151-172 | the big-endian and little-endian layouts of the same blocks read the same |
| `ForeignPcapng.OrderIsTold` | crates/netpulse-capture/src/pcapng.rs:142-156 | the section header type reads the same in both orders; the byte-order magic reads as itself exactly in little-endian files |
| `ForeignPcapng.OptionsRead` | crates/netpulse-capture/src/pcapng.rs:230-259 | in a well-formed option area of any length the resolution read is that of the first nonempty if_tsresol |
| `ForeignPcapng.UnitExact` | crates/netpulse-capture/src/pcapng.rs:241-251 | the nanoseconds-a-unit value is exact for decimal and binary exponents precisely up to nine; it is one from 10^-9 and from 2^-30 on |
| `ForeignPcapng.ItemsFold` | crates/netpulse-capture/src/pcapng.rs:180-217 | the block loop adds what the reader takes each laid-out block to say, in order |
| `ForeignPcapng.EnhancedEffect` | crates/netpulse-capture/src/pcapng.rs:261-281 | an enhanced packet yields its data, original length and time counted in the current unit |
| `ForeignPcapng.SimpleEffect` | crates/netpulse-capture/src/pcapng.rs:283-296 | a simple packet yields what its block holds up to the original length, padding included, at time zero |
| `ForeignPcapng.InterfaceEffect` | crates/netpulse-capture/src/pcapng.rs:191-200 | an interface description sets the link type and, if it states one, the unit |
| `DraftPcapng.ReadAsMeantExactly` | crates/netpulse-capture/src/pcapng.rs:174-215 | a file of sections that conform to sections 4.1 to 4.4 of draft-ietf-opsawg-pcapng, each in its own byte order, is read as the format means it exactly when every section is in the order of the first, the last interface has a known link type and every packet is on an interface of that link type and timed right by the unit in force, or, if simple, needs no padding; but for files in which a swapped header length leads somewhere |
| `DraftPcapng.SkippedMayBeRight` | crates/netpulse-capture/src/pcapng.rs:180-190 | that exception is real: a second section in the other order whose header length is the same backwards is stepped over and the file is read as meant |
| `DraftPcapng.FoldAsMeant` | crates/netpulse-capture/src/pcapng.rs:174-215 | the condition for one run of blocks in one byte order |
| `DraftPcapng.FlatMeans` | crates/netpulse-capture/src/pcapng.rs:189-190 | sections of one order mean, as one run of blocks with headers among them, what they mean on their own |
| `DraftPcapng.RecordsFaithful` | crates/netpulse-capture/src/pcapng.rs:189-214 | the same for the records of one run of blocks from any block on, with the interfaces and the unit known there |
| `DraftPcapng.ClockRightIs` | crates/netpulse-capture/src/pcapng.rs:273-274 | a packet gets the time its interface gives it (resolution, offset, cut to nanoseconds) exactly when that exact time is at or past the one read, by less than a nanosecond; stated without dividing |
| `DraftPcapng.ClockOfWholeUnit` | crates/netpulse-capture/src/pcapng.rs:273-274 | for resolutions of up to nine digits, no offset and no saturation that is exactly when the unit in force is the interface's own, or the count is zero |
| `DraftPcapng.PaddedData` | crates/netpulse-capture/src/pcapng.rs:287-293 | of a simple packet the reader takes exactly the captured bytes when the packet is whole or there is no padding |
| `DraftPcapng.PlainFileIsRead` | crates/netpulse-capture/src/pcapng.rs:137-226 | files of one interface with a known link type, up to nine digits, no offset, times within 64 bits and no padded simple packet are read as meant |
| `DraftPcapng.SecondInterfaceMisleads` | crates/netpulse-capture/src/pcapng.rs:197-202 | the bytes of a file of two interfaces whose packet is meant at 5 ns decode to a record at 5000 ns |
| `DraftPcapng.PaddingIsReadAsData` | crates/netpulse-capture/src/pcapng.rs:283-296 | the bytes of a file with a snap-length-cut simple packet of six bytes decode to a record of eight |
| `DraftPcapng.OffsetIsIgnored` | crates/netpulse-capture/src/pcapng.rs:230-259 | the bytes of a file whose interface has a time offset of one second: its packet is meant at that second and read at zero |
| `ForeignPcapng.OpeningChecks` | crates/netpulse-capture/src/pcapng.rs:137-156 | the checks on the first bytes in their order, a section header told by its four type bytes and its magic in either order |
| `ForeignPcapng.ShortBlocks` | crates/netpulse-capture/src/pcapng.rs:191-214 | an interface description of less than eight bytes or a packet that runs past its block ends the reading, truncated; a simple packet of less than four bytes and any other block is stepped over |
| `ForeignPcapng.UnitIsFloor` | crates/netpulse-capture/src/pcapng.rs:241-251 | every unit is the whole part of its nanoseconds, but never less than one |
| `WrittenFiles.WrittenIsForeign` | crates/netpulse-capture/src/pcapng.rs:72-131 | the written file is, byte for byte, the format's section header of version 1.0, one interface counting nanoseconds and an enhanced packet of it for every record, each block closed by its own length |
| `WrittenFiles.WrittenConforms` | crates/netpulse-capture/src/pcapng.rs:69-80 | it conforms to sections 4.1 to 4.4 of draft-ietf-opsawg-pcapng, and means one packet per record, in order, with its link type, data and length; the time is the record's exactly when that fits 64 bits of nanoseconds |
| `WrittenFiles.PreambleBytes` | crates/netpulse-capture/src/pcapng.rs:94-116 | the sixty bytes every written file starts with, one by one |
| `WrittenFiles.PacketBytes` | crates/netpulse-capture/src/pcapng.rs:118-131 | where type, both lengths, interface, the two time words, captured and original length and the data lie in a written packet block |
| `Recording.Recorder.Start` | crates/netpulse-capture/src/recording.rs:226-235 | a new recorder has recorded nothing |
| `Recording.Recorder.Push` | crates/netpulse-capture/src/recording.rs:240-260 | one push extends what was recorded by exactly that frame, keeping records, checkpoints and time bounds those of the whole history |
| `Recording.Recorder.Finalize` | crates/netpulse-capture/src/recording.rs:270-291 | the sealed artifact is the one determined by the frames pushed |
| `Recording.CheckpointsExact` | crates/netpulse-capture/src/recording.rs:250-256 | the checkpoints are exactly the frames at multiples of a nonzero cadence, in order, with their own times |
| `Recording.CheckpointsSpaced` | crates/netpulse-capture/src/recording.rs:250-256 | no checkpoint at cadence zero; otherwise one for every `every` frames begun, the j-th for frame j * every with that frame's time: at cadence 64 and 130 frames those of frames 0, 64 and 128 |
| `Recording.SealedManifest` | crates/netpulse-capture/src/recording.rs:270-291 | the manifest has the number of frames, the time of the first, the largest time, the scope, version and pins, and claims payloads exactly at full payload |
| `Recording.StoredAre` | crates/netpulse-capture/src/recording.rs:240-249 | a frame is stored with its bytes and time; its claimed length changes only below full payload, and then to no less than the bytes it has |
| `Recording.LatestIsMax` | crates/netpulse-capture/src/recording.rs:258 | the end time is the maximum of the recorded times |
| `Recording.RecordLastN` | crates/netpulse-capture/src/recording.rs:299-316 | nothing from an empty buffer; otherwise the seal of the frames at or after the cutoff, of which there is always one |
| `Recording.SinceIsSuffix` | crates/netpulse-capture/src/recording.rs:307-309 | in a time-ordered buffer what is sealed is a suffix and all before it is older |
| `Recording.CutContainer` | crates/netpulse-capture/src/recording.rs:142-172 | any cut of a sealed file: an error until the manifest is whole, then the same manifest with the frame data cut at the same place |
| `Recording.ContainerRoundTrip` | crates/netpulse-capture/src/recording.rs:142-172 | parse undoes to_bytes whenever the manifest length fits its field |
| `Recording.ContainerLayout` | crates/netpulse-capture/src/recording.rs:142-150 | a sealed file is the characters NPR1, the manifest's length, the manifest and the frame data |
| `SealedFiles.PermittedIffCaptured` | crates/netpulse-capture/src/recording.rs:240-249 | whatever a payload level is taken to permit, every frame read back from the sealed recording is permitted at its level if and only if every frame handed to the recorder was: the recorder enforces nothing |
| `SealedFiles.ManifestAgrees` | crates/netpulse-capture/src/recording.rs:270-285 | the manifest is right about containing payloads exactly when the level is full payload just if some captured frame bears payload |
| `SealedFiles.MetadataOnlyKeepsPayload` | crates/netpulse-capture/src/recording.rs:240-249 | a metadata-only recording of a frame of 55 bytes reads back with all of them, under a manifest that denies payloads |
| `SealedFiles.CutSealedFile` | crates/netpulse-capture/src/recording.rs:156-180 | any byte cut of a sealed file is an error until the manifest and the header blocks are whole, and from there holds the data of the frames before the cut, with the imported times exactly when those fit, and exact seeks when clocks are in step |
| `FileSource.FileCapture.FromPcap` | crates/netpulse-capture/src/file_source.rs:40-66 | imports every record with its time since the first, its wall time and its bytes |
| `FileSource.WallExact` | crates/netpulse-capture/src/file_source.rs:43-53 | the imported wall time is the record's exactly when its nanoseconds fit 64 bits; it wraps otherwise |
| `FileSource.FileCapture.SetBatchSize` | crates/netpulse-capture/src/file_source.rs:84-86 | a batch size of zero becomes one |
| `FileSource.FileCapture.NextBatch` | crates/netpulse-capture/src/file_source.rs:92-100 | the next batch is the next stretch of frames, as long as the batch size allows |
| `FileSource.FileCapture.Drain` | crates/netpulse-capture/src/file_source.rs:92-100 | batches until the empty one are every remaining frame once, in order, for every batch size |
| `Replay.DecodedFit` | crates/netpulse-capture/src/replay.rs:57-66 | every record the reader returns has a wall time that fits 64 bits, so the clock arithmetic of replay cannot overflow |
| `Replay.ReplaySource.FromParsed` | crates/netpulse-capture/src/replay.rs:55-80 | the replayed frames and wall times of a parsed recording |
| `Replay.ReplaySource.FromRecording` | crates/netpulse-capture/src/replay.rs:52-81 | loads exactly when the frame data parses, passing on its error otherwise |
| `Replay.ReplaySource.SetBatchSize` | crates/netpulse-capture/src/replay.rs:94-97 | a batch size of zero becomes one |
| `Replay.ReplaySource.NextBatch` | crates/netpulse-capture/src/replay.rs:111-121 | the next batch is the next stretch of frames |
| `Replay.ReplaySource.Drain` | crates/netpulse-capture/src/replay.rs:111-121 | batches until the empty one are every remaining frame once, in order, for every batch size |
| `Replay.ReplayEqualsImport` | crates/netpulse-capture/src/replay.rs:52-81 | over a sealed recording, whole or cut anywhere past its headers, link type and bytes are those of importing the recorded frames up to the cut; the wall times are exactly when the nanoseconds of every record's whole seconds fit 64 bits, normalised or not, and then the replayed frames and times are the imported ones |
| `Replay.WallOnDisk` | crates/netpulse-capture/src/replay.rs:57-66 | writing and reading keeps a record's wall time exactly when the nanoseconds of its whole seconds fit 64 bits |
| `Replay.CutRecording` | crates/netpulse-capture/src/replay.rs:52-57 | a sealed recording whose frame data is cut reads as the stored frames up to the cut, with the times the file keeps |
| `Replay.WholeRecording` | crates/netpulse-capture/src/replay.rs:52-57 | a sealed recording reads as the stored frames with the times the file keeps, which are the stored ones exactly when every timestamp is representable |
| `Replay.ReplayController.Load` | crates/netpulse-capture/src/replay.rs:172-180 | a fresh controller stands at frame 0, paused, at normal speed |
| `Replay.ReplayController.FromRecording` | crates/netpulse-capture/src/replay.rs:160-181 | loads the times since the first frame, the manifest checkpoints and the truncation flag |
| `Replay.ReplayController.Play` | crates/netpulse-capture/src/replay.rs:183-185 | playing is switched on and nothing else changes |
| `Replay.ReplayController.Pause` | crates/netpulse-capture/src/replay.rs:188-190 | playing is switched off and nothing else changes |
| `Replay.ReplayController.SetSpeed` | crates/netpulse-capture/src/replay.rs:192-196 | the speed is clamped to 1..10000 percent |
| `Replay.ReplayController.Step` | crates/netpulse-capture/src/replay.rs:198-204 | one frame on, saturating at the last |
| `Replay.ReplayController.Seek` | crates/netpulse-capture/src/replay.rs:206-225 | lands on the specified index; its loop runs from the checkpoint frame to there |
| `Replay.ReplayController.State` | crates/netpulse-capture/src/replay.rs:227-236 | the reported position is the time of the frame the cursor is on |
| `Replay.NewestAt` | crates/netpulse-capture/src/replay.rs:211-217 | the start frame is the largest among the checkpoints at or before the target |
| `Replay.AdvanceLands` | crates/netpulse-capture/src/replay.rs:219-223 | on ordered times the advance loop stops at the last frame at or before the target |
| `Replay.SeekExact` | crates/netpulse-capture/src/replay.rs:206-225 | a seek agrees with the linear scan exactly when the frame it starts from is not after the target |
| `Replay.SeekExactForAll` | crates/netpulse-capture/src/replay.rs:206-225 | every seek is exact if and only if no checkpoint is earlier than the frame it leads to |
| `Replay.SeekOnAnyClock` | crates/netpulse-capture/src/replay.rs:206-225 | on any times, also where the wall clock steps back, a seek agrees with the linear scan exactly when no frame up to the one it starts from, after the first, is past the target; otherwise it lands beyond it |
| `Replay.SeekForAllOnAnyClock` | crates/netpulse-capture/src/replay.rs:206-225 | on any times every seek is exact if and only if no checkpoint is earlier than a frame up to the one it leads to |
| `Replay.SeekEndToEnd` | crates/netpulse-capture/src/replay.rs:160-224 | after push, finalize and load: all seeks are exact if and only if no checkpointed frame has a monotonic time behind its wall time since the first frame |
| `Replay.SeekEndToEndOnAnyClock` | crates/netpulse-capture/src/replay.rs:160-224 | the same after push, finalize and load, for every wall clock |
| `Replay.SeekExactWhenInStep` | crates/netpulse-capture/src/replay.rs:160-224 | with clocks in step from any starting offset every seek lands on the last frame at or before the target, also on recordings cut anywhere past the headers |
| `Replay.SeekCost` | crates/netpulse-capture/src/replay.rs:206-223 | with clocks in step and a checkpoint every k frames, every seek advances at most k-1 frames precisely when the first monotonic time is zero or there are at most k frames |
| `Replay.SeekIsFar` | crates/netpulse-capture/src/replay.rs:206-223 | from any nonzero offset some seek scans at least a whole checkpoint spacing |
| `Replay.LoadedArePrefix` | crates/netpulse-capture/src/replay.rs:160-171 | a cut recording loads a prefix of the recorded times |
| `Shed.ShedController.constructor` | crates/netpulse-capture/src/lib.rs:122-128 | starts at full fidelity with the computed thresholds of the capacity |
| `Shed.ThresholdsComputed` | crates/netpulse-capture/src/lib.rs:98-109 | the computed thresholds are the percentages of the capacity exactly when 95 times the capacity fits 64 bits; the products wrap otherwise |
| `Shed.ShedController.Update` | crates/netpulse-capture/src/lib.rs:135-182 | moves to the next stage for the observed length |
| `Shed.ShedController.ShouldSample` | crates/netpulse-capture/src/lib.rs:186-189 | the counter wraps and every second packet is kept |
| `Shed.StepCrosses` | crates/netpulse-capture/src/lib.rs:135-182 | an update moves at most one level, and only across the threshold for that move |
| `Shed.UpdateExactly` | crates/netpulse-capture/src/lib.rs:98-182 | for every capacity, length and stage where the update goes: up at 50, 75, 90 and 95 percent, down below 45, 70, 85 and 90, and nowhere otherwise |
| `Shed.BandWidth` | crates/netpulse-capture/src/lib.rs:98-109 | each escalation threshold is at least a twentieth of the capacity above its fall-back |
| `Shed.CreditStep` | crates/netpulse-capture/src/lib.rs:135-182 | the movement of one update pays for the distance it gains towards a reversal, and a reversal pays a whole band on top |
| `Shed.MovementBound` | crates/netpulse-capture/src/lib.rs:135-182 | the same over a run, from any stage and any last direction |
| `Shed.FlappingCosts` | crates/netpulse-capture/src/lib.rs:135-182 | over any run, r direction reversals among the stage changes cost at least r*(capacity/20 + 1) of summed buffer movement |
| `Shed.FlappingCostIsAttained` | crates/netpulse-capture/src/lib.rs:135-182 | that bound is attained for every r and every capacity divisible by 20 |
| `Shed.ConstantLengthSettles` | crates/netpulse-capture/src/lib.rs:135-182 | with a constant length the stage moves one way only and is fixed within four updates |
| `Shed.ThresholdsOrdered` | crates/netpulse-capture/src/lib.rs:98-109 | the thresholds of every capacity are ordered |
| `Shed.SamplingIsHalf` | crates/netpulse-capture/src/lib.rs:184-189 | of any n consecutive packets half are kept, whatever the counter |
| `Transport.HeaderCodec` | crates/netpulse-capture-svc/src/transport.rs:49-97 | twelve bytes are accepted as a header exactly when they are what that header writes and validation has no complaint |
| `Transport.HeaderForward` | crates/netpulse-capture-svc/src/transport.rs:49-97 | the bytes of any header are read as that header or give the first complaint about it |
| `Transport.HeaderLayout` | crates/netpulse-capture-svc/src/transport.rs:35-58 | a new header is the characters NPFL, version 1, the flags, two zero bytes and the length |
| `Transport.HeaderChecks` | crates/netpulse-capture-svc/src/transport.rs:59-97 | which twelve bytes are refused with which error, in the order of the checks, with the limit of 10,485,760 bytes |
| `Transport.StatsCodec` | crates/netpulse-capture-svc/src/transport.rs:110-130 | sixteen bytes parse as statistics exactly when they are what they write and the reserved field is zero |
| `Transport.PushFrame` | crates/netpulse-capture-svc/src/transport.rs:171-178 | appends the metadata and data of one frame |
| `Transport.EncodePayload` | crates/netpulse-capture-svc/src/transport.rs:164-180 | the payload is the batch head and the frames in order |
| `Transport.DecodeFrames` | crates/netpulse-capture-svc/src/transport.rs:234-264 | the offset loop computes the recursive frame parse, with its errors |
| `Transport.DecodeBatchView` | crates/netpulse-capture-svc/src/transport.rs:209-272 | the decoder computes the specified batch or the first error, for every buffer; the room it reserves for the announced count is left out |
| `Transport.CountIsCovered` | crates/netpulse-capture-svc/src/transport.rs:234-240 | a payload that announces more frames than its bytes can hold, at 28 a frame, is refused |
| `Transport.PayloadForward` | crates/netpulse-capture-svc/src/transport.rs:164-272 | decoding an encoded batch followed by anything returns it exactly when captured lengths are the data lengths, none exceeds its wire length and the reserved field is zero |
| `Transport.PayloadBackward` | crates/netpulse-capture-svc/src/transport.rs:209-272 | whatever the decoder accepts, re-encoding the result gives a prefix of the buffer |
| `Transport.FramesForward` | crates/netpulse-capture-svc/src/transport.rs:171-264 | the same for the frame list |
| `Transport.FramesBackward` | crates/netpulse-capture-svc/src/transport.rs:234-264 | an accepted frame list re-encodes to the bytes it was read from |
| `Client.IpcCaptureSource.constructor` | crates/netpulse-capture-svc/src/client.rs:37-47 | a new client has seen and counted nothing |
| `Client.IpcCaptureSource.ReadExact` | crates/netpulse-capture-svc/src/client.rs:56-77 | all of the bytes, or none of them and how the stream ended: closed, or a transport error |
| `Client.IpcCaptureSource.ReadNextBatch` | crates/netpulse-capture-svc/src/client.rs:55-132 | one read returns the specified batch or error and leaves the specified stream and counters |
| `Client.IpcCaptureSource.AcceptFrames` | crates/netpulse-capture-svc/src/client.rs:105-129 | the frame loop counts gaps and receptions and converts every frame |
| `Client.ReadFramed` | crates/netpulse-capture-svc/src/client.rs:55-132 | reading a framed batch returns its frames and leaves what follows |
| `Client.CutStream` | crates/netpulse-capture-svc/src/client.rs:55-132 | for any byte cut of any stream of framed batches: up to the first batch over 10 MiB exactly the whole batches are returned and counted, and the end is the stream's own under 12 leftover bytes, otherwise an error; with that batch's header in the cut, exactly the batches before it and then its refusal |
| `Client.WholeStream` | crates/netpulse-capture-svc/src/client.rs:55-132 | a whole stream gives exactly the batches before the first one over the limit, and its refusal if there is one |
| `Client.ReadRefused` | crates/netpulse-capture-svc/src/client.rs:68-71 | twelve bytes of a batch over the limit are enough for it to be refused |
| `Client.DrainsIsReads` | crates/netpulse-core/src/traits.rs:20-24 | where no batch is empty, stopping at the first empty read, as the capture contract says, reads all there is |
| `Client.WholeBatchesLongest` | crates/netpulse-capture-svc/src/client.rs:55-132 | the batches returned from a cut are the longest prefix that fits |
| `Client.BatchingIsInvisible` | crates/netpulse-capture-svc/src/client.rs:105-129 | without statistics the counters do not depend on how frames are batched |
| `Client.CountIncreasing` | crates/netpulse-capture-svc/src/client.rs:106-122 | over increasing numbers the dropped count is the span less the frames, never saturating |
| `Client.GapIs` | crates/netpulse-capture-svc/src/client.rs:106-109 | a frame numbered past the next expected one counts the numbers in between as missing, any other none, but after the largest number |
| `Client.LastBatchKept` | crates/netpulse-capture-svc/src/client.rs:98 | the batch number kept is that of the last batch read |
| `Client.AccountConserves` | crates/netpulse-capture-svc/src/client.rs:85-129 | over stats-free batches with increasing frame numbers received plus dropped is last minus first plus one, precisely unless all 2^64 numbers occur |
| `Daemon.ShedFrame` | crates/netpulse-capture-svc/src/daemon.rs:216-221 | what is left of a frame at a stage, and how the sampling counter moves |
| `Daemon.SendRaw` | crates/netpulse-capture-svc/src/daemon.rs:208-279 | at any stage one raw batch becomes numbered batches of the surviving frames in order, all but the last of exactly max_batch_size frames (one if that is zero), none empty or longer |
| `Daemon.CaptureWorkerLoop` | crates/netpulse-capture-svc/src/daemon.rs:186-280 | the worker sends a group of batches for each raw batch: its frames in order, all but the last batch of exactly max_batch_size frames (one if that is zero), with statistics exactly when its drop count differs from that of the nonempty raw batch before; the stage never leaves full fidelity |
| `Daemon.FrameBatch` | crates/netpulse-capture-svc/src/daemon.rs:117-137 | the writer puts header and payload of a batch on the stream |
| `Daemon.ThinAtFull` | crates/netpulse-capture-svc/src/daemon.rs:216-221 | at full fidelity nothing is lost |
| `Daemon.ThinSamples` | crates/netpulse-capture-svc/src/daemon.rs:219-221 | at the sampling stage one frame in two survives, counted across batches |
| `Daemon.DeliversChunks` | crates/netpulse-capture-svc/src/daemon.rs:214-279 | the batches of one raw batch deliver its frames in order, without a gap, with the statistics applied |
| `Daemon.DeliversAll` | crates/netpulse-capture-svc/src/daemon.rs:186-279 | the same over any raw batches, from any matching counters of both sides |
| `Daemon.DaemonToClient` | crates/netpulse-capture-svc/src/daemon.rs:113-279 | for all raw batches and every batch size with payloads under 2^32 bytes: the client gets exactly the batches before the first whose payload is over 10 MiB and refuses that one; delivery is complete if and only if there is none, and then every raw frame is read once and in order, all are counted received, no gap is counted and dropped is the largest kernel count at a nonempty raw batch |
| `Daemon.LongFramesAreRefused` | crates/netpulse-platform/src/npcap.rs:44-51 | 256 frames of 65,535 bytes, the device's longest, at the default batch size: nothing is delivered and the reading ends in a refused header |
| `Daemon.ProducedWellFormed` | crates/netpulse-capture-svc/src/daemon.rs:222-264 | whatever the worker sends with payloads under 2^32 bytes is well formed, over the limit or not |
| `Daemon.LargestDropsExact` | crates/netpulse-capture-svc/src/daemon.rs:210-212 | that drop count is attained at a nonempty raw batch, or zero, and none is larger |
| `Daemon.BatchesNumbered` | crates/netpulse-capture-svc/src/daemon.rs:235-259 | batches are numbered one after another over the whole session |
| `Daemon.ProducedNotEmpty` | crates/netpulse-capture-svc/src/daemon.rs:204-279 | the worker never sends an empty batch |
| `Daemon.EmptyReadIsTheEnd` | crates/netpulse-capture-svc/src/daemon.rs:204-279 | on the daemon's stream, cut anywhere and whatever its payload lengths, a client that stops at the first empty read misses nothing it could read |
| `Daemon.SmallFramesFit` | crates/netpulse-capture-svc/src/daemon.rs:214-279 | with at most 256 frames of at most 40,931 bytes a batch every payload is within 10 MiB |
| `Daemon.SmallFramesArrive` | crates/netpulse-capture-svc/src/daemon.rs:113-279 | with max_batch_size at most 256 and no frame longer than 40,931 bytes every frame of every pull reaches the client, in order and counted |
| `Daemon.ThinOneIs` | crates/netpulse-capture-svc/src/daemon.rs:216-221 | what each stage leaves of a frame: all of it, its first 54 bytes, or, at the sampling stage, those of every second frame |
| `Pipe.StepKeepsOrder` | crates/netpulse-capture-svc/src/daemon.rs:94-147 | no step of worker, channel, writer (with writes and flushes that fail) or stop flag loses, duplicates or reorders a batch |
| `Pipe.AlwaysInOrder` | crates/netpulse-capture-svc/src/daemon.rs:94-147 | so in every reachable state of every interleaving, and the channel never holds more than 128 |
| `Pipe.ChannelFills` | crates/netpulse-capture-svc/src/daemon.rs:94-96 | the worker can be 128 batches ahead of the writer, and no further |
| `Pipe.ReaderSeesPrefix` | crates/netpulse-capture-svc/src/daemon.rs:113-147 | at every moment the client can have read exactly some whole number of the first batches, none over the limit, and what stops it is the stream's end, a batch not yet whole or one over the limit, never corruption |
| `Pipe.CleanEndIsComplete` | crates/netpulse-capture-svc/src/daemon.rs:113-162 | a writer that ends without a write error and without an outside stop has written everything |
| `Pipe.CaptureToPipeline` | crates/netpulse-capture-svc/src/daemon.rs:113-279 | under every interleaving what has been read is a prefix of the raw frames in capture order; after a clean end it is all of them exactly when no payload is over the limit, and otherwise the batches before the first that is |
| `GeoIntervals.MergeIntervals` | scripts/build-geoip-db.ts:263-277 | the in-place merge computes the specified list |
| `GeoIntervals.MergePreserves` | scripts/build-geoip-db.ts:263-277 | merging a sorted, disjoint, in-range table keeps the record of every address and leaves no mergeable neighbours |
| `GeoIntervals.CompactIsFixed` | scripts/build-geoip-db.ts:263-277 | merging again changes nothing |
| `GeoIntervals.CompactUnique` | scripts/build-geoip-db.ts:263-277 | two compact tables with the same lookups are equal |
| `GeoIntervals.MergeCanonical` | scripts/build-geoip-db.ts:263-277 | two tables merge to the same list if and only if they have the same lookup function |
| `GeoIntervals.LookupFinds` | scripts/build-geoip-db.ts:263-277 | in a table an address has the record of the one interval that contains it |
| `GeoIntervals.ValidateIntervals` | scripts/build-geoip-db.ts:193-218 | the validator reports the first violation, in its own order of checks |
| `GeoIntervals.ValidatorIsExact` | scripts/build-geoip-db.ts:193-218 | the validator, comparing neighbours only, accepts exactly the sorted, disjoint, in-range tables without mergeable neighbours |
| `GeoIntervals.CompilerAccepts` | scripts/build-geoip-db.ts:193-277 | merge then validate accepts a sorted in-range list exactly when neighbours are disjoint, but for the whole address space listed repeatedly with one record |
| `GeoIntervals.SubsumedChecks` | scripts/build-geoip-db.ts:209-212 | the order and duplicate checks never speak: what they look for is reported as an overlap first |
| `GeoIntervals.ViolationIsTrue` | scripts/build-geoip-db.ts:197-216 | the violation reported is the first, and what it says is true of its interval |
| `GeoIntervals.MergeAsnIntervals` | scripts/build-geoip-db.ts:279-294 | the AS merge computes the specified list |
| `GeoIntervals.AsnMergeIsKeyed` | scripts/build-geoip-db.ts:285-287 | on number and organisation the AS merge is the record merge |
| `GeoIntervals.AsnMergeKeepsNumbers` | scripts/build-geoip-db.ts:279-294 | every address keeps its AS number and organisation, or has none before and after |
| `GeoIntervals.AsnNeighboursDiffer` | scripts/build-geoip-db.ts:285-287 | neighbours that still touch differ in AS number or organisation |
| `GeoIntervals.AsnMergePreserves` | scripts/build-geoip-db.ts:279-294 | every address keeps its whole AS record if and only if no touching equal-keyed neighbours differ in the AS name |
| `GeoIntervals.AsnMergeCanonical` | scripts/build-geoip-db.ts:279-294 | the AS merge is canonical in what it compares |
| `GeoIntervals.AsnMergedIsAccepted` | scripts/build-geoip-db.ts:193-294 | a merged AS table passes validation, which compares whole records |
| `Cidr.CidrArithmetic` | scripts/build-geoip-db.ts:150-152 | mask, base and complement by 32-bit operators give the block base - base mod 2^(32-p) .. that + 2^(32-p) - 1 |
| `Cidr.CidrBlock` | scripts/build-geoip-db.ts:144-154 | accepted exactly for a parsed base and a prefix in 0..32; an aligned block of 2^(32-p) addresses that contains its base |
| `Cidr.Laminar` | scripts/build-geoip-db.ts:144-154 | two CIDR blocks are disjoint exactly when neither contains the other |
| `Cidr.CompileAnycast` | scripts/build-geoip-db.ts:393-416 | compiles exactly when no record has a complaint, reporting the first one; the result is sorted and is, as often each, the prefixes of the records whose CIDR parses |
| `Cidr.ListedExactly` | scripts/build-geoip-db.ts:405-412 | one prefix for every record whose CIDR parses, in their order, with that record's range, provider, service, source and text |
| `Cidr.ComplaintIs` | scripts/build-geoip-db.ts:397-410 | which record is refused with which error; one whose CIDR does not parse is not looked at further |
| `Cidr.SortSorts` | scripts/build-geoip-db.ts:414 | the sort orders the prefixes by start |
| `Cidr.SortPermutes` | scripts/build-geoip-db.ts:414 | the sort keeps every prefix as often as it was listed |
| `Cidr.ValidateAnycast` | scripts/build-geoip-db.ts:241-257 | reports the first violation, or none |
| `Cidr.NeighboursDecide` | scripts/build-geoip-db.ts:251-255 | on a list sorted by start comparing neighbours decides about all pairs |
| `Cidr.OverlapCheckIsExact` | scripts/build-geoip-db.ts:251-255 | the neighbour-only overlap check on the sorted output passes exactly when no listed CIDR contains another listed one |
| `Attribution.Correlator.constructor` | crates/netpulse-engine/src/attribution.rs:99-101 | a new correlator has cached nothing |
| `Attribution.Correlator.IngestSnapshot` | crates/netpulse-engine/src/attribution.rs:106-137 | the cache becomes a possible result of inserting the owners in order and applying the ceiling |
| `Attribution.Correlator.EvictExpired` | crates/netpulse-engine/src/attribution.rs:286-291 | exactly the mappings whose window ended are dropped and counted |
| `Attribution.Correlator.DropOldest` | crates/netpulse-engine/src/attribution.rs:123-135 | removes down to the ceiling, and nothing newer than what it keeps |
| `Attribution.Correlator.ListByAge` | crates/netpulse-engine/src/attribution.rs:124-128 | lists every cached tuple once with its observation time |
| `Attribution.Correlator.Attribute` | crates/netpulse-engine/src/attribution.rs:148-273 | the answer is the judgement over the live candidates |
| `Attribution.Correlator.CollectMatches` | crates/netpulse-engine/src/attribution.rs:215-243 | the temporal filter keeps exactly the candidates whose window contains the flow start |
| `Attribution.PickTop` | crates/netpulse-engine/src/attribution.rs:245-272 | ranking and the ambiguity guard compute the judgement |
| `Attribution.NeverGuesses` | crates/netpulse-engine/src/attribution.rs:148-273 | a process is named if and only if some live candidate outranks or equals all live ones and all of its rank agree; then it is that candidate's process, with the confidence of the first of that rank; otherwise unknown |
| `Attribution.AnswerIsPlain` | crates/netpulse-engine/src/attribution.rs:148-273 | for every cache, flow and start the ranking comes to this: the flow's own key, then the reversed one; for UDP then the listeners at either end's address, then those at any address; two of one kind that disagree, or none, leave it unknown; sure exactly if the flow started at or after the observation and the key is no wildcard |
| `Attribution.NamedFromSnapshot` | crates/netpulse-engine/src/attribution.rs:106-273 | over any sequence of snapshots and evictions, in any order of times: a named process and start time are those given by the last snapshot entry for one of the flow's keys, taken at most one second after the flow started and less than two seconds before |
| `Attribution.OnlyForgets` | crates/netpulse-engine/src/attribution.rs:106-137 | however full the cache, it never holds anything but the latest entry for a tuple |
| `Attribution.ExactDecides` | crates/netpulse-engine/src/attribution.rs:158-174 | a live exact key decides, the flow's own before the reversed one |
| `Attribution.DirectionMatters` | crates/netpulse-engine/src/attribution.rs:148-273 | which end a flow is seen from changes its owner exactly when both exact keys are live and name different processes |
| `Attribution.IngestBounded` | crates/netpulse-engine/src/attribution.rs:118-136 | after every ingest at most 100,000 tuples are cached, and what was removed is no newer than what was kept, but for a mapping whose own window end wraps |
| `Attribution.RunAgrees` | crates/netpulse-engine/src/attribution.rs:106-137 | over any run with nondecreasing times whose open windows fit under the ceiling, only mappings whose window has ended are missing |
| `Attribution.PrunedRefinesUnpruned` | crates/netpulse-engine/src/attribution.rs:106-291 | then every flow starting at or after the latest event is attributed as by the cache that never evicts |
| `Attribution.ForgettingIsExact` | src-tauri/src/main.rs:1358-1363 | over all such runs up to a time, flows of a start are attributed as without eviction exactly when they start at or after that time or it is before two seconds, the validity of a mapping |
| `Attribution.EvictionForgetsEarlierFlows` | src-tauri/src/main.rs:1358-1363 | for every other pair of times some run forgets a flow that the unpruned cache attributes |
| `ChunkedBody.ChunkedReader.constructor` | src-tauri/src/http_bridge.rs:465-471 | what remains to be read is the initial buffer and then what the connection delivers |
| `ChunkedBody.ChunkedReader.FillBufferIfNeeded` | src-tauri/src/http_bridge.rs:473-491 | refilling does not change what remains; without success nothing remains |
| `ChunkedBody.ChunkedReader.ReadByte` | src-tauri/src/http_bridge.rs:493-504 | the first remaining byte, or the error of the ending |
| `ChunkedBody.ChunkedReader.ReadLine` | src-tauri/src/http_bridge.rs:506-527 | the first remaining line, or its error, whatever the read boundaries |
| `ChunkedBody.ChunkedReader.ReadExact` | src-tauri/src/http_bridge.rs:529-547 | fills the destination with the next bytes exactly when that many remain |
| `ChunkedBody.ChunkedReader.CopyAvailable` | src-tauri/src/http_bridge.rs:539-544 | copies a nonempty stretch of what remains to its place and leaves what was copied before |
| `ChunkedBody.CopyInto` | src-tauri/src/http_bridge.rs:541-542 | overwrites that part of the destination and nothing before it |
| `ChunkedBody.ReadTrailers` | src-tauri/src/http_bridge.rs:574-579 | reads lines up to the first blank one |
| `ChunkedBody.ReadChunkedBody` | src-tauri/src/http_bridge.rs:550-607 | however the bytes are split between the initial buffer and reads of 1..1024 bytes, the result is one function of the whole byte stream |
| `ChunkedBody.LineReads` | src-tauri/src/http_bridge.rs:506-527 | a sendable line followed by CRLF is read back whole |
| `ChunkedBody.SizeLineMeans` | src-tauri/src/http_bridge.rs:558-570 | hexadecimal digits of either case, with leading zeros, a plus sign, white space around them and any extension, mean their value |
| `ChunkedBody.TrailersRead` | src-tauri/src/http_bridge.rs:574-579 | well-formed trailer lines are read to the blank line |
| `ChunkedBody.ChunkReads` | src-tauri/src/http_bridge.rs:583-603 | one framed chunk joins the body, or is refused when the total would exceed the limit |
| `ChunkedBody.FramedDecodes` | src-tauri/src/http_bridge.rs:550-607 | a body framed per section 7.1 of RFC 9112 decodes to the concatenation of its chunks exactly when they total at most 2 MiB, and is otherwise refused as too large, whatever follows it |
| `ChunkedBody.OverflowIsExact` | src-tauri/src/http_bridge.rs:583-589 | after framed chunks of total length k, a size line n past the limit is refused as too large while k + n fits 64 bits and overflows exactly when it does not, never at the first chunk |
| `ChunkedBody.CutFails` | src-tauri/src/http_bridge.rs:550-607 | no proper cut of a framed body is taken for a shorter body |
| `ChunkedStreams.DecodedExactly` | src-tauri/src/http_bridge.rs:550-607 | a body is returned if and only if the stream starts with blank lines and chunks carrying it, a size-zero line, trailers and a blank line, and the body is within 2 MiB |
| `ChunkedFailures.RefusedExactly` | src-tauri/src/http_bridge.rs:506-607 | every other stream is refused, with each error exactly under its condition: after whole pieces a line or trailer that is cut, too long or no text, a line that is neither blank nor a size, data past 2 MiB or past 64 bits, cut data, or data not closed by CRLF |
| `ChunkedFailures.LineFailsExactly` | src-tauri/src/http_bridge.rs:506-527 | a line fails exactly when the stream ends first, more than 1024 bytes come before a line feed, or it is no valid text |
| `ChunkedFailures.HexOfReads` | src-tauri/src/http_bridge.rs:563 | every number written in hexadecimal of either case reads as itself |
| `ChunkedFailures.SpaceIsWhite` | src-tauri/src/http_bridge.rs:559-563 | what is trimmed from a start is exactly the white space characters of Unicode in UTF-8 |
| `ChunkedFailures.SpaceAtEndIsWhite` | src-tauri/src/http_bridge.rs:559-563 | and so is what is trimmed from an end |
| `ChunkedFailures.LettersDecode` | src-tauri/src/http_bridge.rs:550-607 | a body of three letters, its framing written out byte by byte |
| `ChunkedStreams.LineExactly` | src-tauri/src/http_bridge.rs:506-527 | a line is read exactly when at most 1024 bytes without a line feed, of valid text but for one carriage return at their end, stand before a line feed |
| `ChunkedStreams.SizeExactly` | src-tauri/src/http_bridge.rs:558-570 | a line says a size exactly when it is digits of that value, signed or not, within white space and before an extension |
| `ChunkedStreams.BlankIsSpaces` | src-tauri/src/http_bridge.rs:558-561 | a line is skipped, or ends the trailers, exactly when it is white space from either end |
| `Dns.ReadName` | crates/netpulse-decode/src/dns.rs:113-160 | the name loop computes the specified name within 145 turns, and a returned offset is past the start and within the message |
| `Dns.NextInBounds` | crates/netpulse-decode/src/dns.rs:113-160 | the same bound on the specification, from any state of the loop |
| `Dns.SpelledIsRead` | crates/netpulse-decode/src/dns.rs:113-160 | a name the message spells with at most 16 pointers and 128 labels of valid text is read as its labels in order and the offset past its part in place |
| `Dns.ReadIsSpelled` | crates/netpulse-decode/src/dns.rs:113-160 | whatever is read is spelled by the message within those caps |
| `Dns.NamesExact` | crates/netpulse-decode/src/dns.rs:113-160 | so a name is read if and only if the message spells it within the caps |
| `Dns.TextDetermines` | crates/netpulse-decode/src/dns.rs:158-159 | the dotted text of a name tells its labels when no label has a dot in it or is empty |
| `Dns.DottedCollides` | crates/netpulse-decode/src/dns.rs:158-159 | a label with a dot in it gives the same text as the two labels around that dot |
| `Dns.PointersAre` | crates/netpulse-decode/src/dns.rs:128-141 | a byte whose top two bits are set points, with the next one, at an offset of fourteen bits |
| `Dns.FieldsAre` | crates/netpulse-decode/src/dns.rs:28-36 | fields of two and four bytes are in network byte order |
| `Dns.DataByType` | crates/netpulse-decode/src/dns.rs:76-96 | data of type 1 and four bytes or type 28 and sixteen is an address, of type 5 a name; nothing else adds anything |
| `Dns.HeaderBits` | crates/netpulse-decode/src/dns.rs:24-52 | only messages of twelve bytes or more with operation code zero are dissected; response flag, response code and counts are read from their bits |
| `Dns.WrittenReads` | crates/netpulse-decode/src/dns.rs:113-160 | labels of 1 to 63 bytes encoded per section 4.1.4 of RFC 1035, ended by the root or a pointer to a readable suffix, read back with the suffix appended |
| `Dns.ReadQuestions` | crates/netpulse-decode/src/dns.rs:39-53 | all the questions or nothing; every turn moves forward within the message |
| `Dns.ReadAnswers` | crates/netpulse-decode/src/dns.rs:55-99 | the answers before the first malformed one; each moves the reader on by at least eleven bytes, to a position within the message where no further answer can be read |
| `Dns.ReadData` | crates/netpulse-decode/src/dns.rs:76-96 | what the resource data adds to an answer |
| `Dns.Dissect` | crates/netpulse-decode/src/dns.rs:24-107 | the dissector computes the specified result for every message |
| `DnsMessages.QuestionsRead` | crates/netpulse-decode/src/dns.rs:39-53 | written questions read back |
| `DnsMessages.AnswerReads` | crates/netpulse-decode/src/dns.rs:55-99 | a written answer reads back with its address, canonical name or neither, and its time to live |
| `DnsMessages.AnswersRead` | crates/netpulse-decode/src/dns.rs:55-99 | written answers read back |
| `DnsMessages.NameReads` | crates/netpulse-decode/src/dns.rs:113-160 | a name whose written labels and pointer target spell its intended labels is read as their text |
| `DnsMessages.MessageRoundTrip` | crates/netpulse-decode/src/dns.rs:24-107 | a standard-query message whose names all stand for their intended labels, in full or by pointer, dissects to exactly the dotted texts of those labels, the addresses, flag and code meant |
| `DnsMessages.EmitSpells` | crates/netpulse-decode/src/dns.rs:113-160 | a name compressed against the names before it, and every suffix of it, spells its labels through at most 16 pointers |
| `DnsMessages.EmitStands` | crates/netpulse-decode/src/dns.rs:113-160 | so it stands for its labels |
| `DnsMessages.EncodedIsDissected` | crates/netpulse-decode/src/dns.rs:24-107 | a whole message encoded with every name compressed against those before it (section 4.1.4 of RFC 1035) dissects to exactly the questions and answers given, names as dotted text, whatever follows it |
| `ProbeGate.StepKeepsSound` | src-tauri/src/main.rs:272-318 | every atomic step keeps the counter equal to the live permits and at most four |
| `ProbeGate.CounterIsLivePermits` | src-tauri/src/main.rs:272-318 | so in every run of any number of threads, with spurious exchange failures and permits handed between threads |
| `ProbeGate.PermitsConserved` | src-tauri/src/main.rs:272-318 | acquisitions equal releases plus the counter, so they are at most four ahead |
| `ProbeGate.ObservedAt` | src-tauri/src/main.rs:273-290 | the value about to be compared is the counter as it stood at that thread's last attempt |
| `ProbeGate.RefusedOnlyWhenFull` | src-tauri/src/main.rs:271-277 | a refusal means four permits were live when the refused thread last looked |
| `ProbeGate.NoSlotIsLost` | src-tauri/src/main.rs:272-292 | a thread left alone gets a permit exactly when fewer than four are live, and is refused exactly when four are |
| `FeedThrottle.StepKeepsSound` | src-tauri/src/main.rs:1292-1306 | every atomic step keeps the recorded emissions chained; the cell only grows, exactly at a win |
| `FeedThrottle.WinsAreSpaced` | src-tauri/src/main.rs:1292-1306 | in every run successive winners record times at least 3000 ms apart |
| `FeedThrottle.CellOnlyGrows` | src-tauri/src/main.rs:1303-1305 | the last-emit cell never goes back, over any stretch of a run |
| `FeedThrottle.EmissionsAreBounded` | src-tauri/src/main.rs:1292-1306 | at most one emission for every full 3000 ms of the clock |
| `FeedThrottle.ClockGap` | src-tauri/src/main.rs:1298-1305 | on the clock itself two emissions are at least 3000 ms apart less the first winner's delay between reading the clock and winning |
| `FeedThrottle.ClockGapIsAttained` | src-tauri/src/main.rs:1298-1305 | that gap is attained for every delay, down to two emissions at one instant |
| `FeedThrottle.AloneEmitsWhenDue` | src-tauri/src/main.rs:1292-1306 | a thread left alone emits exactly when 3000 ms have passed since the recorded time |

## Left out

- Sums and products that exceed 64 bits wrap, as they do in a release build; a debug build stops instead: a packet's
  timestamp (`crates/netpulse-capture/src/pcapng.rs:119`), an imported wall time
  (`crates/netpulse-capture/src/file_source.rs:46-50`), the shed thresholds (`crates/netpulse-capture/src/lib.rs:101-107`), the
  end of a mapping's window (`crates/netpulse-engine/src/attribution.rs:221`, `289`) and the client's successor of a number
  (`crates/netpulse-capture-svc/src/client.rs:87`, `109`).
- ChunkedBody.ReadChunkedBody: where the size sum exceeds 64 bits (`src-tauri/src/http_bridge.rs:583`) it returns an outcome of
  its own, `SizeOverflow`, for a process that stops: a debug build at the sum; a release build past it, because the sum wraps
  below the start of the slice taken at line 593 and the release profile aborts on a panic. `ChunkedBody.OverflowIsExact`
  says when.
- Transport.DecodeBatchView: room is reserved for the announced number of frames before any is checked
  (`crates/netpulse-capture-svc/src/transport.rs:234`), about 200 GB for twelve bytes that announce 2^32 - 1 of them, which may
  stop the process. The model returns the error that follows. A count that the buffer can hold is covered by it, and any other
  is refused (`Transport.CountIsCovered`).
- Daemon.DaemonToClient: payloads of 2^32 bytes or more, whose length field wraps, are excluded. With frames of at most 65,535
  bytes that takes a batch size above 65,000.
- Recording manifests: the JSON text is any encoding with an inverse. Checking pins at replay is one comparison.
- The classic pcap reader (`crates/netpulse-capture/src/pcap.rs`): per-record bounds checks only; the model starts from its records.
- A negative if_tsresol exponent is computed in floating point by the source; since 10^9 divided by a power of two is exact
  there, the model uses the integer quotient.
- The `FrameFeed` trait and accessors such as `wall_nanos_at`: they only forward to what is modelled.
- `run_stream` always returning: the receiver is still alive while the worker may be blocked on a full channel, so only
  safety is stated. Opening the device, tracing and daemon states are not modelled; a raw batch stands for one successful pull.
- Pipe.CleanEndIsComplete: is stated for runs no one stops from outside, since a raised stop flag may leave batches in the channel.
- Socket streams are byte sequences with an ending, closed or broken; timeouts and partial reads inside `read_exact` only show
  in where the bytes end.
- Cidr.CompileAnycast: the URL, date and CIDR texts enter as the outcome of their check or as a parsed address and length.
- Parsing of addresses and CSV lines in the GeoIP compiler: the tables enter as parsed intervals. The latitude, country, AS
  number and address range checks compare one value with a bound, and the age check only prints a warning. The cloud
  prefix compiler is not part of this model. Record equality stands for equality of the JSON text.
- `trim` in the anycast compiler is modelled for ASCII blanks; in the chunked reader for every Unicode white space character.
- UTF-8 validity is a parameter in the chunked reader and in the DNS reader.
- Of a pcapng section header only the byte-order magic is given a meaning; the version and the section length are not.
- pcapng blocks of the obsolete packet type 2 count as unknown blocks, and no option of an enhanced packet is given a meaning.
- The DNS encoder writes labels of 1 to 63 bytes; the reader is modelled for every byte, also for label lengths 64 to 191,
  which the source accepts. A canonical name is read from the message and not bounded by its data length, as in the source.
- ProbeGate.CounterIsLivePermits: the gate and the feed throttle are state machines over sequentially consistent atomic steps, not classes;
  memory orderings weaker than that and the cancel flag are not modelled.
- `is_same_process`, `escalate`, `loses_truth`, `drop_fraction`: one-line queries.
- The order in which a hash map yields equally old mappings is left open in the correlator, as in the source.
- Flow table, sessions, storage, the engine pipeline, diagnostics, AI, education, user interface, process start and stop,
  HTTP request heads and origin checks are not part of this model.
