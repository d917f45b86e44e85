# wled-sequencer, modelled in Dafny

wled-sequencer plays an FSEQ light-show file to a WLED controller. It decodes one frame of
pixel bytes per step time and hands it to a DDP sink. A liveness monitor pings the
controller and switches a shared "streaming" flag on and off. That flag gates the player.

This project models four parts of the program:

- **the sequence-file reader** (`Fseq`, fseq.dfy):
  - the header gate of `parse`;
  - the three getters;
  - `get_frame` with all of its branches. Uncompressed slicing is one branch. The ZSTD block locator is another: the 12-bit extended block count, the walk over blocks (block 0 holds 10 frames, later blocks 256), the little-endian metadata entry, the chunk bounds with their block-0 fallback, and the slice of the decompressed block. ZLIB and unknown tags are rejected.
- **one iteration of the monitor loop** (`Monitor`, monitor.dfy). It is a step on (consecutive failures, streaming), driven by the probe result. `LivenessMonitor` holds the counter. `StreamCell` is the watch-channel value, created as `false`.
- **the playback loop** (`Playback`, playback.dfy). It relies on these pieces:
  - the frame cursor;
  - the wrap at the end;
  - the run counter;
  - the abort on a frame error;
  - the stop check on the stream state.
- **the DDP packet serialiser** (`Ddp`, ddp.dfy). It writes the fixed 4-byte prefix, a big-endian sequence number, a big-endian length, then the pixel data.

Shared pieces (`Common`, common.dfy) are:

- the integer widths;
- `Option`/`Result`;
- the little- and big-endian codecs.

The imperative parts take the source's own form:

- the block walk (`LocateBlock`);
- the chunk-bound reassignment (`LocateCompressedChunk`);
- the monitor (`LivenessMonitor.Probe` and `RunLoop`);
- the playback loop (`RunPlaybackLoop`);
- the packet builder (`CreateDdpPacket`).

Each of these is proved equal to a specification function (`Locate`, `LocateChunk`, `Step`/`Run`, `Play`, `Serialize`). The lemmas state what the program promises about those functions.

Foreign code is a parameter:

- the native header reader is `reader: seq<byte> -> HeaderRead` (a status code plus the filled-in header);
- the ZSTD decoder is `decompress: seq<byte> -> Option<seq<byte>>`. `None` covers both a failed decoder creation and a failed read.

The ping probe is an input bool. Each iteration's view of the stream-state cell and the sink's result arrive as an input `Tick`. An endless loop becomes a method over a finite sequence of probes or ticks; when those run out, playback reports `HorizonReached`.

## Model

| member | source | states |
|---|---|---|
| Common.BeU32RoundTrip | src/ddp.rs:19 | reading the four big-endian bytes of a u32 gives the number back |
| Common.BeBytesU32OfDecode | src/ddp.rs:19 | every 4 bytes are the big-endian encoding of the u32 they decode to |
| Common.BeU16RoundTrip | src/ddp.rs:21 | reading the two big-endian bytes of a u16 gives the number back |
| Common.BeBytesU16OfDecode | src/ddp.rs:21 | every 2 bytes are the big-endian encoding of the u16 they decode to |
| Fseq.Parse | src/fseq_ffi.rs:27-62 | a buffer under 32 bytes fails with BufferTooSmall, and nothing else does (the reader's answer is irrelevant then); otherwise it succeeds exactly when the reader's status is TF_OK, fails with that status otherwise, and on success keeps the buffer unchanged with the reader's header |
| Fseq.StepTime | src/fseq_ffi.rs:248-250 | the step time as i32 equals the header's 8-bit field and is never negative |
| Fseq.ChannelCount | src/fseq_ffi.rs:252-254 | returns the header's channel count |
| Fseq.FrameCount | src/fseq_ffi.rs:256-258 | returns the header's frame count |
| Fseq.ExtendedBlockCount | src/fseq_ffi.rs:126-131 | the 12-bit block count from bytes 20 and 21 is at most 4095 |
| Fseq.ExtendedBlockCountValue | src/fseq_ffi.rs:126-131 | the count equals (byte20 / 16) * 256 + byte21; its low 8 bits are byte 21 and its high part is byte 20's high nibble |
| Fseq.ExtendedBlockCountIsBitwise | src/fseq_ffi.rs:128-130 | the arithmetic count equals the 16-bit expression ((byte20 & 0xF0) << 4) \| byte21 for all byte pairs |
| Fseq.ExtendedBlockCountExample | src/fseq_ffi.rs:126-131 | bytes 0x35, 0x42 give 834 |
| Fseq.BlockCount | src/fseq_ffi.rs:126-131 | the block count of a parsed file is at most 4095 |
| Fseq.Locate | src/fseq_ffi.rs:136-168 | a located block exists (index below the block count) and really holds frame n at the given offset; locating fails exactly when there are no blocks or all blocks end before frame n; zero blocks fails with SingleStreamUnsupported |
| Fseq.LocateInBlock | src/fseq_ffi.rs:148-160 | a frame inside block k's range (frames 0-9 for block 0, 256 per later block) is located in block k at offset n minus the block's first frame |
| Fseq.LocateBeyond | src/fseq_ffi.rs:162-167 | a frame past the last block's range fails with BlockOutOfRange |
| Fseq.LocateBoundaryExample | src/fseq_ffi.rs:146-160 | with two or more blocks, frame 9 is block 0 offset 9 and frame 10 is block 1 offset 0 |
| Fseq.LocateBlock | src/fseq_ffi.rs:136-168 | the accumulating block walk returns exactly what Locate does, including the error cases |
| Fseq.ReadBlockEntry | src/fseq_ffi.rs:171-189 | fails with MetadataTableUnderflow when the table would start below 0; otherwise the entry is read at variableDataOffset - 8 * blockCount + 8 * block, lies inside the table, fails with MetadataTruncated exactly when its 8 bytes run past the buffer, and decodes two little-endian u32 values (firstFrameId, size) |
| Fseq.ChunkBounds | src/fseq_ffi.rs:194-216 | the chunk starts at channelDataOffset + firstFrameId, except for block 0 when that lies past the buffer, where it starts at channelDataOffset; it is exactly size bytes long, lies inside the buffer when handed on, and fails with ChunkOutOfBounds exactly when its end exceeds the buffer |
| Fseq.LocateChunk | src/fseq_ffi.rs:125-218 | zero blocks fail with SingleStreamUnsupported; any chunk handed to the decoder lies inside the buffer, within an existing block, at an in-block offset that block holds |
| Fseq.SliceAt | src/fseq_ffi.rs:228-235 | succeeds exactly when start + size fits the data, and then returns exactly the size bytes at start; otherwise fails with the given error |
| Fseq.Frame | src/fseq_ffi.rs:96-245 | any frame returned has channelCount bytes and an index below frameCount; every index at or past frameCount fails with FrameOutOfRange, whatever the compression |
| Fseq.UncompressedFrameExact | src/fseq_ffi.rs:105-121 | an uncompressed frame is exactly the channelCount bytes at channelDataOffset + n * channelCount, failing with UncompressedTruncated exactly when they run past the buffer |
| Fseq.ZstdLocateFails | src/fseq_ffi.rs:125-218 | a compressed frame whose chunk cannot be located fails with the locator's own error |
| Fseq.ZstdDecodeFails | src/fseq_ffi.rs:223-226 | a compressed frame fails with DecompressionFailed when the decoder rejects its chunk |
| Fseq.ZstdFrameExact | src/fseq_ffi.rs:228-235 | a compressed frame is exactly the channelCount bytes at frameInBlock * channelCount of the decoded chunk, failing with DecompressedTooShort exactly when the output is too short |
| Fseq.ZstdPipeline | src/fseq_ffi.rs:171-218 | for a located block: an underflowing table start fails, an out-of-bounds chunk fails with ChunkOutOfBounds, and a chunk within bounds is the one the locator uses |
| Fseq.OtherCompressionFails | src/fseq_ffi.rs:237-243 | ZLIB and every unknown compression tag fail |
| Fseq.ExtractionArithmeticFits | src/fseq_ffi.rs:101-112 | the frame offsets and chunk ends that get_frame computes stay below 2^64, so none of its usize additions or multiplications wrap, taking usize as 64 bits |
| Fseq.GetFrame | src/fseq_ffi.rs:96-245 | get_frame as written returns exactly Frame's result |
| Fseq.GetUncompressedFrame | src/fseq_ffi.rs:105-121 | the uncompressed branch as written returns the uncompressed frame |
| Fseq.GetZstdFrame | src/fseq_ffi.rs:122-236 | the ZSTD branch as written (locate, decode, slice) returns the compressed frame |
| Fseq.LocateCompressedChunk | src/fseq_ffi.rs:125-218 | block count, walk, metadata read and chunk bounds with the reassigned start and end give exactly LocateChunk's result |
| Monitor.Step | src/monitor.rs:50-79 | the cell changes only through a write and every write is a real change (START only from false, STOP only from true); a successful probe leaves streaming on and clears a positive counter; a failed probe while paused changes nothing; a failed probe while streaming increments the counter by exactly 1 and stops streaming exactly when it reaches 3, without resetting it |
| Monitor.StepPreservesInv | src/monitor.rs:50-79 | every step keeps "counter between 0 and 3, and streaming implies counter below 3"; from such a state a successful probe gives (0, streaming) |
| Monitor.RunPreservesInv | src/monitor.rs:48-82 | every run of probes keeps the invariant |
| Monitor.ReachableStatesKeepInv | src/monitor.rs:43-82 | from (0, false), every reachable state satisfies the invariant, so the i32 counter cannot overflow |
| Monitor.ConsecutiveFailures | src/monitor.rs:65-77 | streaming from a counter c below 3, k failures in a row keep streaming exactly while c + k < 3, and leave the counter at c + k up to the threshold |
| Monitor.PausedIgnoresFailures | src/monitor.rs:65-78 | while paused, any number of failed probes changes nothing |
| Monitor.ThreeFailuresStop | src/monitor.rs:65-77 | streaming with counter 0, three failures end paused with counter 3 |
| Monitor.TwoFailuresThenSuccess | src/monitor.rs:52-77 | streaming with counter 0, two failures then one success end streaming with counter 0 |
| Monitor.StreamCell.constructor | src/lib.rs:38 | the cell is created holding the given initial value (false for the player) |
| Monitor.StreamCell.Send | src/monitor.rs:62 | a send replaces the cell's value |
| Monitor.LivenessMonitor.constructor | src/monitor.rs:39-43 | the monitor starts with counter 0 on the given cell |
| Monitor.LivenessMonitor.Probe | src/monitor.rs:50-79 | one iteration as written moves (counter, cell) to Step's next state and makes exactly Step's write |
| Monitor.LivenessMonitor.RunLoop | src/monitor.rs:48-82 | the loop over probe results ends in Run's state |
| Monitor.Startup | src/monitor.rs:37-48 | starting from a fresh cell holding false, the monitor's state after any probes is Run from (0, false) and keeps the invariant |
| Playback.PlayFromContinues | src/playback.rs:29-66 | after a frame was sent with no end and no stop, playback is that frame followed by playback from the moved cursor and updated counter |
| Playback.RunPlaybackLoop | src/playback.rs:15-69 | the loop as written (fetch, send, advance, count, wrap or finish, stop check) produces exactly Play's outcome, requested indices, delivered frames and run count |
| Playback.RequestOrder | src/playback.rs:43-56 | the first request is at the start cursor and each next one where the cursor moved after the previous (next index, or 0 after the last); with the cursor inside the sequence all requests stay inside it; at most one request per tick, none only without ticks, and one per tick when the ticks run out |
| Playback.Delivery | src/playback.rs:31-40 | the sink receives, in order, the frame data of every request except a failed one; a failure can only be the last request and carries that frame's own error, so no later frame is requested |
| Playback.StopConditions | src/playback.rs:45-63 | playback goes past a frame only if it was not the last of a non-looping run and its tick did not read false; Finished only happens with looping off right after the last frame; Halted only at a tick that read false |
| Playback.LoopingNeverFinishes | src/playback.rs:51-53 | with looping on, playback never finishes by itself |
| Playback.FinishSkipsStopCheck | src/playback.rs:45-56 | with looping off, the last frame ends playback with Finished and one more run even when that tick reads false: the stop check is skipped |
| Playback.RunCount | src/playback.rs:43-56 | the counter grows by the number of full passes the frames sent complete, counted from the start of the current pass |
| Playback.FinishedPlaysToEnd | src/playback.rs:43-56 | with looping off, a finished playback has requested every frame from the cursor to the end, once each in order, and counted one run |
| Playback.SinkResultIgnored | src/playback.rs:33-35 | failed sink writes change nothing: playbacks whose ticks differ only in the sink result are equal |
| Playback.PlaySendsFileFrames | src/playback.rs:21-40 | playing a file requests frame 0 first; every frame sent is the file's frame at its index, has channelCount bytes and an index below frameCount; every request after the first is below frameCount |
| Playback.EmptySequenceFails | src/playback.rs:31-39 | a file with no frames fails on the first request, frame 0, with FrameOutOfRange, having sent nothing |
| Playback.SinglePass | src/playback.rs:43-56 | with looping off, a finished playback sends each frame 0 .. frameCount - 1 exactly once in order and counts one run |
| Playback.PlayRunCount | src/playback.rs:25-47 | from the start of a file, the run counter is the number of full passes the frames sent make up: runs * frameCount <= frames sent < (runs + 1) * frameCount |
| Ddp.Serialize | src/ddp.rs:10-26 | a packet is 10 + len(pixel data) bytes, starts with 0x41 0x01 0x00 0x01 and ends with the pixel data exactly |
| Ddp.Deserialize | src/ddp.rs:10-26 | reading bytes back succeeds exactly when they hold a full header with the fixed prefix, and the payload is everything after byte 10 |
| Ddp.DeserializeSerialize | src/ddp.rs:10-26 | reading a serialised packet recovers its sequence number, length and pixel data; the length is kept as given, whatever the payload size |
| Ddp.SerializeDeserialize | src/ddp.rs:10-26 | every well-formed packet is the serialisation of what it reads as |
| Ddp.CreateDdpPacket | src/ddp.rs:10-26 | the buffer built by successive appends is exactly the serialised packet |
| Ddp.CreateExample | src/ddp.rs:11-24 | sequence number 1, length 3 and three pixel bytes give the expected 13 bytes |

## Left out

- `TFHeader_read`, `TFError_string` and the generated `tf_header_t`: the reader is the `reader` parameter, and its error message text is not modelled. The field widths are assumed to be tinyfseq's (u16 offsets, u32 counts and compression tag, u8 step time, version and range fields). The tags are assumed to be NONE = 0, ZSTD = 1, ZLIB = 2 and the success status TF_OK = 0. The bindings are generated at build time and are not part of this model.
- `buffer.len() as c_int` (src/fseq_ffi.rs:39): the truncation for buffers over 2^31 bytes only changes what the foreign reader sees, so it lies inside the `reader` parameter.
- Fseq.ExtractionArithmeticFits: `usize` is taken to be 64 bits wide (`USIZE_LIMIT` is 2^64). Nothing in the repository fixes the target. On a 32-bit target `frame_num as usize * frame_size` and the sums at src/fseq_ffi.rs:109-112 and :194-195 can wrap modulo 2^32, and a release build then slices the wrong bytes. For example, frame 900000 with 5000 channels gives an offset of 205032704. The model returns `UncompressedTruncated` or `ChunkOutOfBounds` there instead, and does not capture that behaviour.
- The ZSTD decoder (src/fseq_ffi.rs:223-226) is the `decompress` parameter. The model does not distinguish a failed decoder creation from a failed read; both are `DecompressionFailed`.
- Fseq.ReadBlockEntry: `variableDataOffset - blockCount * 8` (src/fseq_ffi.rs:173) is unchecked usize subtraction. When `variableDataOffset < 8 * blockCount` it panics in a debug build, and `MetadataTableUnderflow` stands for that panic. In a release build the subtraction at :173 and the addition at :174 both wrap, so the read start is `variableDataOffset - 8 * blockCount + 8 * block` modulo 2^64, and there are three outcomes. If that value is not negative, the wraps cancel and the source reads an entry at that small offset, usually inside the header, and may go on to return a frame. If it is below -8, the check at :181 fails and the source returns its buffer-too-small error, which the model calls `MetadataTruncated`. Only a value in [-8, -1] reaches the slice at :185 and panics there. The model deliberately returns `MetadataTableUnderflow` for all three release-build outcomes.
- `dump_header_info` and all `eprintln!`/`log` output are console I/O.
- `check_device_status` (the ping subprocess) is the input bool of `Probe`. The 30-second sleep, `spawn_blocking` and the endless loop are replaced by `RunLoop` over a finite sequence of probe results.
- Monitor.StreamCell.Send: a watch-channel send fails and leaves the value unchanged only when every receiver is gone. The player holds a receiver for as long as the program runs, so the model always stores the value.
- Playback.RunPlaybackLoop: the endless loop runs over a finite sequence of ticks. Running out of ticks ends it with `HorizonReached`, which the program has no counterpart for. The step-time sleep (src/playback.rs:65) is left out.
- `DDPConnection::write` is not modelled as a network send; only its success or failure, `Tick.sinkOk`, is kept, and that is ignored as in the source. `has_changed().is_ok()` becomes `CellRead`: `SenderDropped` skips the stop check and `Current(b)` reads the value.
- Playback.RunCount: `sequence_run_count` is an i32 in the source. The model counts with an unbounded nat and does not model overflow after 2^31 completed runs.
- `play_sequence` (src/lib.rs) is concurrency and I/O: the watch channels, `tokio::select!`, the task joins and the UDP socket set-up. Only the cell's initial value `false` is used.
- `send_ddp_bytes` (src/ddp.rs:29-35) is a network send. `DDP_PORT` is kept as a constant.
- build.rs, src/cli.rs and src/main.rs (binding generation, argument parsing, logger set-up) are not part of this model.
