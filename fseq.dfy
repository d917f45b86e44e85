/** The sequence-file reader: header gate, frame extraction for uncompressed
    files, and the block locator and slicer for ZSTD block-compressed files.

    The native header reader and the ZSTD decoder are foreign code; both are
    parameters here:
      reader:     seq<byte> -> HeaderRead             (status code + filled-in header)
      decompress: seq<byte> -> Option<seq<byte>>      (None when the decoder fails) */
module Fseq {
  import opened Common

  const MIN_HEADER_SIZE: int := 32
  /** the native reader's success status */
  const TF_OK: int := 0

  const COMPRESSION_NONE: u32 := 0
  const COMPRESSION_ZSTD: u32 := 1
  const COMPRESSION_ZLIB: u32 := 2

  const BLOCK0_SIZE_FRAMES: nat := 10
  const FRAMES_PER_BLOCK: nat := 256
  const METADATA_ENTRY_SIZE: nat := 8
  /** the largest count the 12-bit extended block-count field can hold */
  const MAX_BLOCK_COUNT: nat := 4095

  /** The header record the native reader fills in. */
  datatype Header = Header(
    channelDataOffset: u16,
    variableDataOffset: u16,
    majorVersion: byte,
    minorVersion: byte,
    frameCount: u32,
    channelCount: u32,
    frameStepTimeMillis: byte,
    compressionType: u32,
    compressionBlockCount: byte,
    channelRangeCount: byte)

  /** What one call of the native header reader reports. */
  datatype HeaderRead = HeaderRead(status: int, header: Header)

  /** A parsed sequence file: the whole file contents and its header. */
  datatype FseqFile = FseqFile(buffer: seq<byte>, header: Header)

  datatype ParseError = BufferTooSmall | HeaderReadFailed(status: int)

  datatype FrameError =
    | FrameOutOfRange
    | UncompressedTruncated
    | SingleStreamUnsupported
    | BlockOutOfRange
    /** the subtraction variableDataOffset - 8 * blockCount would go below zero */
    | MetadataTableUnderflow
    | MetadataTruncated
    | ChunkOutOfBounds
    | DecompressionFailed
    | DecompressedTooShort
    | ZlibUnimplemented
    | UnknownCompression(tag: u32)

  /** What every parsed file satisfies: the fixed header bytes are present. */
  predicate Valid(f: FseqFile) {
    |f.buffer| >= MIN_HEADER_SIZE
  }

  // ---------------------------------------------------------------------
  // Parsing
  // ---------------------------------------------------------------------

  function Parse(buffer: seq<byte>, reader: seq<byte> -> HeaderRead): (r: Result<FseqFile, ParseError>)
    // a short buffer fails whatever the reader would say
    ensures |buffer| < MIN_HEADER_SIZE <==> r == Err(BufferTooSmall)
    ensures |buffer| >= MIN_HEADER_SIZE ==>
      (r.Ok? <==> reader(buffer).status == TF_OK) &&
      (r.Err? ==> r == Err(HeaderReadFailed(reader(buffer).status)))
    // on success the buffer is kept unchanged, with the reader's header
    ensures r.Ok? ==> r.value.buffer == buffer && r.value.header == reader(buffer).header && Valid(r.value)
  {
    if |buffer| < MIN_HEADER_SIZE then Err(BufferTooSmall)
    else
      var read := reader(buffer);
      if read.status != TF_OK then Err(HeaderReadFailed(read.status))
      else Ok(FseqFile(buffer, read.header))
  }

  // ---------------------------------------------------------------------
  // Getters
  // ---------------------------------------------------------------------

  /** The step time as the player's signed 32-bit value: the cast loses nothing. */
  function StepTime(f: FseqFile): (ms: i32)
    ensures ms == f.header.frameStepTimeMillis && ms >= 0
  {
    f.header.frameStepTimeMillis as i32
  }

  function ChannelCount(f: FseqFile): (n: u32)
    ensures n == f.header.channelCount
  {
    f.header.channelCount
  }

  function FrameCount(f: FseqFile): (n: u32)
    ensures n == f.header.frameCount
  {
    f.header.frameCount
  }

  // ---------------------------------------------------------------------
  // Extended compression block count
  // ---------------------------------------------------------------------

  /** The 12-bit block count the player assembles from raw header bytes 20 and 21:
      byte 20's high nibble above byte 21. The player computes
      ((byte20 & 0xF0) << 4) | byte21 in 16 bits; on these widths the mask clears
      the low nibble, the shift multiplies by 16 and the disjoint "or" adds
      (ExtendedBlockCountIsBitwise proves the two agree). */
  function ExtendedBlockCount(byte20: byte, byte21: byte): (count: nat)
    ensures count <= MAX_BLOCK_COUNT
  {
    (byte20 - byte20 % 16) * 16 + byte21
  }

  /** The count is byte 20's high nibble times 256 plus byte 21; so its low 8 bits are byte 21. */
  lemma ExtendedBlockCountValue(byte20: byte, byte21: byte)
    ensures ExtendedBlockCount(byte20, byte21) == (byte20 / 16) * 256 + byte21
    ensures ExtendedBlockCount(byte20, byte21) % 256 == byte21
    ensures ExtendedBlockCount(byte20, byte21) / 256 == byte20 / 16
  {
  }

  /** The arithmetic form above is the player's 16-bit mask-shift-or expression. */
  lemma ExtendedBlockCountIsBitwise(byte20: bv8, byte21: bv8)
    ensures ExtendedBlockCount(byte20 as int, byte21 as int)
         == ((((byte20 as bv16) & 0xF0) << 4) | (byte21 as bv16)) as int
  {
    Bv16MaskShiftOr(byte20 as bv16, byte21 as bv16);
    Bv16Compose(byte20 as bv16, byte21 as bv16);
  }

  lemma Bv16MaskShiftOr(a: bv16, b: bv16)
    requires a < 256 && b < 256
    ensures ((a & 0xF0) << 4) | b == (a >> 4) * 256 + b
  {
  }

  lemma Bv16Compose(a: bv16, b: bv16)
    requires a < 256 && b < 256
    ensures ((a >> 4) * 256 + b) as int == (a as int / 16) * 256 + b as int
  {
    Bv16ShiftIsDiv(a);
    Bv16ComposeInt(a >> 4, b);
  }

  lemma Bv16ShiftIsDiv(a: bv16)
    requires a < 256
    ensures (a >> 4) as int == a as int / 16
  {
  }

  lemma Bv16ComposeInt(x: bv16, b: bv16)
    requires x < 16 && b < 256
    ensures (x * 256 + b) as int == x as int * 256 + b as int
  {
  }

  function BlockCount(f: FseqFile): (count: nat)
    requires Valid(f)
    ensures count <= MAX_BLOCK_COUNT
  {
    ExtendedBlockCount(f.buffer[20], f.buffer[21])
  }

  lemma ExtendedBlockCountExample()
    ensures ExtendedBlockCount(0x35, 0x42) == 834
  {
  }

  // ---------------------------------------------------------------------
  // Block locator
  // ---------------------------------------------------------------------

  /** Frames held by block k: block 0 holds 10, every later block 256. */
  function BlockFrames(k: nat): nat {
    if k == 0 then BLOCK0_SIZE_FRAMES else FRAMES_PER_BLOCK
  }

  /** Index of the first frame of block k (also the number of frames held by blocks 0..k-1). */
  function BlockFirstFrame(k: nat): nat {
    if k == 0 then 0 else BLOCK0_SIZE_FRAMES + FRAMES_PER_BLOCK * (k - 1)
  }

  datatype BlockPos = BlockPos(block: nat, frameInBlock: nat)

  /** Closed form of the block walk. */
  function Locate(n: nat, blockCount: nat): (r: Result<BlockPos, FrameError>)
    // a located block really holds frame n, and exists
    ensures r.Ok? ==>
      r.value.block < blockCount &&
      r.value.frameInBlock < BlockFrames(r.value.block) &&
      n == BlockFirstFrame(r.value.block) + r.value.frameInBlock
    // it fails exactly when there are no blocks or the blocks end before frame n
    ensures r.Err? <==> blockCount == 0 || n >= BlockFirstFrame(blockCount)
    ensures blockCount == 0 ==> r == Err(SingleStreamUnsupported)
  {
    if blockCount == 0 then Err(SingleStreamUnsupported)
    else if n < BLOCK0_SIZE_FRAMES then Ok(BlockPos(0, n))
    else
      var k := 1 + (n - BLOCK0_SIZE_FRAMES) / FRAMES_PER_BLOCK;
      if k >= blockCount then Err(BlockOutOfRange)
      else Ok(BlockPos(k, (n - BLOCK0_SIZE_FRAMES) % FRAMES_PER_BLOCK))
  }

  /** A frame inside block k's range is located in block k. */
  lemma LocateInBlock(n: nat, blockCount: nat, k: nat)
    requires k < blockCount
    requires BlockFirstFrame(k) <= n < BlockFirstFrame(k) + BlockFrames(k)
    ensures Locate(n, blockCount) == Ok(BlockPos(k, n - BlockFirstFrame(k)))
  {
    if k > 0 {
      var d := n - BLOCK0_SIZE_FRAMES;
      assert FRAMES_PER_BLOCK * (k - 1) <= d < FRAMES_PER_BLOCK * (k - 1) + FRAMES_PER_BLOCK;
      assert d / FRAMES_PER_BLOCK == k - 1;
    }
  }

  /** A frame past the last block's range is out of range. */
  lemma LocateBeyond(n: nat, blockCount: nat)
    requires blockCount > 0 && n >= BlockFirstFrame(blockCount)
    ensures Locate(n, blockCount) == Err(BlockOutOfRange)
  {
  }

  /** Frames 9 and 10 straddle the boundary between blocks 0 and 1. */
  lemma LocateBoundaryExample(blockCount: nat)
    requires blockCount >= 2
    ensures Locate(9, blockCount) == Ok(BlockPos(0, 9))
    ensures Locate(10, blockCount) == Ok(BlockPos(1, 0))
  {
  }

  /** The player's walk over blocks: accumulate frame counts block by block until
      the target falls inside the current block. */
  method LocateBlock(frameNum: u32, blockCount: nat) returns (r: Result<BlockPos, FrameError>)
    requires blockCount <= MAX_BLOCK_COUNT
    ensures r == Locate(frameNum, blockCount)
  {
    if blockCount == 0 {
      return Err(SingleStreamUnsupported);
    }
    var currentFrameNum: u32 := 0;
    var currentBlockIndex: nat := 0;
    while frameNum >= currentFrameNum + BlockFrames(currentBlockIndex)
      invariant currentBlockIndex < blockCount
      invariant currentFrameNum == BlockFirstFrame(currentBlockIndex)
      invariant currentFrameNum <= frameNum
      decreases frameNum - currentFrameNum
    {
      currentFrameNum := currentFrameNum + BlockFrames(currentBlockIndex);
      currentBlockIndex := currentBlockIndex + 1;
      if currentBlockIndex >= blockCount {
        LocateBeyond(frameNum, blockCount);
        return Err(BlockOutOfRange);
      }
    }
    LocateInBlock(frameNum, blockCount, currentBlockIndex);
    return Ok(BlockPos(currentBlockIndex, frameNum - currentFrameNum));
  }

  // ---------------------------------------------------------------------
  // Block metadata and chunk bounds
  // ---------------------------------------------------------------------

  /** One entry of the compression metadata table. */
  datatype BlockEntry = BlockEntry(firstFrameId: u32, size: u32)

  /** Reads block `block`'s entry from the table of `blockCount` 8-byte entries
      that ends at `variableDataOffset`. */
  function ReadBlockEntry(buffer: seq<byte>, variableDataOffset: nat, blockCount: nat, block: nat): (r: Result<BlockEntry, FrameError>)
    requires block < blockCount
    ensures variableDataOffset < METADATA_ENTRY_SIZE * blockCount ==> r == Err(MetadataTableUnderflow)
    ensures variableDataOffset >= METADATA_ENTRY_SIZE * blockCount ==>
      var start := variableDataOffset - METADATA_ENTRY_SIZE * blockCount + METADATA_ENTRY_SIZE * block;
      // the entry lies inside the table, which ends at variableDataOffset
      start + METADATA_ENTRY_SIZE <= variableDataOffset &&
      (r.Ok? <==> start + METADATA_ENTRY_SIZE <= |buffer|) &&
      (r.Err? ==> r == Err(MetadataTruncated)) &&
      (r.Ok? ==> r.value == BlockEntry(LeU32(buffer[start..start + 4]), LeU32(buffer[start + 4..start + 8])))
  {
    if variableDataOffset < METADATA_ENTRY_SIZE * blockCount then Err(MetadataTableUnderflow)
    else
      var start := variableDataOffset - METADATA_ENTRY_SIZE * blockCount + METADATA_ENTRY_SIZE * block;
      if start + METADATA_ENTRY_SIZE > |buffer| then Err(MetadataTruncated)
      else Ok(BlockEntry(LeU32(buffer[start..start + 4]), LeU32(buffer[start + 4..start + 8])))
  }

  /** A half-open byte range [start, end) of the file. */
  datatype Chunk = Chunk(start: nat, end: nat)

  /** Bounds of a block's compressed chunk, with the block-0 fallback: when block 0's
      computed start lies past the end of the file, its chunk starts at the
      channel-data offset instead (keeping the entry's size). */
  function ChunkBounds(bufferLen: nat, channelDataOffset: nat, block: nat, e: BlockEntry): (r: Result<Chunk, FrameError>)
    // a chunk handed on lies inside the file and is exactly `size` bytes long
    ensures r.Ok? ==> r.value.start <= r.value.end <= bufferLen && r.value.end - r.value.start == e.size
    ensures r.Ok? ==>
      r.value.start == (if block == 0 && channelDataOffset + e.firstFrameId > bufferLen then channelDataOffset
       else channelDataOffset + e.firstFrameId)
    ensures r.Err? <==> r == Err(ChunkOutOfBounds)
    ensures r.Err? <==>
      if block == 0 && channelDataOffset + e.firstFrameId > bufferLen then channelDataOffset + e.size > bufferLen
      else channelDataOffset + e.firstFrameId + e.size > bufferLen
  {
    var start :=
      if channelDataOffset + e.firstFrameId > bufferLen && block == 0 then channelDataOffset
      else channelDataOffset + e.firstFrameId;
    if start + e.size > bufferLen then Err(ChunkOutOfBounds) else Ok(Chunk(start, start + e.size))
  }

  /** Where a located frame's compressed chunk lies. */
  datatype Located = Located(pos: BlockPos, chunk: Chunk)

  /** The locator pipeline for a ZSTD file: block walk, metadata entry, chunk bounds. */
  function LocateChunk(f: FseqFile, n: nat): (r: Result<Located, FrameError>)
    requires Valid(f)
    ensures BlockCount(f) == 0 ==> r == Err(SingleStreamUnsupported)
    // any chunk handed to the decompressor lies inside the buffer, in an existing block
    ensures r.Ok? ==>
      r.value.pos.block < BlockCount(f) &&
      r.value.pos.frameInBlock < BlockFrames(r.value.pos.block) &&
      r.value.chunk.start <= r.value.chunk.end <= |f.buffer|
  {
    var blockCount := BlockCount(f);
    var pos :- Locate(n, blockCount);
    var entry :- ReadBlockEntry(f.buffer, f.header.variableDataOffset, blockCount, pos.block);
    var chunk :- ChunkBounds(|f.buffer|, f.header.channelDataOffset, pos.block, entry);
    Ok(Located(pos, chunk))
  }

  // ---------------------------------------------------------------------
  // Frame extraction
  // ---------------------------------------------------------------------

  /** `size` bytes at `start` of `data`, failing with `err` when they run past its end. */
  function SliceAt(data: seq<byte>, start: nat, size: nat, err: FrameError): (r: Result<seq<byte>, FrameError>)
    ensures r.Ok? <==> start + size <= |data|
    ensures r.Err? ==> r.error == err
    ensures r.Ok? ==> |r.value| == size && forall i :: 0 <= i < size ==> r.value[i] == data[start + i]
  {
    if start + size > |data| then Err(err) else Ok(data[start..start + size])
  }

  /** Byte offset of the index-th of a run of records of `size` bytes each. */
  function Offset(index: nat, size: nat): nat {
    index * size
  }

  function UncompressedFrame(f: FseqFile, n: nat): (r: Result<seq<byte>, FrameError>)
  {
    var frameSize := f.header.channelCount;
    SliceAt(f.buffer, f.header.channelDataOffset + Offset(n, frameSize), frameSize, UncompressedTruncated)
  }

  function ZstdFrame(f: FseqFile, n: nat, decompress: seq<byte> -> Option<seq<byte>>): (r: Result<seq<byte>, FrameError>)
    requires Valid(f)
  {
    var located :- LocateChunk(f, n);
    var frameSize := f.header.channelCount;
    match decompress(f.buffer[located.chunk.start..located.chunk.end])
    case None => Err(DecompressionFailed)
    case Some(out) => SliceAt(out, Offset(located.pos.frameInBlock, frameSize), frameSize, DecompressedTooShort)
  }

  /** get_frame: the pixel bytes of frame n. */
  function Frame(f: FseqFile, n: u32, decompress: seq<byte> -> Option<seq<byte>>): (r: Result<seq<byte>, FrameError>)
    requires Valid(f)
    // every frame is channelCount bytes, and only frames below frameCount exist
    ensures r.Ok? ==> n < f.header.frameCount && |r.value| == f.header.channelCount
    ensures n >= f.header.frameCount ==> r == Err(FrameOutOfRange)
  {
    if n >= f.header.frameCount then Err(FrameOutOfRange)
    else if f.header.compressionType == COMPRESSION_NONE then UncompressedFrame(f, n)
    else if f.header.compressionType == COMPRESSION_ZSTD then ZstdFrame(f, n, decompress)
    else if f.header.compressionType == COMPRESSION_ZLIB then Err(ZlibUnimplemented)
    else Err(UnknownCompression(f.header.compressionType))
  }

  /** An uncompressed frame is the channelCount bytes at channelDataOffset + n * channelCount
      (SliceAt's contract: exactly those bytes, failing exactly when they run past the file). */
  lemma UncompressedFrameExact(f: FseqFile, n: u32, decompress: seq<byte> -> Option<seq<byte>>)
    requires Valid(f) && f.header.compressionType == COMPRESSION_NONE && n < f.header.frameCount
    ensures Frame(f, n, decompress) ==
      SliceAt(f.buffer, f.header.channelDataOffset + Offset(n, f.header.channelCount), f.header.channelCount, UncompressedTruncated)
  {
  }

  /** A compressed frame whose chunk cannot be located fails with the locator's error. */
  lemma ZstdLocateFails(f: FseqFile, n: u32, decompress: seq<byte> -> Option<seq<byte>>)
    requires Valid(f) && f.header.compressionType == COMPRESSION_ZSTD && n < f.header.frameCount
    requires LocateChunk(f, n).Err?
    ensures Frame(f, n, decompress) == Err(LocateChunk(f, n).error)
  {
  }

  /** A compressed frame fails when the decoder rejects its block's chunk. */
  lemma ZstdDecodeFails(f: FseqFile, n: u32, decompress: seq<byte> -> Option<seq<byte>>, l: Located)
    requires Valid(f) && f.header.compressionType == COMPRESSION_ZSTD && n < f.header.frameCount
    requires LocateChunk(f, n) == Ok(l) && decompress(f.buffer[l.chunk.start..l.chunk.end]).None?
    ensures Frame(f, n, decompress) == Err(DecompressionFailed)
  {
  }

  /** A compressed frame is the channelCount bytes at frameInBlock * channelCount of its
      block's decompressed chunk, failing with DecompressedTooShort exactly when the
      output is too short for them (SliceAt's contract). */
  lemma ZstdFrameExact(f: FseqFile, n: u32, decompress: seq<byte> -> Option<seq<byte>>, l: Located, out: seq<byte>)
    requires Valid(f) && f.header.compressionType == COMPRESSION_ZSTD && n < f.header.frameCount
    requires LocateChunk(f, n) == Ok(l) && decompress(f.buffer[l.chunk.start..l.chunk.end]) == Some(out)
    ensures Frame(f, n, decompress)
         == SliceAt(out, Offset(l.pos.frameInBlock, f.header.channelCount), f.header.channelCount, DecompressedTooShort)
  {
  }

  /** The block-compressed pipeline end to end for one located frame: the metadata
      entry's bytes, the chunk it designates and the slice returned. */
  lemma ZstdPipeline(f: FseqFile, n: u32, decompress: seq<byte> -> Option<seq<byte>>)
    requires Valid(f) && f.header.compressionType == COMPRESSION_ZSTD && n < f.header.frameCount
    requires Locate(n, BlockCount(f)).Ok?
    ensures var bc := BlockCount(f);
      var pos := Locate(n, bc).value;
      var vdo := f.header.variableDataOffset;
      var entry := ReadBlockEntry(f.buffer, vdo, bc, pos.block);
      (vdo < 8 * bc ==> Frame(f, n, decompress) == Err(MetadataTableUnderflow)) &&
      (entry.Ok? ==>
        var chunk := ChunkBounds(|f.buffer|, f.header.channelDataOffset, pos.block, entry.value);
        (chunk.Err? ==> Frame(f, n, decompress) == Err(ChunkOutOfBounds)) &&
        (chunk.Ok? ==> LocateChunk(f, n) == Ok(Located(pos, chunk.value))))
  {
  }

  /** ZLIB and unknown compression tags always fail. */
  lemma OtherCompressionFails(f: FseqFile, n: u32, decompress: seq<byte> -> Option<seq<byte>>)
    requires Valid(f)
    requires f.header.compressionType != COMPRESSION_NONE && f.header.compressionType != COMPRESSION_ZSTD
    ensures Frame(f, n, decompress).Err?
  {
  }

  /** No usize arithmetic of the frame extractor wraps on a 64-bit target (the one
      unchecked subtraction is the MetadataTableUnderflow case). */
  lemma ExtractionArithmeticFits(h: Header, n: u32, e: BlockEntry, frameInBlock: nat)
    requires frameInBlock < FRAMES_PER_BLOCK
    ensures h.channelDataOffset + n * h.channelCount + h.channelCount < USIZE_LIMIT
    ensures h.channelDataOffset + e.firstFrameId + e.size < USIZE_LIMIT
    ensures frameInBlock * h.channelCount + h.channelCount < USIZE_LIMIT
  {
    MulBound(n, h.channelCount, U32_LIMIT - 1);
    MulBound(frameInBlock, h.channelCount, U32_LIMIT - 1);
  }

  lemma MulBound(a: nat, b: nat, m: nat)
    requires a <= m && b <= m
    ensures a * b <= m * m
  {
    calc {
      a * b;
    <= { assert a * b <= a * m; }
      a * m;
    <= { assert a * m <= m * m; }
      m * m;
    }
  }

  /** get_frame as written: the same branches and checks, in the same order. */
  method GetFrame(f: FseqFile, frameNum: u32, decompress: seq<byte> -> Option<seq<byte>>) returns (r: Result<seq<byte>, FrameError>)
    requires Valid(f)
    ensures r == Frame(f, frameNum, decompress)
  {
    if frameNum >= f.header.frameCount {
      return Err(FrameOutOfRange);
    }
    if f.header.compressionType == COMPRESSION_NONE {
      r := GetUncompressedFrame(f, frameNum);
    } else if f.header.compressionType == COMPRESSION_ZSTD {
      r := GetZstdFrame(f, frameNum, decompress);
    } else if f.header.compressionType == COMPRESSION_ZLIB {
      r := Err(ZlibUnimplemented);
    } else {
      r := Err(UnknownCompression(f.header.compressionType));
    }
  }

  /** The uncompressed branch: frames lie back to back from the channel-data offset. */
  method GetUncompressedFrame(f: FseqFile, frameNum: u32) returns (r: Result<seq<byte>, FrameError>)
    ensures r == UncompressedFrame(f, frameNum)
  {
    var frameSize: nat := f.header.channelCount;
    var frameStart := f.header.channelDataOffset + Offset(frameNum, frameSize);
    var frameEnd := frameStart + frameSize;
    if frameEnd > |f.buffer| {
      return Err(UncompressedTruncated);
    }
    return Ok(f.buffer[frameStart..frameEnd]);
  }

  /** The ZSTD branch: locate the chunk, decompress it whole, slice the frame out. */
  method GetZstdFrame(f: FseqFile, frameNum: u32, decompress: seq<byte> -> Option<seq<byte>>) returns (r: Result<seq<byte>, FrameError>)
    requires Valid(f)
    ensures r == ZstdFrame(f, frameNum, decompress)
  {
    var located :- LocateCompressedChunk(f, frameNum);
    var decompressed := decompress(f.buffer[located.chunk.start..located.chunk.end]);
    if decompressed.None? {
      return Err(DecompressionFailed);
    }
    var output := decompressed.value;
    var frameSize: nat := f.header.channelCount;
    var frameStart := Offset(located.pos.frameInBlock, frameSize);
    var frameEnd := frameStart + frameSize;
    assert ZstdFrame(f, frameNum, decompress) == SliceAt(output, frameStart, frameSize, DecompressedTooShort);
    if frameEnd > |output| {
      return Err(DecompressedTooShort);
    }
    return Ok(output[frameStart..frameEnd]);
  }

  /** Block count, block walk, metadata read and chunk bounds, with the chunk start and
      end reassigned in the block-0 fallback. */
  method LocateCompressedChunk(f: FseqFile, frameNum: u32) returns (r: Result<Located, FrameError>)
    requires Valid(f)
    ensures r == LocateChunk(f, frameNum)
  {
    var blockCount := ExtendedBlockCount(f.buffer[20], f.buffer[21]);
    var pos :- LocateBlock(frameNum, blockCount);
    var metadataSize := blockCount * METADATA_ENTRY_SIZE;
    if f.header.variableDataOffset < metadataSize {
      return Err(MetadataTableUnderflow);
    }
    var tableStart := f.header.variableDataOffset - metadataSize;
    var readStart := tableStart + pos.block * METADATA_ENTRY_SIZE;
    if readStart + METADATA_ENTRY_SIZE > |f.buffer| {
      return Err(MetadataTruncated);
    }
    var firstFrameId := LeU32(f.buffer[readStart..readStart + 4]);
    var size := LeU32(f.buffer[readStart + 4..readStart + 8]);
    ghost var entry := BlockEntry(firstFrameId, size);
    assert ReadBlockEntry(f.buffer, f.header.variableDataOffset, blockCount, pos.block) == Ok(entry);
    var chunkStart := f.header.channelDataOffset + firstFrameId;
    var chunkEnd := chunkStart + size;
    if chunkStart > |f.buffer| && pos.block == 0 {
      chunkStart := f.header.channelDataOffset;
      chunkEnd := chunkStart + size;
    }
    assert chunkEnd > |f.buffer| <==> ChunkBounds(|f.buffer|, f.header.channelDataOffset, pos.block, entry).Err?;
    if chunkEnd > |f.buffer| {
      return Err(ChunkOutOfBounds);
    }
    assert ChunkBounds(|f.buffer|, f.header.channelDataOffset, pos.block, entry) == Ok(Chunk(chunkStart, chunkEnd));
    return Ok(Located(pos, Chunk(chunkStart, chunkEnd)));
  }
}
