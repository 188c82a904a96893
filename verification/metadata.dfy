/** The derived properties of a `wavefileinfo` object that POSITION or
    COUNT things: `filesize`, `dataStart`, `dataChunkFrames`, `loopCount`,
    `loops` and the first-loop accessors `loopstart`, `loopend`,
    `looplength`.

    A property whose backing field was never set raises AttributeError in
    the source (no `data` chunk, so no `__dataChunkStart`); the first-loop
    accessors would raise IndexError if the loop list were shorter than
    the count. Both are `Err` here, and the lemmas below show that a parsed
    file never reaches the second one.
 */
module Metadata {
  import opened Outcome
  import opened LittleEndian
  import opened Riff
  import opened WaveChunks
  import opened Scanner
  import opened ScannerFacts

  datatype AccessError =
    | MissingAttribute  // the backing field was never assigned
    | IndexOutOfRange   // `loops[0]` on an empty loop list

  /** `filesize`: the measured length of the file. */
  function FileSize(info: WaveInfo): nat {
    info.fileSize
  }

  /** `dataStart`: where the sample bytes begin, just past the `data` header. */
  function DataStart(info: WaveInfo): (r: Result<nat, AccessError>)
    ensures r.Err? <==> info.contents.data.None?
    ensures r.Err? ==> r.error == MissingAttribute
  {
    match info.contents.data
    case None => Err(MissingAttribute)
    case Some(d) => Ok(d.chunkStart + 8)
  }

  /** `dataChunkFrames`: the frame count stored when the `data` chunk was read. */
  function DataChunkFrames(info: WaveInfo): (r: Result<nat, AccessError>)
    ensures r.Err? <==> info.contents.data.None?
  {
    match info.contents.data
    case None => Err(MissingAttribute)
    case Some(d) => Ok(d.frames)
  }

  /** `loopCount`: the loop count of the last `smpl` chunk, None without one. */
  function LoopCount(info: WaveInfo): (r: Option<nat>)
    ensures r.None? <==> info.contents.smpl.None?
  {
    match info.contents.smpl
    case None => None
    case Some(h) => Some(h.numberOfLoops)
  }

  /** The first loop record, when the loop count says there is one. */
  function FirstLoop(info: WaveInfo): (r: Result<Option<SampleLoop>, AccessError>)
    ensures r == Ok(None) <==> LoopCount(info).None? || LoopCount(info) == Some(0)
    ensures r.Ok? && r.value.Some? ==> |info.contents.loops| > 0 && r.value.value == info.contents.loops[0]
    ensures r.Err? <==> LoopCount(info).Some? && LoopCount(info).value > 0 && |info.contents.loops| == 0
  {
    match LoopCount(info)
    case None => Ok(None)
    case Some(n) =>
      if n == 0 then Ok(None)
      else if |info.contents.loops| == 0 then Err(IndexOutOfRange)
      else Ok(Some(info.contents.loops[0]))
  }

  /** `loopstart`: the start of the first loop record, None without loops. */
  function LoopStart(info: WaveInfo): (r: Result<Option<nat>, AccessError>)
    ensures r.Ok? <==> FirstLoop(info).Ok?
    ensures r.Ok? ==> (r.value.None? <==> FirstLoop(info).value.None?)
    ensures r.Ok? && r.value.Some? ==> r.value.value == info.contents.loops[0].start
  {
    var first :- FirstLoop(info);
    match first
    case None => Ok(None)
    case Some(l) => Ok(Some(l.start))
  }

  /** `loopend`: the end of the first loop record, None without loops. */
  function LoopEnd(info: WaveInfo): (r: Result<Option<nat>, AccessError>)
    ensures r.Ok? <==> FirstLoop(info).Ok?
    ensures r.Ok? ==> (r.value.None? <==> FirstLoop(info).value.None?)
    ensures r.Ok? && r.value.Some? ==> r.value.value == info.contents.loops[0].end
  {
    var first :- FirstLoop(info);
    match first
    case None => Ok(None)
    case Some(l) => Ok(Some(l.end))
  }

  /** `looplength`: end minus start of the first loop record; negative when
      the file stores an end before the start. */
  function LoopLength(info: WaveInfo): (r: Result<Option<int>, AccessError>)
    ensures r.Ok? <==> FirstLoop(info).Ok?
    ensures r.Ok? ==> (r.value.None? <==> FirstLoop(info).value.None?)
  {
    var first :- FirstLoop(info);
    match first
    case None => Ok(None)
    case Some(l) => Ok(Some(l.end - l.start))
  }

  /** The three first-loop accessors agree: length is end minus start. */
  lemma LoopLengthIsEndMinusStart(info: WaveInfo)
    ensures LoopLength(info).Ok? <==> LoopStart(info).Ok?
    ensures LoopLength(info).Ok? && LoopLength(info).value.Some? ==>
              && LoopStart(info).value.Some? && LoopEnd(info).value.Some?
              && LoopLength(info).value.value == LoopEnd(info).value.value - LoopStart(info).value.value
  {
  }

  /** `filesize` is the length of the file, whatever the header declares. */
  lemma FileSizeIsLength(b: seq<Byte>, info: WaveInfo)
    requires Parse(b) == Ok(info)
    ensures FileSize(info) == |b|
  {
  }

  /** `dataStart` is set exactly when the file has a `data` chunk; it then
      points just past the header of the last one, and the declared data
      size fits in the file from there. */
  lemma DataStartInFile(b: seq<Byte>, info: WaveInfo)
    requires Parse(b) == Ok(info)
    ensures var cs := info.contents.chunks;
            DataStart(info).Ok? <==> exists k :: 0 <= k < |cs| && cs[k].id == DATA
    ensures DataStart(info).Ok? ==>
              var p := DataStart(info).value;
              var cs := info.contents.chunks;
              && LastOf(cs, DATA).Some?
              && p == cs[LastOf(cs, DATA).value].start + 8
              && 8 <= p && p + info.contents.data.value.size <= |b|
              && b[p - 8..p - 4] == DATA
  {
    ParsedData(b, info);
    var cs := info.contents.chunks;
    if info.contents.data.Some? {
      ParsedHeaders(b, info, LastOf(cs, DATA).value);
    }
  }

  /** Where the scan invariant puts the `data` fields of a parsed file. */
  lemma ParsedData(b: seq<Byte>, info: WaveInfo)
    requires Parse(b) == Ok(info)
    ensures var cs := info.contents.chunks;
            info.contents.data.None? <==> forall k :: 0 <= k < |cs| ==> cs[k].id != DATA
    ensures info.contents.data.Some? ==>
              var cs := info.contents.chunks;
              && LastOf(cs, DATA).Some?
              && info.contents.data.value.chunkStart == cs[LastOf(cs, DATA).value].start
              && info.contents.data.value.size == cs[LastOf(cs, DATA).value].length
  {
    ParseGivesAgrees(b, info);
    DataOfParsed(b, info);
  }

  /** Every chunk header of a parsed file is what the file holds there. */
  lemma ParsedHeaders(b: seq<Byte>, info: WaveInfo, k: nat)
    requires Parse(b) == Ok(info) && k < |info.contents.chunks|
    ensures var c := info.contents.chunks[k];
            c.start + 8 + c.length <= |b| && b[c.start..c.start + 4] == c.id
  {
    ParseGivesTiling(b, info);
    DataHeaderAt(b, info.contents.chunks, k);
  }

  lemma DataOfParsed(b: seq<Byte>, info: WaveInfo)
    requires InFile(b, info.contents.chunks) && DataAgrees(b, info.contents)
    ensures var cs := info.contents.chunks;
            info.contents.data.None? <==> forall k :: 0 <= k < |cs| ==> cs[k].id != DATA
    ensures info.contents.data.Some? ==>
              var cs := info.contents.chunks;
              && LastOf(cs, DATA).Some?
              && info.contents.data.value.chunkStart == cs[LastOf(cs, DATA).value].start
              && info.contents.data.value.size == cs[LastOf(cs, DATA).value].length
  {
  }

  lemma DataHeaderAt(b: seq<Byte>, cs: seq<Chunk>, k: nat)
    requires Tiling(b, cs, FirstChunk) && ChunksOrdered(b, cs) && k < |cs|
    ensures cs[k].start + 8 + cs[k].length <= |b| && b[cs[k].start..cs[k].start + 4] == cs[k].id
  {
    assert cs[k] == ChunkAt(b, cs[k].start);
  }

  /** `dataChunkFrames` is the truncated quotient of the size of the last
      `data` chunk by the frame size of the last `fmt ` chunk before it:
      frames * frameBits <= 8 * size < (frames + 1) * frameBits. */
  lemma DataFramesBound(b: seq<Byte>, info: WaveInfo)
    requires Parse(b) == Ok(info) && DataChunkFrames(info).Ok?
    ensures var cs := info.contents.chunks;
            && InFile(b, cs) && LastOf(cs, DATA).Some?
            && FramesFrom(b, cs, LastOf(cs, DATA).value, DataChunkFrames(info).value)
  {
    ParseGivesAgrees(b, info);
    FramesOfParsed(b, info);
  }

  /** The frame count of the scan invariant, with the quotient written out. */
  lemma FramesOfParsed(b: seq<Byte>, info: WaveInfo)
    requires InFile(b, info.contents.chunks) && DataAgrees(b, info.contents) && info.contents.data.Some?
    ensures var cs := info.contents.chunks;
            && LastOf(cs, DATA).Some?
            && FramesFrom(b, cs, LastOf(cs, DATA).value, info.contents.data.value.frames)
    ensures var cs := info.contents.chunks;
            var k := LastOf(cs, DATA).value;
            && LastOf(cs[..k], FMT).Some?
            && var j := LastOf(cs[..k], FMT).value;
               && j < k && cs[j].id == FMT && cs[j].start + 8 <= |b|
               && var f := DecodeFmt(b[cs[j].start + 8..], cs[j].length);
                  && f.Some? && f.value.bitsPerSample > 0 && f.value.channels > 0
                  && var frameBits := f.value.bitsPerSample * f.value.channels;
                     var frames := info.contents.data.value.frames;
                     frames * frameBits <= 8 * cs[k].length < (frames + 1) * frameBits
  {
    var cs := info.contents.chunks;
    var k := LastOf(cs, DATA).value;
    assert FramesFrom(b, cs, k, info.contents.data.value.frames);
    var j := LastOf(cs[..k], FMT).value;
    assert cs[..k][j] == cs[j];
  }

  /** `loopCount` is None exactly when the file has no `smpl` chunk, and
      otherwise the count stored at offset 28 of the last one. */
  lemma LoopCountFromLastSmpl(b: seq<Byte>, info: WaveInfo)
    requires Parse(b) == Ok(info)
    ensures var cs := info.contents.chunks;
            LoopCount(info).None? <==> forall k :: 0 <= k < |cs| ==> cs[k].id != SMPL
    ensures LoopCount(info).Some? ==>
              var cs := info.contents.chunks;
              var k := LastOf(cs, SMPL).value;
              && cs[k].start + 8 + SmplHeaderSize <= |b|
              && LoopCount(info).value == U32(b[cs[k].start + 8..], 28)
  {
    ParseGives(b, info);
    SmplOfParsed(b, info);
  }

  lemma SmplOfParsed(b: seq<Byte>, info: WaveInfo)
    requires InFile(b, info.contents.chunks) && SmplAgrees(b, info.contents)
    ensures var cs := info.contents.chunks;
            LoopCount(info).None? <==> forall k :: 0 <= k < |cs| ==> cs[k].id != SMPL
    ensures LoopCount(info).Some? ==>
              var cs := info.contents.chunks;
              var k := LastOf(cs, SMPL).value;
              && cs[k].start + 8 + SmplHeaderSize <= |b|
              && LoopCount(info).value == U32(b[cs[k].start + 8..], 28)
  {
    var cs := info.contents.chunks;
    match LastOf(cs, SMPL)
    case None =>
    case Some(k) =>
      var m := DecodeSmpl(b[cs[k].start + 8..]);
      assert m.Some? && m.value.header == info.contents.smpl.value;
  }

  /** In a parsed file the loop list is the loop records of every `smpl`
      chunk in file order, and it holds at least as many as the last
      chunk's count, so the first-loop accessors never fail. */
  lemma LoopsAccumulate(b: seq<Byte>, info: WaveInfo)
    requires Parse(b) == Ok(info)
    ensures InFile(b, info.contents.chunks) && info.contents.loops == AllLoops(b, info.contents.chunks)
    ensures LoopCount(info).Some? ==> LoopCount(info).value <= |info.contents.loops|
    ensures FirstLoop(info).Ok? && LoopStart(info).Ok? && LoopEnd(info).Ok? && LoopLength(info).Ok?
  {
    ParseGives(b, info);
  }
}
