/** The scan that `wavefileinfo.__readfile__` performs when an object is
    constructed: check the RIFF/WAVE header, then walk the chunks until
    the position equals the true end of the file, recording every chunk and
    handing the four known ids to their typed readers.

    The file is an immutable byte sequence; the file position is an index
    into it. The state the source accumulates in private fields is the
    immutable `Contents` value threaded through the walk; an exception
    anywhere aborts construction, so the scan returns either the complete
    `WaveInfo` or the error.
 */
module Scanner {
  import opened Outcome
  import opened LittleEndian
  import opened Riff
  import opened WaveChunks

  datatype ScanError =
    | NotRiff        // bytes 0..4 are not "RIFF"
    | NotWave        // bytes 8..12 are not "WAVE"
    | ShortRead      // a fixed-width field runs past the end of the file
    | FormatMissing  // a `data` chunk before any `fmt ` chunk
    | ZeroFrameSize  // a `data` chunk while bits per sample or channels is 0

  /** Where the `data` chunk is and how many frames it holds. */
  datatype DataInfo = DataInfo(chunkStart: nat, size: nat, frames: nat)

  /** What the scan has gathered so far. Scalar fields hold the value from
      the last chunk of their kind (None until one is seen); `loops` keeps
      the loop records of every `smpl` chunk, in file order. */
  datatype Contents = Contents(
    chunks: seq<Chunk>,
    fmt: Option<Fmt>,
    data: Option<DataInfo>,
    smpl: Option<SmplHeader>,
    loops: seq<SampleLoop>,
    inst: Option<Inst>)

  const Empty := Contents([], None, None, None, [], None)

  /** The result of a successful scan: the size of the file as measured,
      the length the header declares, and what the chunks held. */
  datatype WaveInfo = WaveInfo(fileSize: nat, riffLength: nat, contents: Contents)

  /** The typed reader for chunk `c`, if its id is one of the four known
      ones. The reader starts at `c.start + 8` and may run on past the
      chunk; only the end of the file stops it. */
  function Interpret(b: seq<Byte>, ct: Contents, c: Chunk): (r: Result<Contents, ScanError>)
    requires c.start + 8 <= |b|
    ensures r.Ok? ==> r.value.chunks == ct.chunks
    ensures c.id !in {FMT, DATA, SMPL, INST} ==> r == Ok(ct)
  {
    var payload := b[c.start + 8..];
    if c.id == FMT then
      match DecodeFmt(payload, c.length)
      case None => Err(ShortRead)
      case Some(f) => Ok(ct.(fmt := Some(f)))
    else if c.id == DATA then
      if ct.fmt.None? then Err(FormatMissing)
      else if ct.fmt.value.bitsPerSample == 0 || ct.fmt.value.channels == 0 then Err(ZeroFrameSize)
      else
        var frames := FrameCount(c.length, ct.fmt.value.bitsPerSample, ct.fmt.value.channels);
        Ok(ct.(data := Some(DataInfo(c.start, c.length, frames))))
    else if c.id == SMPL then
      match DecodeSmpl(payload)
      case None => Err(ShortRead)
      case Some(m) => Ok(ct.(smpl := Some(m.header), loops := ct.loops + m.loops))
    else if c.id == INST then
      match DecodeInst(payload)
      case None => Err(ShortRead)
      case Some(i) => Ok(ct.(inst := Some(i)))
    else
      Ok(ct)
  }

  /** The chunk loop from position `pos`: the chunk is recorded, its reader
      runs, and the walk resumes at `start + 8 + length` whatever the reader
      consumed. A position past the end of the file fails at the next
      header read. */
  function Scan(b: seq<Byte>, pos: nat, ct: Contents): (r: Result<Contents, ScanError>)
    ensures r.Ok? ==> |ct.chunks| <= |r.value.chunks| && r.value.chunks[..|ct.chunks|] == ct.chunks
    decreases if pos <= |b| then |b| - pos + 1 else 0
  {
    if pos == |b| then Ok(ct)
    else if pos + 8 > |b| then Err(ShortRead)
    else
      var c := ChunkAt(b, pos);
      var next :- Interpret(b, ct.(chunks := ct.chunks + [c]), c);
      Scan(b, c.End(), next)
  }

  /** Reading a file: the header checks in the order the source makes
      them, then the chunk scan from offset 12. The declared RIFF length is
      recorded and never consulted; the file size is measured. */
  function Parse(b: seq<Byte>): (r: Result<WaveInfo, ScanError>)
    ensures r.Ok? ==> |b| >= 12 && b[..4] == RIFF && b[8..12] == WAVE
    ensures r.Ok? ==> r.value.fileSize == |b| && r.value.riffLength == U32(b, 4)
    ensures (|b| < 4 || b[..4] != RIFF) ==> r == Err(NotRiff)
    ensures |b| >= 8 && b[..4] == RIFF && (|b| < 12 || b[8..12] != WAVE) ==> r == Err(NotWave)
  {
    if |b| < 4 || b[..4] != RIFF then Err(NotRiff)
    else if |b| < 8 then Err(ShortRead)
    else if |b| < 12 || b[8..12] != WAVE then Err(NotWave)
    else
      var ct :- Scan(b, FirstChunk, Empty);
      Ok(WaveInfo(|b|, U32(b, 4), ct))
  }
}
