/** What a successful scan guarantees about the file it read.

    - The recorded chunks are exactly the chunk walk of `Riff.Layout` from
      offset 12, so they tile the file to its end (ScanFollowsLayout,
      ParseTiles).
    - Each known field holds what its reader decodes at the LAST chunk of
      its kind, and is absent exactly when no such chunk exists; the loop
      list is the concatenation of the loop records of every `smpl` chunk
      (the invariant `Agrees`, kept by every step: ParseAgrees).
    - The reader of every recorded chunk fit, not only the last of its
      kind (ReadersFit, part of `Agrees`); conversely, a file whose tags,
      chunk walk and readers all fit parses (ParseSucceeds).
    - The declared RIFF length takes no part in any of it (RiffLengthIgnored).
 */
module ScannerFacts {
  import opened Outcome
  import opened LittleEndian
  import opened Riff
  import opened WaveChunks
  import opened Scanner

  /** Index of the last chunk with id `id`, if any. */
  function LastOf(cs: seq<Chunk>, id: seq<Byte>): (r: Option<nat>)
    ensures r.Some? ==> r.value < |cs| && cs[r.value].id == id
    ensures r.Some? ==> forall k :: r.value < k < |cs| ==> cs[k].id != id
    ensures r.None? <==> forall k :: 0 <= k < |cs| ==> cs[k].id != id
    decreases |cs|
  {
    if |cs| == 0 then None
    else if cs[|cs| - 1].id == id then Some(|cs| - 1)
    else
      var r := LastOf(cs[..|cs| - 1], id);
      assert forall k :: 0 <= k < |cs| - 1 ==> cs[..|cs| - 1][k] == cs[k];
      r
  }

  /** Every chunk header lies in the file, so its reader has a start. */
  ghost predicate InFile(b: seq<Byte>, cs: seq<Chunk>) {
    forall k :: 0 <= k < |cs| ==> cs[k].start + 8 <= |b|
  }

  /** The loop records an `smpl` chunk contributes (none for other chunks). */
  function LoopsIn(b: seq<Byte>, c: Chunk): seq<SampleLoop>
    requires c.start + 8 <= |b|
  {
    if c.id != SMPL then []
    else match DecodeSmpl(b[c.start + 8..])
      case Some(m) => m.loops
      case None => []
  }

  /** The loop records of all `smpl` chunks of `cs`, in file order. */
  function AllLoops(b: seq<Byte>, cs: seq<Chunk>): seq<SampleLoop>
    requires InFile(b, cs)
    decreases |cs|
  {
    if |cs| == 0 then []
    else AllLoops(b, cs[..|cs| - 1]) + LoopsIn(b, cs[|cs| - 1])
  }

  ghost predicate FmtAgrees(b: seq<Byte>, ct: Contents)
    requires InFile(b, ct.chunks)
  {
    match LastOf(ct.chunks, FMT)
    case None => ct.fmt.None?
    case Some(k) =>
      ct.fmt.Some? && DecodeFmt(b[ct.chunks[k].start + 8..], ct.chunks[k].length) == ct.fmt
  }

  /** The last `data` chunk is recorded with its start and size, and its
      frame count comes from the last `fmt ` chunk BEFORE it (a later
      `fmt ` chunk does not revise it). */
  ghost predicate DataAgrees(b: seq<Byte>, ct: Contents)
    requires InFile(b, ct.chunks)
  {
    match LastOf(ct.chunks, DATA)
    case None => ct.data.None?
    case Some(k) =>
      && ct.data.Some?
      && ct.data.value.chunkStart == ct.chunks[k].start
      && ct.data.value.size == ct.chunks[k].length
      && FramesFrom(b, ct.chunks, k, ct.data.value.frames)
  }

  /** `frames` is the frame count of chunk `k` under the format of the
      last `fmt ` chunk before it. */
  ghost predicate FramesFrom(b: seq<Byte>, cs: seq<Chunk>, k: nat, frames: nat)
    requires InFile(b, cs) && k < |cs|
  {
    match LastOf(cs[..k], FMT)
    case None => false
    case Some(j) =>
      var f := DecodeFmt(b[cs[j].start + 8..], cs[j].length);
      && f.Some? && f.value.bitsPerSample > 0 && f.value.channels > 0
      && frames == FrameCount(cs[k].length, f.value.bitsPerSample, f.value.channels)
  }

  ghost predicate SmplAgrees(b: seq<Byte>, ct: Contents)
    requires InFile(b, ct.chunks)
  {
    match LastOf(ct.chunks, SMPL)
    case None => ct.smpl.None?
    case Some(k) =>
      && ct.smpl.Some?
      && ct.smpl.value.numberOfLoops <= |ct.loops|
      && DecodeSmpl(b[ct.chunks[k].start + 8..])
         == Some(Smpl(ct.smpl.value, ct.loops[|ct.loops| - ct.smpl.value.numberOfLoops..]))
  }

  ghost predicate InstAgrees(b: seq<Byte>, ct: Contents)
    requires InFile(b, ct.chunks)
  {
    match LastOf(ct.chunks, INST)
    case None => ct.inst.None?
    case Some(k) => ct.inst.Some? && DecodeInst(b[ct.chunks[k].start + 8..]) == ct.inst
  }

  /** The reader of chunk `k` succeeds: the fixed-width fields of a `fmt `,
      `smpl` or `inst` chunk fit in the file from its payload on, and a
      `data` chunk comes after a `fmt ` chunk whose last occurrence before
      it has nonzero bits per sample and channels. */
  ghost predicate ReaderFits(b: seq<Byte>, cs: seq<Chunk>, k: nat)
    requires InFile(b, cs) && k < |cs|
  {
    var c := cs[k];
    var payload := b[c.start + 8..];
    if c.id == FMT then DecodeFmt(payload, c.length).Some?
    else if c.id == DATA then FormatBefore(b, cs, k)
    else if c.id == SMPL then DecodeSmpl(payload).Some?
    else if c.id == INST then DecodeInst(payload).Some?
    else true
  }

  /** The last `fmt ` chunk before chunk `k` decodes to a nonzero frame size. */
  ghost predicate FormatBefore(b: seq<Byte>, cs: seq<Chunk>, k: nat)
    requires InFile(b, cs) && k <= |cs|
  {
    match LastOf(cs[..k], FMT)
    case None => false
    case Some(j) =>
      var f := DecodeFmt(b[cs[j].start + 8..], cs[j].length);
      f.Some? && f.value.bitsPerSample > 0 && f.value.channels > 0
  }

  /** Every recorded chunk's reader succeeds. */
  ghost predicate ReadersFit(b: seq<Byte>, cs: seq<Chunk>)
    requires InFile(b, cs)
  {
    forall k :: 0 <= k < |cs| ==> ReaderFits(b, cs, k)
  }

  /** The scan invariant: the gathered fields are what the recorded chunks say. */
  ghost predicate Agrees(b: seq<Byte>, ct: Contents) {
    && InFile(b, ct.chunks)
    && FmtAgrees(b, ct)
    && DataAgrees(b, ct)
    && SmplAgrees(b, ct)
    && InstAgrees(b, ct)
    && ct.loops == AllLoops(b, ct.chunks)
    && ReadersFit(b, ct.chunks)
  }

  lemma LastOfSnoc(cs: seq<Chunk>, c: Chunk, id: seq<Byte>)
    ensures LastOf(cs + [c], id) == if c.id == id then Some(|cs|) else LastOf(cs, id)
  {
    assert (cs + [c])[..|cs|] == cs;
  }

  lemma AllLoopsSnoc(b: seq<Byte>, cs: seq<Chunk>, c: Chunk)
    requires InFile(b, cs) && c.start + 8 <= |b|
    ensures InFile(b, cs + [c])
    ensures AllLoops(b, cs + [c]) == AllLoops(b, cs) + LoopsIn(b, c)
  {
    assert (cs + [c])[..|cs|] == cs;
  }

  /** What a successful typed reader for `c` does to the gathered state:
      it records `c`, sets the field of `c`'s kind to what the reader
      decodes at `c.start + 8` (appending the loop records for `smpl`),
      and leaves every other field alone. */
  ghost predicate Stepped(b: seq<Byte>, ct: Contents, c: Chunk, n: Contents)
    requires c.start + 8 <= |b|
  {
    var payload := b[c.start + 8..];
    && n.chunks == ct.chunks + [c]
    && (if c.id == FMT then n.fmt.Some? && n.fmt == DecodeFmt(payload, c.length) else n.fmt == ct.fmt)
    && (if c.id == DATA
        then && ct.fmt.Some? && ct.fmt.value.bitsPerSample > 0 && ct.fmt.value.channels > 0
             && n.data == Some(DataInfo(c.start, c.length,
                                        FrameCount(c.length, ct.fmt.value.bitsPerSample, ct.fmt.value.channels)))
        else n.data == ct.data)
    && (if c.id == SMPL
        then DecodeSmpl(payload).Some?
             && n.smpl == Some(DecodeSmpl(payload).value.header)
             && n.loops == ct.loops + DecodeSmpl(payload).value.loops
        else n.smpl == ct.smpl && n.loops == ct.loops)
    && (if c.id == INST then n.inst.Some? && n.inst == DecodeInst(payload) else n.inst == ct.inst)
  }

  /** The typed readers act as `Stepped` describes. */
  lemma InterpretSteps(b: seq<Byte>, ct: Contents, c: Chunk)
    requires c.start + 8 <= |b|
    ensures var r := Interpret(b, ct.(chunks := ct.chunks + [c]), c);
            r.Ok? ==> Stepped(b, ct, c, r.value)
  {
  }

  lemma StepFmt(b: seq<Byte>, ct: Contents, c: Chunk, n: Contents)
    requires InFile(b, ct.chunks) && FmtAgrees(b, ct) && c.start + 8 <= |b| && Stepped(b, ct, c, n)
    ensures InFile(b, n.chunks) && FmtAgrees(b, n)
  {
    LastOfSnoc(ct.chunks, c, FMT);
    var cs := ct.chunks + [c];
    assert forall k :: 0 <= k < |ct.chunks| ==> cs[k] == ct.chunks[k];
  }

  lemma StepData(b: seq<Byte>, ct: Contents, c: Chunk, n: Contents)
    requires InFile(b, ct.chunks) && FmtAgrees(b, ct) && DataAgrees(b, ct)
    requires c.start + 8 <= |b| && Stepped(b, ct, c, n)
    ensures InFile(b, n.chunks) && DataAgrees(b, n)
  {
    StepKeepsInFile(b, ct, c, n);
    if c.id == DATA {
      StepDataHit(b, ct, c, n);
    } else {
      StepDataMiss(b, ct, c, n);
    }
  }

  /** A `data` chunk becomes the last one, framed by the format in force. */
  lemma StepDataHit(b: seq<Byte>, ct: Contents, c: Chunk, n: Contents)
    requires InFile(b, ct.chunks) && InFile(b, n.chunks) && FmtAgrees(b, ct)
    requires c.start + 8 <= |b| && Stepped(b, ct, c, n) && c.id == DATA
    ensures DataAgrees(b, n)
  {
    LastOfSnoc(ct.chunks, c, DATA);
    var k := |ct.chunks|;
    assert n.chunks[..k] == ct.chunks;
    assert n.chunks[k] == c;
    var j := LastOf(ct.chunks, FMT).value;
    StepKeepsChunk(b, ct, c, n, j);
    FramesFromFmt(b, n.chunks, k, j, ct.fmt.value, n.data.value.frames);
  }

  lemma FramesFromFmt(b: seq<Byte>, cs: seq<Chunk>, k: nat, j: nat, f: Fmt, frames: nat)
    requires InFile(b, cs) && k < |cs| && LastOf(cs[..k], FMT) == Some(j)
    requires DecodeFmt(b[cs[j].start + 8..], cs[j].length) == Some(f)
    requires f.bitsPerSample > 0 && f.channels > 0
    requires frames == FrameCount(cs[k].length, f.bitsPerSample, f.channels)
    ensures FramesFrom(b, cs, k, frames)
  {
  }

  /** Any other chunk leaves the last `data` chunk and its record alone. */
  lemma StepDataMiss(b: seq<Byte>, ct: Contents, c: Chunk, n: Contents)
    requires InFile(b, ct.chunks) && InFile(b, n.chunks) && DataAgrees(b, ct)
    requires c.start + 8 <= |b| && Stepped(b, ct, c, n) && c.id != DATA
    ensures DataAgrees(b, n)
  {
    LastOfSnoc(ct.chunks, c, DATA);
    assert n.data == ct.data;
    match LastOf(ct.chunks, DATA)
    case None =>
    case Some(k) =>
      assert n.chunks[..k + 1] == ct.chunks[..k + 1];
      FramesFromSame(b, ct.chunks, n.chunks, k, ct.data.value.frames);
      assert n.chunks[k] == ct.chunks[k];
  }

  /** FramesFrom looks only at the chunks up to `k`. */
  lemma FramesFromSame(b: seq<Byte>, cs: seq<Chunk>, cs': seq<Chunk>, k: nat, frames: nat)
    requires InFile(b, cs) && InFile(b, cs') && k < |cs| && k < |cs'|
    requires cs[..k + 1] == cs'[..k + 1]
    requires FramesFrom(b, cs, k, frames)
    ensures FramesFrom(b, cs', k, frames)
  {
    assert cs[..k] == cs'[..k] by {
      assert cs[..k] == cs[..k + 1][..k];
      assert cs'[..k] == cs'[..k + 1][..k];
    }
    assert cs[k] == cs[..k + 1][k] == cs'[k];
    match LastOf(cs[..k], FMT)
    case None =>
    case Some(j) =>
      assert cs[j] == cs[..k + 1][j] == cs'[j];
  }

  lemma StepSmpl(b: seq<Byte>, ct: Contents, c: Chunk, n: Contents)
    requires InFile(b, ct.chunks) && SmplAgrees(b, ct) && c.start + 8 <= |b| && Stepped(b, ct, c, n)
    ensures InFile(b, n.chunks) && SmplAgrees(b, n)
  {
    StepKeepsInFile(b, ct, c, n);
    if c.id == SMPL {
      StepSmplHit(b, ct, c, n);
    } else {
      StepSmplMiss(b, ct, c, n);
    }
  }

  /** An `smpl` chunk becomes the last one and its reader's result is kept. */
  lemma StepSmplHit(b: seq<Byte>, ct: Contents, c: Chunk, n: Contents)
    requires InFile(b, n.chunks) && c.start + 8 <= |b| && Stepped(b, ct, c, n) && c.id == SMPL
    ensures SmplAgrees(b, n)
  {
    LastOfSnoc(ct.chunks, c, SMPL);
    var m := DecodeSmpl(b[c.start + 8..]).value;
    StepSmplDecode(b, ct, c, n);
    StepSmplLoops(b, ct, c, n);
    SmplAgreesAt(b, n, |ct.chunks|, m);
  }

  /** Any other chunk leaves the last `smpl` chunk and its loop records in place. */
  lemma StepSmplMiss(b: seq<Byte>, ct: Contents, c: Chunk, n: Contents)
    requires InFile(b, ct.chunks) && InFile(b, n.chunks) && SmplAgrees(b, ct)
    requires c.start + 8 <= |b| && Stepped(b, ct, c, n) && c.id != SMPL
    ensures SmplAgrees(b, n)
  {
    LastOfSnoc(ct.chunks, c, SMPL);
    assert n.smpl == ct.smpl && n.loops == ct.loops;
    match LastOf(ct.chunks, SMPL)
    case None =>
      SmplAgreesSame(b, ct, n, None);
    case Some(k) =>
      StepKeepsChunk(b, ct, c, n, k);
      SmplAgreesSame(b, ct, n, Some(k));
  }

  /** SmplAgrees depends only on the last `smpl` chunk and the two fields. */
  lemma SmplAgreesSame(b: seq<Byte>, ct: Contents, n: Contents, last: Option<nat>)
    requires InFile(b, ct.chunks) && InFile(b, n.chunks) && SmplAgrees(b, ct)
    requires LastOf(ct.chunks, SMPL) == last && LastOf(n.chunks, SMPL) == last
    requires last.Some? ==> n.chunks[last.value] == ct.chunks[last.value]
    requires n.smpl == ct.smpl && n.loops == ct.loops
    ensures SmplAgrees(b, n)
  {
  }

  lemma StepKeepsInFile(b: seq<Byte>, ct: Contents, c: Chunk, n: Contents)
    requires InFile(b, ct.chunks) && c.start + 8 <= |b| && Stepped(b, ct, c, n)
    ensures InFile(b, n.chunks)
  {
  }

  lemma StepKeepsChunk(b: seq<Byte>, ct: Contents, c: Chunk, n: Contents, k: nat)
    requires c.start + 8 <= |b| && Stepped(b, ct, c, n) && k < |ct.chunks|
    ensures n.chunks[k] == ct.chunks[k]
  {
  }

  lemma StepSmplDecode(b: seq<Byte>, ct: Contents, c: Chunk, n: Contents)
    requires InFile(b, n.chunks) && c.start + 8 <= |b| && Stepped(b, ct, c, n) && c.id == SMPL
    ensures DecodeSmpl(b[n.chunks[|ct.chunks|].start + 8..]) == DecodeSmpl(b[c.start + 8..])
  {
    assert n.chunks[|ct.chunks|] == c;
  }

  lemma StepSmplLoops(b: seq<Byte>, ct: Contents, c: Chunk, n: Contents)
    requires c.start + 8 <= |b| && Stepped(b, ct, c, n) && c.id == SMPL
    ensures var m := DecodeSmpl(b[c.start + 8..]).value;
            |m.loops| <= |n.loops| && n.loops[|n.loops| - |m.loops|..] == m.loops
  {
  }

  /** SmplAgrees from the decoded chunk `m` at the last `smpl` index `k`. */
  lemma SmplAgreesAt(b: seq<Byte>, n: Contents, k: nat, m: Smpl)
    requires InFile(b, n.chunks) && LastOf(n.chunks, SMPL) == Some(k)
    requires DecodeSmpl(b[n.chunks[k].start + 8..]) == Some(m)
    requires n.smpl == Some(m.header)
    requires |m.loops| <= |n.loops| && n.loops[|n.loops| - |m.loops|..] == m.loops
    ensures SmplAgrees(b, n)
  {
    var h := n.smpl.value;
    assert h == m.header && |m.loops| == h.numberOfLoops;
    assert Smpl(h, n.loops[|n.loops| - h.numberOfLoops..]) == m;
  }

  lemma StepInst(b: seq<Byte>, ct: Contents, c: Chunk, n: Contents)
    requires InFile(b, ct.chunks) && InstAgrees(b, ct) && c.start + 8 <= |b| && Stepped(b, ct, c, n)
    ensures InFile(b, n.chunks) && InstAgrees(b, n)
  {
    LastOfSnoc(ct.chunks, c, INST);
    var cs := ct.chunks + [c];
    assert InFile(b, cs);
    if c.id == INST {
      assert LastOf(n.chunks, INST) == Some(|ct.chunks|);
      assert n.chunks[|ct.chunks|] == c;
    } else {
      assert LastOf(n.chunks, INST) == LastOf(ct.chunks, INST);
      match LastOf(ct.chunks, INST)
      case None =>
      case Some(k) =>
        assert n.chunks[k] == ct.chunks[k];
    }
  }

  lemma StepLoops(b: seq<Byte>, ct: Contents, c: Chunk, n: Contents)
    requires InFile(b, ct.chunks) && ct.loops == AllLoops(b, ct.chunks) && c.start + 8 <= |b| && Stepped(b, ct, c, n)
    ensures InFile(b, n.chunks) && n.loops == AllLoops(b, n.chunks)
  {
    AllLoopsSnoc(b, ct.chunks, c);
  }

  lemma StepFits(b: seq<Byte>, ct: Contents, c: Chunk, n: Contents)
    requires InFile(b, ct.chunks) && FmtAgrees(b, ct) && ReadersFit(b, ct.chunks)
    requires c.start + 8 <= |b| && Stepped(b, ct, c, n)
    ensures InFile(b, n.chunks) && ReadersFit(b, n.chunks)
  {
    var cs := n.chunks;
    assert cs == ct.chunks + [c];
    forall k | 0 <= k < |cs|
      ensures ReaderFits(b, cs, k)
    {
      if k < |ct.chunks| {
        assert cs[..k + 1] == ct.chunks[..k + 1];
        ReaderFitsSame(b, ct.chunks, cs, k);
      } else {
        StepFitsLast(b, ct, c, n);
      }
    }
  }

  /** The reader that just succeeded fits. */
  lemma StepFitsLast(b: seq<Byte>, ct: Contents, c: Chunk, n: Contents)
    requires InFile(b, ct.chunks) && FmtAgrees(b, ct)
    requires c.start + 8 <= |b| && Stepped(b, ct, c, n)
    ensures InFile(b, n.chunks) && ReaderFits(b, n.chunks, |ct.chunks|)
  {
    StepKeepsInFile(b, ct, c, n);
    var cs := n.chunks;
    var k := |ct.chunks|;
    assert cs[..k] == ct.chunks && cs[k] == c;
    if c.id == DATA {
      StepFitsData(b, ct, c, cs);
    } else {
      StepFitsOther(b, ct, c, n);
    }
  }

  /** A `data` chunk read under the format in force has a format before it. */
  lemma StepFitsData(b: seq<Byte>, ct: Contents, c: Chunk, cs: seq<Chunk>)
    requires InFile(b, ct.chunks) && FmtAgrees(b, ct) && InFile(b, cs)
    requires cs == ct.chunks + [c] && c.id == DATA
    requires ct.fmt.Some? && ct.fmt.value.bitsPerSample > 0 && ct.fmt.value.channels > 0
    ensures FormatBefore(b, cs, |ct.chunks|)
  {
    assert cs[..|ct.chunks|] == ct.chunks;
  }

  lemma StepFitsOther(b: seq<Byte>, ct: Contents, c: Chunk, n: Contents)
    requires InFile(b, n.chunks) && c.start + 8 <= |b| && Stepped(b, ct, c, n) && c.id != DATA
    ensures ReaderFits(b, n.chunks, |ct.chunks|)
  {
    assert n.chunks[|ct.chunks|] == c;
  }

  /** Whether reader `k` fits depends only on the chunks up to `k`. */
  lemma ReaderFitsSame(b: seq<Byte>, cs: seq<Chunk>, cs': seq<Chunk>, k: nat)
    requires InFile(b, cs) && InFile(b, cs') && k < |cs| && k < |cs'|
    requires cs[..k + 1] == cs'[..k + 1]
    ensures ReaderFits(b, cs, k) == ReaderFits(b, cs', k)
  {
    assert cs[..k] == cs'[..k] by {
      assert cs[..k] == cs[..k + 1][..k];
      assert cs'[..k] == cs'[..k + 1][..k];
    }
    assert cs[k] == cs[..k + 1][k] == cs'[k];
    if cs[k].id == DATA {
      FormatBeforeSame(b, cs, cs', k);
    }
  }

  lemma FormatBeforeSame(b: seq<Byte>, cs: seq<Chunk>, cs': seq<Chunk>, k: nat)
    requires InFile(b, cs) && InFile(b, cs') && k <= |cs| && k <= |cs'|
    requires cs[..k] == cs'[..k]
    ensures FormatBefore(b, cs, k) == FormatBefore(b, cs', k)
  {
    match LastOf(cs[..k], FMT)
    case None =>
    case Some(j) =>
      assert cs[j] == cs[..k][j] == cs'[j];
  }

  /** One step of the scan keeps the invariant. */
  lemma InterpretAgrees(b: seq<Byte>, ct: Contents, c: Chunk)
    requires Agrees(b, ct) && c.start + 8 <= |b|
    ensures var r := Interpret(b, ct.(chunks := ct.chunks + [c]), c);
            r.Ok? ==> Agrees(b, r.value)
  {
    var r := Interpret(b, ct.(chunks := ct.chunks + [c]), c);
    if r.Ok? {
      var n := r.value;
      InterpretSteps(b, ct, c);
      StepFmt(b, ct, c, n);
      StepData(b, ct, c, n);
      StepSmpl(b, ct, c, n);
      StepInst(b, ct, c, n);
      StepLoops(b, ct, c, n);
      StepFits(b, ct, c, n);
    }
  }

  /** One turn of the chunk loop: record the chunk, run its reader, go on
      from its end. */
  lemma ScanUnfold(b: seq<Byte>, pos: nat, ct: Contents)
    requires pos != |b| && pos + 8 <= |b|
    ensures var c := ChunkAt(b, pos);
            var r := Interpret(b, ct.(chunks := ct.chunks + [c]), c);
            Scan(b, pos, ct) == if r.Ok? then Scan(b, c.End(), r.value) else Err(r.error)
  {
  }

  /** The whole walk keeps the invariant. */
  lemma {:induction false} ScanAgrees(b: seq<Byte>, pos: nat, ct: Contents)
    requires Agrees(b, ct)
    ensures Scan(b, pos, ct).Ok? ==> Agrees(b, Scan(b, pos, ct).value)
    decreases if pos <= |b| then |b| - pos + 1 else 0
  {
    if pos != |b| && pos + 8 <= |b| {
      var c := ChunkAt(b, pos);
      ScanUnfold(b, pos, ct);
      InterpretAgrees(b, ct, c);
      var r := Interpret(b, ct.(chunks := ct.chunks + [c]), c);
      if r.Ok? {
        ScanAgrees(b, c.End(), r.value);
      }
    }
  }

  /** The chunks the scan records from `pos` are exactly the chunk walk
      from `pos`: the typed readers never shift a chunk boundary. */
  lemma {:induction false} ScanFollowsLayout(b: seq<Byte>, pos: nat, ct: Contents)
    ensures var r := Scan(b, pos, ct);
            r.Ok? ==> Layout(b, pos) == Ok(r.value.chunks[|ct.chunks|..])
    decreases if pos <= |b| then |b| - pos + 1 else 0
  {
    var r := Scan(b, pos, ct);
    if pos == |b| {
      assert ct.chunks[|ct.chunks|..] == [];
    } else if r.Ok? {
      var c := ChunkAt(b, pos);
      var ct1 := ct.(chunks := ct.chunks + [c]);
      ScanUnfold(b, pos, ct);
      var next := Interpret(b, ct1, c).value;
      assert r == Scan(b, c.End(), next);
      ScanFollowsLayout(b, c.End(), next);
      var all := r.value.chunks;
      assert all[..|ct1.chunks|] == ct1.chunks;
      assert all[|ct.chunks|..] == [c] + all[|ct1.chunks|..] by {
        assert all[|ct.chunks|] == ct1.chunks[|ct.chunks|];
      }
    }
  }

  /** A parsed file's chunks are the walk from offset 12: they tile the
      file from 12 to its end, one record per chunk, in file order, with
      strictly increasing starts and every chunk inside the file. */
  lemma ParseTiles(b: seq<Byte>)
    ensures var r := Parse(b);
            r.Ok? ==>
              var cs := r.value.contents.chunks;
              && Layout(b, FirstChunk) == Ok(cs)
              && Tiling(b, cs, FirstChunk)
              && (forall i, j :: 0 <= i < j < |cs| ==> cs[i].start < cs[j].start)
              && (forall i :: 0 <= i < |cs| ==> FirstChunk <= cs[i].start && cs[i].End() <= |b|)
  {
    var r := Parse(b);
    if r.Ok? {
      var cs := r.value.contents.chunks;
      ScanFollowsLayout(b, FirstChunk, Empty);
      assert cs[0..] == cs;
      LayoutIsTiling(b, FirstChunk, cs);
      TilingOrdered(b, cs, FirstChunk);
    }
  }

  /** A parsed file satisfies the scan invariant. */
  lemma ParseAgrees(b: seq<Byte>)
    ensures Parse(b).Ok? ==> Agrees(b, Parse(b).value.contents)
  {
    if Parse(b).Ok? {
      ScanAgrees(b, FirstChunk, Empty);
    }
  }

  /** The header of a parsed file and what is measured from it. */
  ghost predicate HeaderParsed(b: seq<Byte>, info: WaveInfo) {
    && |b| >= 12 && b[..4] == RIFF && b[8..12] == WAVE
    && info.fileSize == |b| && info.riffLength == U32(b, 4)
  }

  /** Chunk starts strictly increase and every chunk lies inside the file. */
  ghost predicate ChunksOrdered(b: seq<Byte>, cs: seq<Chunk>) {
    && (forall i, j :: 0 <= i < j < |cs| ==> cs[i].start < cs[j].start)
    && (forall i :: 0 <= i < |cs| ==> FirstChunk <= cs[i].start && cs[i].End() <= |b|)
  }

  /** A reader that fits succeeds, whatever else has been gathered. */
  lemma InterpretOk(b: seq<Byte>, ct: Contents, c: Chunk)
    requires InFile(b, ct.chunks) && FmtAgrees(b, ct) && c.start + 8 <= |b|
    requires InFile(b, ct.chunks + [c]) && ReaderFits(b, ct.chunks + [c], |ct.chunks|)
    ensures Interpret(b, ct.(chunks := ct.chunks + [c]), c).Ok?
  {
    var cs := ct.chunks + [c];
    var k := |ct.chunks|;
    assert cs[k] == c;
    if c.id == DATA {
      assert cs[..k] == ct.chunks;
      assert FormatBefore(b, cs, k);
    }
  }

  /** The walk can go on from `pos` with `ct` gathered: the chunk walk from
      `pos` gives `rest`, and every reader fits in the chunks recorded so
      far followed by `rest`. */
  ghost predicate Resumable(b: seq<Byte>, pos: nat, ct: Contents, rest: seq<Chunk>) {
    && InFile(b, ct.chunks) && FmtAgrees(b, ct) && Layout(b, pos) == Ok(rest)
    && InFile(b, ct.chunks + rest) && ReadersFit(b, ct.chunks + rest)
  }

  /** The walk from `pos` succeeds when the chunk walk from there succeeds
      and every reader along it, counted with the chunks already recorded,
      fits. Only the format in force matters for that. */
  lemma {:induction false} ScanSucceeds(b: seq<Byte>, pos: nat, ct: Contents, rest: seq<Chunk>)
    requires Resumable(b, pos, ct, rest)
    ensures Scan(b, pos, ct).Ok?
    decreases |rest|
  {
    if pos != |b| {
      var next, n, tail := ResumeOne(b, pos, ct, rest);
      ScanSucceeds(b, next, n, tail);
    }
  }

  /** One turn of a resumable walk: the reader succeeds and the walk can go
      on from the end of the chunk. */
  lemma ResumeOne(b: seq<Byte>, pos: nat, ct: Contents, rest: seq<Chunk>)
    returns (next: nat, n: Contents, tail: seq<Chunk>)
    requires Resumable(b, pos, ct, rest) && pos != |b|
    ensures Scan(b, pos, ct) == Scan(b, next, n)
    ensures Resumable(b, next, n, tail) && |tail| < |rest|
  {
    var c := ChunkAt(b, pos);
    next := c.End();
    tail := LayoutNext(b, pos, rest);
    n := RunReader(b, ct, c, tail);
    StillResumable(b, ct, c, tail, n);
    ScanUnfold(b, pos, ct);
  }

  /** The chunk walk from `pos` is the chunk there followed by the walk
      from its end. */
  lemma LayoutNext(b: seq<Byte>, pos: nat, rest: seq<Chunk>) returns (tail: seq<Chunk>)
    requires Layout(b, pos) == Ok(rest) && pos != |b|
    ensures pos + 8 <= |b| && Layout(b, ChunkAt(b, pos).End()) == Ok(tail)
    ensures rest == [ChunkAt(b, pos)] + tail && |tail| < |rest|
  {
    tail := Layout(b, ChunkAt(b, pos).End()).value;
  }

  /** Recording one chunk moves it from the walk still to come to the
      chunks already seen. */
  lemma StillResumable(b: seq<Byte>, ct: Contents, c: Chunk, tail: seq<Chunk>, n: Contents)
    requires Layout(b, c.End()) == Ok(tail)
    requires InFile(b, ct.chunks + ([c] + tail)) && ReadersFit(b, ct.chunks + ([c] + tail))
    requires n.chunks == ct.chunks + [c] && InFile(b, n.chunks) && FmtAgrees(b, n)
    ensures Resumable(b, c.End(), n, tail)
  {
    assert n.chunks + tail == ct.chunks + ([c] + tail);
  }

  /** A reader that fits runs and keeps the format in force up to date. */
  lemma RunReader(b: seq<Byte>, ct: Contents, c: Chunk, tail: seq<Chunk>) returns (n: Contents)
    requires InFile(b, ct.chunks) && FmtAgrees(b, ct) && c.start + 8 <= |b|
    requires InFile(b, ct.chunks + ([c] + tail)) && ReadersFit(b, ct.chunks + ([c] + tail))
    ensures Interpret(b, ct.(chunks := ct.chunks + [c]), c) == Ok(n)
    ensures n.chunks == ct.chunks + [c] && InFile(b, n.chunks) && FmtAgrees(b, n)
  {
    NextFits(b, ct.chunks, c, tail);
    InterpretOk(b, ct, c);
    InterpretSteps(b, ct, c);
    n := Interpret(b, ct.(chunks := ct.chunks + [c]), c).value;
    StepFmt(b, ct, c, n);
  }

  /** The next chunk's reader fits when it fits in the whole list. */
  lemma NextFits(b: seq<Byte>, done: seq<Chunk>, c: Chunk, tail: seq<Chunk>)
    requires InFile(b, done + ([c] + tail)) && ReadersFit(b, done + ([c] + tail))
    ensures InFile(b, done + [c]) && ReaderFits(b, done + [c], |done|)
  {
    var all := done + ([c] + tail);
    var cs := done + [c];
    var k := |done|;
    assert all[k] == c && cs[k] == c;
    assert all[..k + 1] == cs[..k + 1];
    assert ReaderFits(b, all, k);
    ReaderFitsSame(b, all, cs, k);
  }

  /** The conditions under which the source reads a file without raising:
      both tags, a chunk walk from offset 12 that ends exactly at the end
      of the file, and a reader that fits for every chunk on it. */
  ghost predicate Readable(b: seq<Byte>) {
    && |b| >= 12 && b[..4] == RIFF && b[8..12] == WAVE
    && Layout(b, FirstChunk).Ok?
    && InFile(b, Layout(b, FirstChunk).value)
    && ReadersFit(b, Layout(b, FirstChunk).value)
  }

  /** A file parses exactly when it is readable. */
  lemma ParseSucceeds(b: seq<Byte>)
    ensures Parse(b).Ok? <==> Readable(b)
  {
    if Parse(b).Ok? {
      ParseTiles(b);
      ParseAgrees(b);
    }
    if Readable(b) {
      var cs := Layout(b, FirstChunk).value;
      assert Empty.chunks + cs == cs;
      assert Resumable(b, FirstChunk, Empty, cs);
      ScanSucceeds(b, FirstChunk, Empty, cs);
    }
  }

  /** Everything a successful parse guarantees, in one predicate: the
      header, the measured size, the tiling and the scan invariant. */
  ghost predicate Parsed(b: seq<Byte>, info: WaveInfo) {
    && HeaderParsed(b, info)
    && Tiling(b, info.contents.chunks, FirstChunk)
    && ChunksOrdered(b, info.contents.chunks)
    && Agrees(b, info.contents)
  }

  lemma ParseGives(b: seq<Byte>, info: WaveInfo)
    requires Parse(b) == Ok(info)
    ensures Parsed(b, info)
  {
    ParseGivesHeader(b, info);
    ParseGivesTiling(b, info);
    ParseGivesAgrees(b, info);
  }

  lemma ParseGivesHeader(b: seq<Byte>, info: WaveInfo)
    requires Parse(b) == Ok(info)
    ensures HeaderParsed(b, info)
  {
  }

  lemma ParseGivesTiling(b: seq<Byte>, info: WaveInfo)
    requires Parse(b) == Ok(info)
    ensures Tiling(b, info.contents.chunks, FirstChunk) && ChunksOrdered(b, info.contents.chunks)
  {
    ParseTiles(b);
  }

  lemma ParseGivesAgrees(b: seq<Byte>, info: WaveInfo)
    requires Parse(b) == Ok(info)
    ensures Agrees(b, info.contents)
  {
    ParseAgrees(b);
  }

  /** The scan from `pos` reads nothing before `from`: two files that agree
      from `from` on scan alike. */
  lemma {:induction false} ScanLocal(b: seq<Byte>, b': seq<Byte>, from: nat, pos: nat, ct: Contents)
    requires |b| == |b'| && from <= pos && from <= |b| && b[from..] == b'[from..]
    ensures Scan(b, pos, ct) == Scan(b', pos, ct)
    decreases if pos <= |b| then |b| - pos + 1 else 0
  {
    if pos != |b| && pos + 8 <= |b| {
      assert forall k :: from <= k < |b| ==> b[k] == b'[k] by {
        forall k | from <= k < |b| ensures b[k] == b'[k] {
          assert b[k] == b[from..][k - from];
        }
      }
      assert b[pos..pos + 4] == b'[pos..pos + 4];
      assert b[pos + 4..pos + 8] == b'[pos + 4..pos + 8];
      var c := ChunkAt(b, pos);
      assert c == ChunkAt(b', pos);
      assert b[c.start + 8..] == b'[c.start + 8..];
      var ct1 := ct.(chunks := ct.chunks + [c]);
      assert Interpret(b, ct1, c) == Interpret(b', ct1, c);
      ScanUnfold(b, pos, ct);
      ScanUnfold(b', pos, ct);
      var r := Interpret(b, ct1, c);
      if r.Ok? {
        ScanLocal(b, b', from, c.End(), r.value);
      }
    }
  }

  /** The declared RIFF length (bytes 4..8) does not bound or steer the
      scan: rewriting it changes nothing but the recorded value, and a
      file that fails still fails with the same error. */
  lemma RiffLengthIgnored(b: seq<Byte>, declared: nat)
    requires |b| >= 8 && declared < 0x1_0000_0000
    ensures var b' := b[..4] + Encode(declared, 4) + b[8..];
            && Parse(b').Ok? == Parse(b).Ok?
            && (Parse(b).Ok? ==>
                  Parse(b') == Ok(Parse(b).value.(riffLength := declared)))
            && (Parse(b).Err? ==> Parse(b') == Parse(b))
  {
    var b' := b[..4] + Encode(declared, 4) + b[8..];
    assert |b'| == |b|;
    assert b'[..4] == b[..4];
    assert b'[4..8] == Encode(declared, 4);
    ValueOfEncode(declared, 4);
    if |b| >= 12 {
      assert b'[8..12] == b[8..12];
      assert b[FirstChunk..] == b'[FirstChunk..];
      ScanLocal(b, b', FirstChunk, FirstChunk, Empty);
    }
  }
}
