/** The typed readers for the four chunks wavefileinfo.py interprets
    (`fmt `, `data`, `smpl`, `inst`), each paired with an encoder that
    writes the same fields and a round-trip lemma.

    A reader is handed the file from `start + 8` to its end, not the
    chunk's payload: like the source, it may read past the chunk's
    declared length into whatever follows, and fails only when the file
    itself runs out.
 */
module WaveChunks {
  import opened Outcome
  import opened LittleEndian

  /** The `fmt ` chunk: its declared size and the fields read from it. */
  datatype Fmt = Fmt(
    chunkSize: nat,       // declared chunk length (`fmtChunkSize`)
    formatTag: nat,       // 1 = PCM, 3 = IEEE float
    channels: nat,
    samplesPerSec: nat,
    avgBytesPerSec: nat,
    blockAlign: nat,
    bitsPerSample: nat,
    extSize: nat)         // read only when chunkSize >= 18, else 0

  /** The declared `fmt ` size from which the extension-size field is read. */
  const FmtWithExtension: nat := 18

  /** How many bytes the `fmt ` reader consumes for a declared size. */
  function FmtReadSize(chunkSize: nat): nat {
    if chunkSize >= FmtWithExtension then 18 else 16
  }

  /** The `fmt ` reader: six fields at fixed offsets, and the extension
      size at offset 16 only when the declared size is at least 18. */
  function DecodeFmt(s: seq<Byte>, chunkSize: nat): (r: Option<Fmt>)
    ensures r.Some? <==> |s| >= FmtReadSize(chunkSize)
    ensures r.Some? ==> ValidFmt(r.value) && r.value.chunkSize == chunkSize
  {
    if |s| < FmtReadSize(chunkSize) then None
    else
      Some(Fmt(chunkSize, U16(s, 0), U16(s, 2), U32(s, 4), U32(s, 8), U16(s, 12), U16(s, 14),
               if chunkSize >= FmtWithExtension then U16(s, 16) else 0))
  }

  /** Field widths of `fmt `: u16 u16 u32 u32 u16 u16 [u16]. */
  ghost predicate ValidFmt(f: Fmt) {
    && f.formatTag < 0x1_0000 && f.channels < 0x1_0000
    && f.samplesPerSec < 0x1_0000_0000 && f.avgBytesPerSec < 0x1_0000_0000
    && f.blockAlign < 0x1_0000 && f.bitsPerSample < 0x1_0000
    && f.extSize < 0x1_0000
    && (f.chunkSize < FmtWithExtension ==> f.extSize == 0)
  }

  /** Field widths of the `fmt ` encoding; the extension size is written
      only when the declared size calls for it. */
  function FmtWidths(chunkSize: nat): seq<nat> {
    if chunkSize >= FmtWithExtension then [2, 2, 4, 4, 2, 2, 2] else [2, 2, 4, 4, 2, 2, 0]
  }

  function FmtFields(f: Fmt): seq<seq<Byte>> {
    [Encode(f.formatTag, 2), Encode(f.channels, 2), Encode(f.samplesPerSec, 4), Encode(f.avgBytesPerSec, 4),
     Encode(f.blockAlign, 2), Encode(f.bitsPerSample, 2),
     if f.chunkSize >= FmtWithExtension then Encode(f.extSize, 2) else []]
  }

  function EncodeFmt(f: Fmt): (s: seq<Byte>) {
    Concat(FmtFields(f))
  }

  /** The six fields every `fmt ` encoding holds read back at their offsets. */
  lemma FmtFieldsReadBack(f: Fmt, ws: seq<nat>, rest: seq<Byte>)
    requires ValidFmt(f) && ws == FmtWidths(f.chunkSize)
    ensures var t := EncodeFmt(f) + rest;
      && |t| >= FmtReadSize(f.chunkSize)
      && U16(t, 0) == f.formatTag && U16(t, 2) == f.channels
      && U32(t, 4) == f.samplesPerSec && U32(t, 8) == f.avgBytesPerSec
      && U16(t, 12) == f.blockAlign && U16(t, 14) == f.bitsPerSample
  {
    var ps := FmtFields(f);
    assert HasWidths(ps, ws);
    assert Offset(ws, 1) == 2 && Offset(ws, 2) == 4 && Offset(ws, 3) == 8;
    assert Offset(ws, 4) == 12 && Offset(ws, 5) == 14 && Offset(ws, 6) == 16;
    ReadBack16(ps, ws, 0, f.formatTag, rest);
    ReadBack16(ps, ws, 1, f.channels, rest);
    ReadBack32(ps, ws, 2, f.samplesPerSec, rest);
    ReadBack32(ps, ws, 3, f.avgBytesPerSec, rest);
    ReadBack16(ps, ws, 4, f.blockAlign, rest);
    ReadBack16(ps, ws, 5, f.bitsPerSample, rest);
    PieceAt(ps, ws, 6, rest);
  }

  /** Round trip: the `fmt ` reader gives back every field written,
      whatever bytes follow. */
  lemma FmtRoundTrip(f: Fmt, rest: seq<Byte>)
    requires ValidFmt(f)
    ensures DecodeFmt(EncodeFmt(f) + rest, f.chunkSize) == Some(f)
  {
    var ps := FmtFields(f);
    if f.chunkSize >= FmtWithExtension {
      FmtFieldsReadBack(f, [2, 2, 4, 4, 2, 2, 2], rest);
      ReadBack16(ps, [2, 2, 4, 4, 2, 2, 2], 6, f.extSize, rest);
    } else {
      FmtFieldsReadBack(f, [2, 2, 4, 4, 2, 2, 0], rest);
    }
  }

  /** One loop record of `smpl`: six u32 fields. */
  datatype SampleLoop = SampleLoop(
    cuePointId: nat, loopType: nat, start: nat, end: nat, fraction: nat, playCount: nat)

  /** The nine u32 fields that open a `smpl` chunk. */
  datatype SmplHeader = SmplHeader(
    manufacturer: nat, product: nat, samplePeriod: nat,
    midiUnityNote: nat, midiPitchFraction: nat,
    smpteFormat: nat, smpteOffset: nat,
    numberOfLoops: nat, samplerDataSize: nat)

  /** A decoded `smpl` chunk: its header and the loop records that follow. */
  datatype Smpl = Smpl(header: SmplHeader, loops: seq<SampleLoop>)

  /** Bytes of the nine header fields and of one loop record. */
  const SmplHeaderSize: nat := 36
  const LoopSize: nat := 24

  /** The loop record whose first byte is at offset `i`. */
  function LoopAt(s: seq<Byte>, i: nat): (l: SampleLoop)
    requires i + LoopSize <= |s|
    ensures ValidLoop(l)
  {
    SampleLoop(U32(s, i), U32(s, i + 4), U32(s, i + 8), U32(s, i + 12), U32(s, i + 16), U32(s, i + 20))
  }

  /** The nine header fields at offsets 0, 4, ..., 32. */
  function HeaderAt(s: seq<Byte>): (h: SmplHeader)
    requires SmplHeaderSize <= |s|
    ensures ValidSmplHeader(h)
  {
    SmplHeader(U32(s, 0), U32(s, 4), U32(s, 8), U32(s, 12), U32(s, 16),
               U32(s, 20), U32(s, 24), U32(s, 28), U32(s, 32))
  }

  /** The `smpl` reader: the header, then exactly `numberOfLoops` loop
      records, the k-th at offset 36 + 24k; it fails only when the file
      ends before the last of them. */
  function DecodeSmpl(s: seq<Byte>): (r: Option<Smpl>)
    ensures r.Some? <==> |s| >= SmplHeaderSize && |s| >= SmplHeaderSize + LoopSize * U32(s, 28)
    ensures r.Some? ==> ValidSmpl(r.value) && r.value.header == HeaderAt(s)
    ensures r.Some? ==> forall k :: 0 <= k < |r.value.loops| ==> r.value.loops[k] == LoopAt(s, SmplHeaderSize + LoopSize * k)
  {
    if |s| < SmplHeaderSize then None
    else
      var header := HeaderAt(s);
      var n := header.numberOfLoops;
      if |s| < SmplHeaderSize + LoopSize * n then None
      else Some(Smpl(header, seq(n, k requires 0 <= k < n => LoopAt(s, SmplHeaderSize + LoopSize * k))))
  }

  ghost predicate ValidLoop(l: SampleLoop) {
    && l.cuePointId < 0x1_0000_0000 && l.loopType < 0x1_0000_0000 && l.start < 0x1_0000_0000
    && l.end < 0x1_0000_0000 && l.fraction < 0x1_0000_0000 && l.playCount < 0x1_0000_0000
  }

  ghost predicate ValidSmplHeader(h: SmplHeader) {
    && h.manufacturer < 0x1_0000_0000 && h.product < 0x1_0000_0000 && h.samplePeriod < 0x1_0000_0000
    && h.midiUnityNote < 0x1_0000_0000 && h.midiPitchFraction < 0x1_0000_0000
    && h.smpteFormat < 0x1_0000_0000 && h.smpteOffset < 0x1_0000_0000
    && h.numberOfLoops < 0x1_0000_0000 && h.samplerDataSize < 0x1_0000_0000
  }

  ghost predicate ValidSmpl(m: Smpl) {
    && ValidSmplHeader(m.header)
    && |m.loops| == m.header.numberOfLoops
    && forall k :: 0 <= k < |m.loops| ==> ValidLoop(m.loops[k])
  }

  const LoopWidths: seq<nat> := [4, 4, 4, 4, 4, 4]
  const HeaderWidths: seq<nat> := [4, 4, 4, 4, 4, 4, 4, 4, 4]

  function LoopFields(l: SampleLoop): seq<seq<Byte>> {
    [Encode(l.cuePointId, 4), Encode(l.loopType, 4), Encode(l.start, 4),
     Encode(l.end, 4), Encode(l.fraction, 4), Encode(l.playCount, 4)]
  }

  function EncodeLoop(l: SampleLoop): (s: seq<Byte>)
    ensures |s| == LoopSize
  {
    ConcatUniform(LoopFields(l), 4);
    Concat(LoopFields(l))
  }

  function EncodeLoops(ls: seq<SampleLoop>): (s: seq<Byte>)
    ensures |s| == LoopSize * |ls|
    decreases |ls|
  {
    if |ls| == 0 then [] else EncodeLoop(ls[0]) + EncodeLoops(ls[1..])
  }

  function HeaderFields(h: SmplHeader): seq<seq<Byte>> {
    [Encode(h.manufacturer, 4), Encode(h.product, 4), Encode(h.samplePeriod, 4),
     Encode(h.midiUnityNote, 4), Encode(h.midiPitchFraction, 4), Encode(h.smpteFormat, 4),
     Encode(h.smpteOffset, 4), Encode(h.numberOfLoops, 4), Encode(h.samplerDataSize, 4)]
  }

  function EncodeSmplHeader(h: SmplHeader): (s: seq<Byte>)
    ensures |s| == SmplHeaderSize
  {
    ConcatUniform(HeaderFields(h), 4);
    Concat(HeaderFields(h))
  }

  function EncodeSmpl(m: Smpl): seq<Byte> {
    EncodeSmplHeader(m.header) + EncodeLoops(m.loops)
  }

  /** A record read at offset `i` is the record read from the bytes that
      start there. */
  lemma LoopAtShift(s: seq<Byte>, i: nat)
    requires i + LoopSize <= |s|
    ensures LoopAt(s, i) == LoopAt(s[i..], 0)
  {
    var t := s[i..];
    assert s[i..i + 4] == t[0..4];
    assert s[i + 4..i + 8] == t[4..8];
    assert s[i + 8..i + 12] == t[8..12];
    assert s[i + 12..i + 16] == t[12..16];
    assert s[i + 16..i + 20] == t[16..20];
    assert s[i + 20..i + 24] == t[20..24];
  }

  lemma LoopRoundTrip(l: SampleLoop, rest: seq<Byte>)
    requires ValidLoop(l)
    ensures LoopAt(EncodeLoop(l) + rest, 0) == l
  {
    var ps := LoopFields(l);
    assert HasWidths(ps, LoopWidths);
    ReadBack32(ps, LoopWidths, 0, l.cuePointId, rest);
    ReadBack32(ps, LoopWidths, 1, l.loopType, rest);
    ReadBack32(ps, LoopWidths, 2, l.start, rest);
    ReadBack32(ps, LoopWidths, 3, l.end, rest);
    ReadBack32(ps, LoopWidths, 4, l.fraction, rest);
    ReadBack32(ps, LoopWidths, 5, l.playCount, rest);
  }

  /** The k-th record of an encoded loop list sits at offset 24k. */
  lemma {:induction false} EncodedLoopAt(ls: seq<SampleLoop>, k: nat)
    requires k < |ls|
    ensures EncodeLoops(ls)[LoopSize * k..LoopSize * k + LoopSize] == EncodeLoop(ls[k])
    decreases k
  {
    var e := EncodeLoop(ls[0]);
    var tail := EncodeLoops(ls[1..]);
    assert EncodeLoops(ls) == e + tail;
    if k > 0 {
      EncodedLoopAt(ls[1..], k - 1);
      assert ls[1..][k - 1] == ls[k];
      assert (e + tail)[LoopSize * k..LoopSize * k + LoopSize] == tail[LoopSize * (k - 1)..LoopSize * (k - 1) + LoopSize];
    }
  }

  lemma SmplHeaderRoundTrip(h: SmplHeader, rest: seq<Byte>)
    requires ValidSmplHeader(h)
    ensures HeaderAt(EncodeSmplHeader(h) + rest) == h
  {
    var ps := HeaderFields(h);
    assert HasWidths(ps, HeaderWidths);
    ReadBack32(ps, HeaderWidths, 0, h.manufacturer, rest);
    ReadBack32(ps, HeaderWidths, 1, h.product, rest);
    ReadBack32(ps, HeaderWidths, 2, h.samplePeriod, rest);
    ReadBack32(ps, HeaderWidths, 3, h.midiUnityNote, rest);
    ReadBack32(ps, HeaderWidths, 4, h.midiPitchFraction, rest);
    ReadBack32(ps, HeaderWidths, 5, h.smpteFormat, rest);
    ReadBack32(ps, HeaderWidths, 6, h.smpteOffset, rest);
    ReadBack32(ps, HeaderWidths, 7, h.numberOfLoops, rest);
    ReadBack32(ps, HeaderWidths, 8, h.samplerDataSize, rest);
  }

  /** Round trip: the `smpl` reader gives back the header and exactly the
      loop records written after it, whatever bytes follow. */
  lemma SmplRoundTrip(m: Smpl, rest: seq<Byte>)
    requires ValidSmpl(m)
    ensures DecodeSmpl(EncodeSmpl(m) + rest) == Some(m)
  {
    var t := EncodeSmpl(m) + rest;
    var le := EncodeLoops(m.loops);
    assert t == EncodeSmplHeader(m.header) + (le + rest);
    SmplHeaderRoundTrip(m.header, le + rest);
    assert HeaderAt(t) == m.header;
    var n := m.header.numberOfLoops;
    assert |t| >= SmplHeaderSize + LoopSize * n;
    var r := DecodeSmpl(t);
    assert r.Some? && r.value.header == m.header && |r.value.loops| == n;
    forall k | 0 <= k < n ensures r.value.loops[k] == m.loops[k] {
      EncodedLoopReadBack(m, rest, k);
    }
    assert r.value.loops == m.loops;
  }

  /** The k-th loop record of an encoded `smpl` chunk reads back. */
  lemma EncodedLoopReadBack(m: Smpl, rest: seq<Byte>, k: nat)
    requires ValidSmpl(m) && k < |m.loops|
    ensures var t := EncodeSmpl(m) + rest;
      SmplHeaderSize + LoopSize * k + LoopSize <= |t|
      && LoopAt(t, SmplHeaderSize + LoopSize * k) == m.loops[k]
  {
    var t := EncodeSmpl(m) + rest;
    var at := SmplHeaderSize + LoopSize * k;
    var e := EncodeLoop(m.loops[k]);
    EncodedLoopAt(m.loops, k);
    assert t[at..at + LoopSize] == e;
    assert t[at..] == e + t[at + LoopSize..];
    LoopAtShift(t, at);
    LoopRoundTrip(m.loops[k], t[at + LoopSize..]);
  }

  /** The `inst` chunk: seven one-byte fields; fine tune and gain are signed. */
  datatype Inst = Inst(
    unshiftedNote: nat, fineTune: int, gain: int,
    lowNote: nat, highNote: nat, lowVelocity: nat, highVelocity: nat)

  const InstSize: nat := 7

  /** The `inst` reader: 'B' 'b' 'b' 'B' 'B' 'B' 'B'. */
  function DecodeInst(s: seq<Byte>): (r: Option<Inst>)
    ensures r.Some? <==> |s| >= InstSize
    ensures r.Some? ==> ValidInst(r.value)
  {
    if |s| < InstSize then None
    else Some(Inst(U8(s, 0), I8(s, 1), I8(s, 2), U8(s, 3), U8(s, 4), U8(s, 5), U8(s, 6)))
  }

  ghost predicate ValidInst(i: Inst) {
    && i.unshiftedNote < 256 && -128 <= i.fineTune < 128 && -128 <= i.gain < 128
    && i.lowNote < 256 && i.highNote < 256 && i.lowVelocity < 256 && i.highVelocity < 256
  }

  function EncodeInst(i: Inst): (s: seq<Byte>)
    requires ValidInst(i)
    ensures |s| == InstSize
  {
    [i.unshiftedNote, Unsigned(i.fineTune), Unsigned(i.gain),
     i.lowNote, i.highNote, i.lowVelocity, i.highVelocity]
  }

  /** Round trip, including the two signed bytes. */
  lemma InstRoundTrip(i: Inst, rest: seq<Byte>)
    requires ValidInst(i)
    ensures DecodeInst(EncodeInst(i) + rest) == Some(i)
  {
    SignedUnsigned(i.fineTune, 0);
    SignedUnsigned(i.gain, 0);
  }

  /** The frame count of a `data` chunk of `size` bytes:
      `size / ((bits / 8) * channels)`, truncated. The block-align field
      plays no part in it. */
  function FrameCount(size: nat, bits: nat, channels: nat): (frames: nat)
    requires bits > 0 && channels > 0
    ensures frames * (bits * channels) <= 8 * size < (frames + 1) * (bits * channels)
  {
    (8 * size) / (bits * channels)
  }

  /** For whole-byte samples and a payload of whole frames, the frame count
      times the frame size is exactly the payload size. */
  lemma FrameCountExact(size: nat, bits: nat, channels: nat)
    requires bits > 0 && channels > 0 && bits % 8 == 0
    requires size % ((bits / 8) * channels) == 0
    ensures FrameCount(size, bits, channels) * ((bits / 8) * channels) == size
  {
    var frame := (bits / 8) * channels;
    var d := bits * channels;
    var k := size / frame;
    assert size == k * frame;
    assert d == 8 * frame by {
      assert bits == 8 * (bits / 8);
    }
    assert 8 * size == k * d;
    var q := FrameCount(size, bits, channels);
    QuotientUnique(q, k, d);
  }

  /** A quotient is determined by the bounds that define it. */
  lemma QuotientUnique(q: nat, k: nat, d: nat)
    requires d > 0 && q * d <= k * d < (q + 1) * d
    ensures q == k
  {
    if q < k {
      MulMonotone(q + 1, k, d);
    } else if k < q {
      MulMonotone(k + 1, q, d);
    }
  }

  lemma MulMonotone(a: nat, b: nat, d: nat)
    requires a <= b
    ensures a * d <= b * d
  {
    assert b * d == a * d + (b - a) * d;
  }
}
