# wavefileinfo in Dafny

A model of the `wavefileinfo` class of `wavefileinfo.py`. On construction the
class scans a RIFF/WAVE file once. It checks the `RIFF` and `WAVE` tags,
walks the chunk list from offset 12 to the measured end of the file, and
records every chunk's id, start and declared length. It hands the `fmt `,
`data`, `smpl` and `inst` chunks to fixed-layout readers, and then exposes
derived metadata: where the sample data starts, the frame count, the loop
count, the first loop's span, and two tuning resolvers (`rootnote`,
`finetune`) that reconcile the `smpl` and `inst` chunks.

The model treats the file as an immutable byte sequence (`seq<Byte>`). It has
these modules:

- `Outcome`: `Option` and `Result`.
- `LittleEndian`: the `struct.unpack` formats `I`, `H`, `B` and `b`, with an
  encoder and round-trip lemmas.
- `Riff`: chunk headers, the chunk walk `Layout`, and the tiling predicate
  that characterises it.
- `WaveChunks`: the `fmt `, `smpl` and `inst` readers, their encoders, and
  the frame-count division.
- `Scanner`: the scan `Parse`/`Scan`/`Interpret`, with the error each
  exception of the source becomes.
- `ScannerFacts`: the scan invariant `Agrees` and everything a successful
  `Parse` guarantees (`Parsed`).
- `Metadata`: `filesize`, `dataStart`, `dataChunkFrames`, `loopCount` and the
  first-loop accessors.
- `Tuning`: `rootnote` and `finetune` as written, plus a corrected
  `finetune` (see Findings).

Integer arithmetic is exact. Each Python exception that aborts construction
is an `Err` value:

| error | Python exception |
|---|---|
| `NotRiff`, `NotWave` | a tag check that raises |
| `ShortRead` | `struct.error` on a read past the end of the file |
| `FormatMissing` | `AttributeError` for a `data` chunk before any `fmt ` chunk |
| `ZeroFrameSize` | `ZeroDivisionError` |

Two behaviours of the code are worth stating up front:

- Duplicate chunks of a known kind are re-parsed, and the last one wins. The
  scalar fields hold the last chunk's values, and `loops` collects the
  records of every `smpl` chunk.
- A chunk reader may read past its chunk's declared length. It fails only at
  the end of the file, and the next chunk still starts at `start + 8 + length`.

## Model

| member | source | states |
|---|---|---|
| `LittleEndian.Value` | wavefileinfo.py:59 | an n-byte little-endian field is below 256^n |
| `LittleEndian.EncodeOfValue` | wavefileinfo.py:59 | decoding then re-encoding a field gives back the same bytes |
| `LittleEndian.ValueOfEncode` | wavefileinfo.py:66 | encoding then decoding a value below 256^n gives back the value |
| `LittleEndian.Signed` | wavefileinfo.py:115-116 | the `b` format: a byte read as two's complement lies in -128..127 and agrees with the byte modulo 256 |
| `LittleEndian.SignedUnsigned` | wavefileinfo.py:115-116 | the signed reading of a byte and the byte storing a signed value are inverses |
| `Riff.ChunkAt` | wavefileinfo.py:64-66 | a chunk header read at `pos` starts at `pos`, has a 4-byte id and a 32-bit length, and the chunk ends at or after `pos + 8` |
| `Riff.LayoutIsTiling` | wavefileinfo.py:63-66 | the chunk walk succeeds with chunk list `cs` exactly when `cs` tiles the file: it starts at the given offset, each chunk starts where the previous one ends (`start + 8 + length`), the last one ends at the end of the file, and each header is what the file holds there |
| `Riff.LayoutTiles` | wavefileinfo.py:122-124 | a successful walk yields a tiling |
| `Riff.TilingIsLayout` | wavefileinfo.py:63 | every tiling is what the walk yields, so the chunk list is unique |
| `Riff.TilingOrdered` | wavefileinfo.py:68-70 | in a tiling, starts strictly increase and every chunk lies between the first offset and the end of the file |
| `Riff.LayoutOfSerialize` | wavefileinfo.py:63-70 | chunks written back to back are walked back as the same ids, starts and lengths |
| `WaveChunks.DecodeFmt` | wavefileinfo.py:74-85 | the `fmt ` reader succeeds exactly when 16 bytes (18 when the declared length is at least 18) remain in the file; the extension size is 0 below 18 |
| `WaveChunks.FmtRoundTrip` | wavefileinfo.py:75-85 | the `fmt ` reader gives back every field written in its layout, whatever follows |
| `WaveChunks.DecodeSmpl` | wavefileinfo.py:91-111 | the `smpl` reader succeeds exactly when the 36-byte header and `numberOfLoops` 24-byte records fit; loop `k` is the record at `36 + 24k` |
| `WaveChunks.SmplRoundTrip` | wavefileinfo.py:92-111 | the `smpl` reader gives back the header and every loop record written in its layout |
| `WaveChunks.SmplHeaderRoundTrip` | wavefileinfo.py:92-100 | the nine header fields read back at their offsets |
| `WaveChunks.LoopRoundTrip` | wavefileinfo.py:104-110 | the six fields of one loop record read back |
| `WaveChunks.DecodeInst` | wavefileinfo.py:113-120 | the `inst` reader succeeds exactly when 7 bytes remain, and yields unsigned notes and velocities and signed fine tune and gain |
| `WaveChunks.InstRoundTrip` | wavefileinfo.py:114-120 | the `inst` reader gives back the seven fields written in its layout |
| `WaveChunks.FrameCount` | wavefileinfo.py:90 | the frame count is the truncated quotient: frames x frame bits <= 8 x size < (frames + 1) x frame bits |
| `WaveChunks.FrameCountExact` | wavefileinfo.py:90 | with whole-byte samples and whole frames, frames x bytes per frame is exactly the data size |
| `Scanner.Parse` | wavefileinfo.py:53-61 | a file without `RIFF` at 0 fails with `NotRiff`; one with it but without `WAVE` at 8 fails with `NotWave`; success implies both tags, the measured size, and the declared length read at offset 4 |
| `Scanner.Scan` | wavefileinfo.py:63-70 | the loop only appends to the recorded chunk list |
| `Scanner.Interpret` | wavefileinfo.py:74-120 | a chunk reader never changes the chunk list, and a chunk of unknown id changes nothing |
| `ScannerFacts.InterpretSteps` | wavefileinfo.py:74-120 | each reader sets exactly the field of its chunk kind: `fmt ` decoded, `data` start/size/frames under the current format (only if bits and channels are nonzero), `smpl` header replaced and loops appended, `inst` replaced; all other fields unchanged |
| `ScannerFacts.InterpretAgrees` | wavefileinfo.py:74-120 | one reader step keeps the scan invariant |
| `ScannerFacts.ScanAgrees` | wavefileinfo.py:63-124 | the whole walk keeps the invariant: each typed field is what the last chunk of its kind decodes to, `data` frames use the last `fmt ` before it, `loops` is every `smpl` chunk's records in file order, and the reader of EVERY recorded chunk fit (its bytes were in the file; each `data` chunk came after an `fmt ` with nonzero bits and channels) |
| `ScannerFacts.ScanFollowsLayout` | wavefileinfo.py:122-124 | the chunks the scan records are exactly the chunk walk: readers never move a chunk boundary |
| `ScannerFacts.ParseTiles` | wavefileinfo.py:63-70 | a parsed file's chunk list tiles the file from offset 12 to its measured end, in order, with strictly increasing starts |
| `ScannerFacts.ParseAgrees` | wavefileinfo.py:40-124 | a parsed file's fields satisfy the scan invariant, starting from all-None fields and empty lists: the last chunk of each kind gives its field, and every chunk's reader, not only the last one's, fit |
| `ScannerFacts.InterpretOk` | wavefileinfo.py:74-120 | a reader whose bytes are in the file (and, for `data`, under a format with nonzero bits and channels) succeeds |
| `ScannerFacts.ScanSucceeds` | wavefileinfo.py:63-124 | the walk from a position succeeds whenever the chunk walk from there succeeds and every reader along it fits |
| `ScannerFacts.ParseSucceeds` | wavefileinfo.py:53-124 | a parse succeeds exactly when the file has both tags, the chunk walk from offset 12 reaches the end of the file, and every chunk's reader fits |
| `ScannerFacts.ParseGives` | wavefileinfo.py:39-124 | a successful parse gives the header, the tiling, the order and the invariant together |
| `ScannerFacts.LastOf` | wavefileinfo.py:74-120 | the index found is the last chunk with the id; None exactly when no chunk has it |
| `ScannerFacts.RiffLengthIgnored` | wavefileinfo.py:52-63 | rewriting the declared RIFF length keeps success or failure; a parsed file changes only in the recorded length, and a failing one fails with the same error |
| `ScannerFacts.ScanLocal` | wavefileinfo.py:63-124 | the walk from a position never reads the bytes before it |
| `Metadata.FileSizeIsLength` | wavefileinfo.py:148-151 | `filesize` is the measured file length |
| `Metadata.DataStart` | wavefileinfo.py:225-228 | `dataStart` fails with a missing attribute exactly when no `data` chunk was read |
| `Metadata.DataStartInFile` | wavefileinfo.py:86-89 | `dataStart` exists exactly when the file has a `data` chunk; it is then the start of the last `data` chunk plus 8, the bytes 8 before it are the `data` id, and the declared data size fits in the file |
| `Metadata.DataChunkFrames` | wavefileinfo.py:235-238 | `dataChunkFrames` fails exactly when no `data` chunk was read |
| `Metadata.DataFramesBound` | wavefileinfo.py:86-90 | `dataChunkFrames` is the frame count of the last `data` chunk under the last `fmt ` chunk BEFORE it, whose bits and channels are nonzero |
| `Metadata.FramesOfParsed` | wavefileinfo.py:86-90 | under the scan invariant, that `fmt ` chunk precedes the last `data` chunk and frames x frame bits <= 8 x size < (frames + 1) x frame bits, for the size of that `data` chunk |
| `Metadata.LoopCount` | wavefileinfo.py:251-254 | `loopCount` is None exactly when no `smpl` chunk was read |
| `Metadata.LoopCountFromLastSmpl` | wavefileinfo.py:99 | `loopCount` is None exactly when the file has no `smpl` chunk, otherwise the 32-bit value at offset 28 of the last one |
| `Metadata.LoopsAccumulate` | wavefileinfo.py:102-111 | `loops` is all `smpl` chunks' records in file order and holds at least `loopCount` of them, so the first-loop accessors never hit an empty list |
| `Metadata.FirstLoop` | wavefileinfo.py:261-267 | no first loop exactly when the count is None or 0; an index error exactly when the count is positive and the list empty; otherwise `loops[0]` |
| `Metadata.LoopStart` | wavefileinfo.py:261-267 | `loopstart` is None without loops, else the first loop's start |
| `Metadata.LoopEnd` | wavefileinfo.py:269-275 | `loopend` is None without loops, else the first loop's end |
| `Metadata.LoopLength` | wavefileinfo.py:277-283 | `looplength` is None exactly when `loopstart` is |
| `Metadata.LoopLengthIsEndMinusStart` | wavefileinfo.py:277-283 | `looplength` is `loopend - loopstart` whenever all three exist |
| `Tuning.RootNote` | wavefileinfo.py:295-311 | `rootnote` is None exactly when both notes are absent; it is one of the notes given, and at least every note present |
| `Tuning.RootNoteIsMax` | wavefileinfo.py:300-306 | with both notes present `rootnote` is their maximum, with one present it is that one, and swapping the chunks does not change it |
| `Tuning.RootNoteOf` | wavefileinfo.py:295-311 | a scanned file's `rootnote` is None exactly when neither a `smpl` nor an `inst` chunk was read |
| `Tuning.TuningOfParsed` | wavefileinfo.py:295-334 | in a parsed file `rootnote` and `finetune` are None, or fail, exactly when the file has no `smpl` and no `inst` chunk |
| `Tuning.InstFromLastChunk` | wavefileinfo.py:113-115 | the `inst` values are byte 0 (unsigned) and byte 1 (signed) of the last `inst` chunk |
| `Tuning.CentsAsWritten` | wavefileinfo.py:317 | pitch fraction converted with the source's scale: the truncated quotient of fraction x 50 by 0x8000000 |
| `Tuning.Cents` | wavefileinfo.py:317 | pitch fraction converted with 0x80000000 as half a semitone: the truncated quotient of fraction x 50 by 0x80000000 |
| `Tuning.CentsBelowSemitone` | wavefileinfo.py:96 | at the corrected scale a 32-bit pitch fraction is below 100 cents, and 0x80000000 is exactly 50 |
| `Tuning.FineTune` | wavefileinfo.py:313-334 | as written: fails exactly when both values are absent; an `inst` fine tune always wins; a `smpl` fraction alone gives its cents at the source's scale |
| `Tuning.FineTuneIntended` | wavefileinfo.py:313-334 | corrected resolver: None exactly when both values are absent |
| `Tuning.FineTuneIntendedCases` | wavefileinfo.py:320-332 | corrected resolver: the `inst` value wins unless it is 0 and the `smpl` cents are not; a `smpl` fraction alone gives its cents |
| `Tuning.FineTuneAgreement` | wavefileinfo.py:320-332 | the two resolvers agree whenever `inst` is present and not overridden by a nonzero `smpl` value against a zero `inst` value |
| `Tuning.FineTuneOf` | wavefileinfo.py:313-334 | a scanned file's corrected `finetune` is None exactly when neither chunk was read, and the `inst` fine tune when only `inst` was |
| `Tuning.FineTuneAsWrittenOf` | wavefileinfo.py:313-334 | a scanned file's `finetune` as written fails exactly when neither chunk was read, and is the `inst` fine tune whenever an `inst` chunk was read |
| `Tuning.SelfComparisonWitness` | wavefileinfo.py:323-324 | `inst` fine tune 0 with a `smpl` fraction of half a semitone gives 0 as written, and 50 from the resolver with both the line-323 comparison and the line-317 scale corrected |
| `Tuning.PitchScaleWitness` | wavefileinfo.py:317 | a `smpl` fraction of half a semitone alone gives 800 cents as written, 50 when corrected |
| `Tuning.UnboundWitness` | wavefileinfo.py:333-334 | neither chunk present: the source fails where the corrected resolver gives None |

## Left out

- File I/O. The file is a byte sequence given as a parameter; opening, seeking, and measuring the size with `seek(0, 2)` are not modelled, and the measured size is `|b|`.
- Re-reading. `__readfile__` can run again (from `dataAsRawBytes`); the model treats one scan of one byte sequence.
- `dataAsRawBytes` is left out because it only re-reads the file and slices bytes.
- `pathname` and `filename` are left out. They are the path the file was opened from and its `os.path.basename` (wavefileinfo.py:126-136), and the byte-sequence model has no path.
- `RIFFchunkID` is left out. It reads an attribute that is never assigned (wavefileinfo.py:138-141), so it always raises `AttributeError`.
- `sRiffType` is left out. It returns bytes 8..12, which are `WAVE` in every parsed file (`Scanner.Parse` ensures it).
- The getters that only return a stored field are left out: `dwFileLength` (`riffLength`), the `fmt ` fields, `dataChunkStart`, `dataChunkSize`, `smpl_midiunitynote`, `inst_unshiftednote`, `loops`. The stored values are fields of `WaveInfo` and its parts.
- `fourCCbackwards` is left out; it returns a constant.
- `attributes` and `print_attributes` are left out; they are reflection and printing.
- The sample-decoding code in the string at lines 337-382 is left out because it never runs.
- The getters and setters of `__sampleloopinfo` (lines 384-439) are left out; the record is the datatype `SampleLoop`.
- The exception classes are not modelled. Python's `raise ("...")` raises a `TypeError`, not the message; the model gives each failure its own error kind.
- WaveChunks.FrameCount: line 90 divides in floating point and line 238 truncates with `int()`; the model uses the exact truncated quotient instead. The two agree on every input the file can hold. `bits / 8 * channels` is an exact float, and with a 32-bit size a quotient 8 x size / (bits x channels) that is not an integer lies at least 1 / (bits x channels) from the next integer, farther than the rounding error of one correctly rounded division.
- Tuning.CentsAsWritten: line 317 divides in floating point; the model uses the exact truncated quotient instead. The two agree for every 32-bit fraction. The divisor 0x8000000 / 50 is rounded up by less than one part in 10^16, the quotient 25 x fraction / 2^26 is below 1600, and when it is not an integer it lies at least 2^-26 from one, far beyond the rounding error; when it is an integer, that error is below half a unit in the last place, so the float result is the integer itself.
- Scanner.Scan: its own contract states only that the chunk list grows by appending. What the walk records is stated by `ScannerFacts.ScanFollowsLayout` and `ScannerFacts.ScanAgrees`.
- Scanner.Interpret: its own contract states only that the chunk list is kept and unknown ids change nothing. What each reader sets is stated by `ScannerFacts.InterpretSteps`.
- Pad bytes. The scan does not skip the pad byte after an odd-length chunk that RIFF requires, and the model does the same.
- The gain, key-range and velocity fields of `inst` and the other `smpl` header fields are decoded and round-tripped, but no property uses them, because none of the derived metadata does.

## Findings

| source | as written | input that shows it | evidently intended | confidence | as-written member | corrected member |
|---|---|---|---|---|---|---|
| wavefileinfo.py:323 | `inst_finetune == inst_finetune` compares the `inst` value with itself, so an `inst` chunk always wins and lines 325-330 are dead | `inst` fine tune 0, `smpl` pitch fraction 0x80000000: result 0 | compare with `mpf_in_cents`, so that a zero `inst` value yields the `smpl` cents (50 once the line-317 scale is corrected as well; 800 at the source's scale) | high, not executed | `Tuning.SelfComparisonWitness` | `Tuning.FineTuneIntendedCases` |
| wavefileinfo.py:317 | cents = fraction / (0x8000000 / 50); 0x8000000 is one sixteenth of the half-semitone value | `smpl` pitch fraction 0x80000000 alone: 800 cents | 0x80000000 stands for 50 cents, so a 32-bit fraction is below 100 cents | high, not executed | `Tuning.PitchScaleWitness` | `Tuning.CentsBelowSemitone` |
| wavefileinfo.py:333-334 | `mpf_in_cents` is returned when neither value is set, and it is unbound then | a file with neither `smpl` nor `inst`: UnboundLocalError | None, as the docstring says | high, not executed | `Tuning.UnboundWitness` | `Tuning.FineTuneIntended` |
