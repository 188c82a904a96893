/** The tuning resolvers `rootnote` and `finetune` of wavefileinfo.py,
    which reconcile the `smpl` chunk (MIDI unity note, MIDI pitch fraction)
    with the `inst` chunk (unshifted note, signed fine tune in cents).

    `FineTune` is the resolver as written. Three things in it are evidently
    unintended, and `FineTuneIntended` is the resolver with them corrected:
    - the pitch fraction is scaled by 0x8000000 / 50 where the `smpl`
      definition makes 0x80000000 half a semitone (50 cents), so cents come
      out sixteen times too large (`CentsAsWritten` against `Cents`);
    - the comparison meant to check whether the two chunks agree compares
      the `inst` value with itself, so the `smpl` value is never consulted
      when both are present;
    - with neither chunk present the cents variable is read before it is
      assigned, which raises instead of returning None.
 */
module Tuning {
  import opened Outcome
  import opened WaveChunks
  import opened LittleEndian
  import opened Riff
  import opened Scanner
  import opened ScannerFacts
  import opened Metadata

  /** `rootnote`: the note both chunks give, the single one present, or the
      higher of two that disagree. */
  function RootNote(smplNote: Option<nat>, instNote: Option<nat>): (r: Option<nat>)
    ensures r.None? <==> smplNote.None? && instNote.None?
    ensures r.Some? ==> r == smplNote || r == instNote
    ensures smplNote.Some? ==> r.Some? && r.value >= smplNote.value
    ensures instNote.Some? ==> r.Some? && r.value >= instNote.value
  {
    if smplNote.Some? then
      if instNote.Some? then
        if smplNote.value == instNote.value then smplNote
        else if instNote.value > smplNote.value then instNote
        else smplNote
      else smplNote
    else instNote
  }

  /** The larger of two notes, as a reference for `RootNote`. */
  function Max(a: nat, b: nat): nat {
    if a >= b then a else b
  }

  /** `rootnote` is the maximum of the notes present, and which chunk a note
      came from does not matter. */
  lemma RootNoteIsMax(smplNote: Option<nat>, instNote: Option<nat>)
    ensures smplNote.Some? && instNote.Some? ==>
              RootNote(smplNote, instNote) == Some(Max(smplNote.value, instNote.value))
    ensures smplNote.Some? && instNote.None? ==> RootNote(smplNote, instNote) == smplNote
    ensures smplNote.None? ==> RootNote(smplNote, instNote) == instNote
    ensures RootNote(smplNote, instNote) == RootNote(instNote, smplNote)
  {
  }

  /** `rootnote` of a scanned file: the unity note of the last `smpl` chunk
      against the unshifted note of the last `inst` chunk. */
  function RootNoteOf(info: WaveInfo): (r: Option<nat>)
    ensures r.None? <==> info.contents.smpl.None? && info.contents.inst.None?
  {
    RootNote(
      if info.contents.smpl.Some? then Some(info.contents.smpl.value.midiUnityNote) else None,
      if info.contents.inst.Some? then Some(info.contents.inst.value.unshiftedNote) else None)
  }

  /** The divisor scale of the source: 0x8000000, one sixteenth of the
      pitch-fraction value that stands for half a semitone. */
  const PitchScaleAsWritten: nat := 0x800_0000

  /** The pitch-fraction value that stands for half a semitone (50 cents). */
  const HalfSemitone: nat := 0x8000_0000

  /** Cents as the source computes them: fraction / (0x8000000 / 50),
      truncated toward zero. */
  function CentsAsWritten(fraction: nat): (c: nat)
    ensures c * PitchScaleAsWritten <= fraction * 50 < (c + 1) * PitchScaleAsWritten
  {
    (fraction * 50) / PitchScaleAsWritten
  }

  /** Cents as the `smpl` definition means them: 0x80000000 is 50 cents. */
  function Cents(fraction: nat): (c: nat)
    ensures c * HalfSemitone <= fraction * 50 < (c + 1) * HalfSemitone
  {
    (fraction * 50) / HalfSemitone
  }

  /** A 32-bit pitch fraction is less than a semitone. */
  lemma CentsBelowSemitone(fraction: nat)
    requires fraction < 0x1_0000_0000
    ensures Cents(fraction) < 100
    ensures Cents(HalfSemitone) == 50
  {
  }

  datatype TuningError =
    | CentsUnbound  // the cents variable is read before any assignment

  /** The branches after the self-comparison, kept as written; they are
      reached only when `fine == fine` is false, which it never is. */
  function ResolveDisagreement(cents: nat, fine: int): int {
    if cents == 0 && fine != 0 then fine
    else if cents != 0 && fine == 0 then cents
    else fine
  }

  /** `finetune` as written. */
  function FineTune(fraction: Option<nat>, instFine: Option<int>): (r: Result<int, TuningError>)
    ensures r.Err? <==> fraction.None? && instFine.None?
    ensures instFine.Some? ==> r == Ok(instFine.value)
    ensures fraction.Some? && instFine.None? ==> r == Ok(CentsAsWritten(fraction.value))
  {
    if instFine.Some? then
      var fine := instFine.value;
      if fraction.Some? then
        var cents := CentsAsWritten(fraction.value);
        if fine == fine then Ok(fine)
        else Ok(ResolveDisagreement(cents, fine))
      else Ok(fine)
    else if fraction.Some? then Ok(CentsAsWritten(fraction.value))
    else Err(CentsUnbound)
  }

  /** `finetune` as evidently intended: the `inst` value wins unless it is
      zero while the `smpl` fraction gives a nonzero value; cents are scaled
      by the standard constant; no chunk gives None. */
  function FineTuneIntended(fraction: Option<nat>, instFine: Option<int>): (r: Option<int>)
    ensures r.None? <==> fraction.None? && instFine.None?
  {
    if instFine.Some? then
      var fine := instFine.value;
      if fraction.Some? then
        var cents := Cents(fraction.value);
        if cents == fine then Some(fine)
        else Some(ResolveDisagreement(cents, fine))
      else Some(fine)
    else if fraction.Some? then Some(Cents(fraction.value))
    else None
  }

  /** What the intended resolver decides, case by case: the `smpl` value is
      used only when it is the only one, or when `inst` says 0 and `smpl`
      does not. */
  lemma FineTuneIntendedCases(fraction: Option<nat>, instFine: Option<int>)
    ensures fraction.None? && instFine.None? ==> FineTuneIntended(fraction, instFine) == None
    ensures fraction.Some? && instFine.None? ==> FineTuneIntended(fraction, instFine) == Some(Cents(fraction.value))
    ensures instFine.Some? && (fraction.None? || instFine.value != 0 || Cents(fraction.value) == 0) ==>
              FineTuneIntended(fraction, instFine) == instFine
    ensures fraction.Some? && instFine == Some(0) && Cents(fraction.value) != 0 ==>
              FineTuneIntended(fraction, instFine) == Some(Cents(fraction.value))
  {
  }

  /** Where the two resolvers agree: whenever `inst` is present and the
      intended resolver does not override it with the `smpl` value. */
  lemma FineTuneAgreement(fraction: Option<nat>, instFine: Option<int>)
    requires instFine.Some? && (fraction.None? || instFine.value != 0 || Cents(fraction.value) == 0)
    ensures FineTune(fraction, instFine) == Ok(FineTuneIntended(fraction, instFine).value)
  {
  }

  /** The self-comparison: a file whose `inst` chunk says 0 and whose
      `smpl` chunk says half a semitone gets 0 from the source, where the
      intended resolver gives 50. The 50 combines both corrections: with
      only the comparison fixed, the source's scale would give 800. */
  lemma SelfComparisonWitness()
    ensures FineTune(Some(HalfSemitone), Some(0)) == Ok(0)
    ensures FineTuneIntended(Some(HalfSemitone), Some(0)) == Some(50)
  {
    assert Cents(HalfSemitone) == 50;
  }

  /** The scale: half a semitone comes out as 800 cents, not 50. */
  lemma PitchScaleWitness()
    ensures FineTune(Some(HalfSemitone), None) == Ok(800)
    ensures FineTuneIntended(Some(HalfSemitone), None) == Some(50)
  {
    assert CentsAsWritten(HalfSemitone) == 800;
    assert Cents(HalfSemitone) == 50;
  }

  /** No tuning chunk at all: the source fails instead of returning None. */
  lemma UnboundWitness()
    ensures FineTune(None, None) == Err(CentsUnbound)
    ensures FineTuneIntended(None, None) == None
  {
  }

  /** `finetune` of a scanned file, with the corrections applied: the pitch
      fraction of the last `smpl` chunk against the fine tune of the last
      `inst` chunk. */
  function FineTuneOf(info: WaveInfo): (r: Option<int>)
    ensures r.None? <==> info.contents.smpl.None? && info.contents.inst.None?
    ensures info.contents.inst.Some? && info.contents.smpl.None? ==> r == Some(info.contents.inst.value.fineTune)
  {
    FineTuneIntended(
      if info.contents.smpl.Some? then Some(info.contents.smpl.value.midiPitchFraction) else None,
      if info.contents.inst.Some? then Some(info.contents.inst.value.fineTune) else None)
  }

  /** `finetune` of a scanned file as the source computes it. */
  function FineTuneAsWrittenOf(info: WaveInfo): (r: Result<int, TuningError>)
    ensures r.Err? <==> info.contents.smpl.None? && info.contents.inst.None?
    ensures info.contents.inst.Some? ==> r == Ok(info.contents.inst.value.fineTune)
  {
    FineTune(
      if info.contents.smpl.Some? then Some(info.contents.smpl.value.midiPitchFraction) else None,
      if info.contents.inst.Some? then Some(info.contents.inst.value.fineTune) else None)
  }

  /** In a parsed file, both resolvers answer None (or fail) exactly when
      the file has neither a `smpl` nor an `inst` chunk. */
  lemma TuningOfParsed(b: seq<Byte>, info: WaveInfo)
    requires Parse(b) == Ok(info)
    ensures var cs := info.contents.chunks;
            var none := forall k :: 0 <= k < |cs| ==> cs[k].id != SMPL && cs[k].id != INST;
            && (RootNoteOf(info).None? <==> none)
            && (FineTuneOf(info).None? <==> none)
            && (FineTuneAsWrittenOf(info).Err? <==> none)
  {
    ParseGives(b, info);
    SmplOfParsed(b, info);
    InstOfParsed(b, info);
  }

  /** The `inst` values the resolvers use are the unsigned byte 0 and the
      signed byte 1 of the last `inst` chunk. */
  lemma InstFromLastChunk(b: seq<Byte>, info: WaveInfo)
    requires Parse(b) == Ok(info)
    ensures var cs := info.contents.chunks;
            info.contents.inst.None? <==> forall k :: 0 <= k < |cs| ==> cs[k].id != INST
    ensures var cs := info.contents.chunks;
            LastOf(cs, INST).Some? ==>
              var k := LastOf(cs, INST).value;
              && cs[k].start + 8 + InstSize <= |b|
              && info.contents.inst == Some(DecodeInst(b[cs[k].start + 8..]).value)
              && info.contents.inst.value.unshiftedNote == U8(b, cs[k].start + 8)
              && info.contents.inst.value.fineTune == I8(b, cs[k].start + 9)
  {
    ParseGives(b, info);
    InstOfParsed(b, info);
  }

  lemma InstOfParsed(b: seq<Byte>, info: WaveInfo)
    requires InFile(b, info.contents.chunks) && InstAgrees(b, info.contents)
    ensures var cs := info.contents.chunks;
            info.contents.inst.None? <==> forall k :: 0 <= k < |cs| ==> cs[k].id != INST
    ensures var cs := info.contents.chunks;
            LastOf(cs, INST).Some? ==>
              var k := LastOf(cs, INST).value;
              && cs[k].start + 8 + InstSize <= |b|
              && info.contents.inst == Some(DecodeInst(b[cs[k].start + 8..]).value)
              && info.contents.inst.value.unshiftedNote == U8(b, cs[k].start + 8)
              && info.contents.inst.value.fineTune == I8(b, cs[k].start + 9)
  {
    var cs := info.contents.chunks;
    match LastOf(cs, INST)
    case None =>
    case Some(k) =>
      var p := b[cs[k].start + 8..];
      assert DecodeInst(p) == info.contents.inst;
      assert p[0] == b[cs[k].start + 8] && p[1] == b[cs[k].start + 9];
  }
}
