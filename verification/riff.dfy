/** The RIFF container layout that the scanner of wavefileinfo.py walks: a
    12-byte header `"RIFF" <u32 length> "WAVE"` followed by chunks
    `<4-byte id><u32 length><payload>`, as laid down by the Microsoft/IBM
    Multimedia Programming Interface and Data Specifications 1.0.

    `Layout` is the chunk walk alone, without the typed readers: it is the
    reference the scanner is proved against. `Tiling` describes the same
    walk by positions only, and `Serialize` builds a chunk sequence that
    `Layout` reads back.
 */
module Riff {
  import opened Outcome
  import opened LittleEndian

  const RIFF: seq<Byte> := [0x52, 0x49, 0x46, 0x46]  // "RIFF"
  const WAVE: seq<Byte> := [0x57, 0x41, 0x56, 0x45]  // "WAVE"
  const FMT:  seq<Byte> := [0x66, 0x6d, 0x74, 0x20]  // "fmt "
  const DATA: seq<Byte> := [0x64, 0x61, 0x74, 0x61]  // "data"
  const SMPL: seq<Byte> := [0x73, 0x6d, 0x70, 0x6c]  // "smpl"
  const INST: seq<Byte> := [0x69, 0x6e, 0x73, 0x74]  // "inst"

  /** Offset of the first chunk: just after the 12-byte RIFF/WAVE header. */
  const FirstChunk: nat := 12

  /** One visited chunk: its id, the offset of its id field and its declared
      payload length (the three parallel lists of the source, zipped). */
  datatype Chunk = Chunk(id: seq<Byte>, start: nat, length: nat) {
    /** Where the scanner resumes: `start + 8` plus the declared length. */
    function End(): nat {
      start + 8 + length
    }
  }

  /** The chunk header at `pos`: a 4-byte id and a u32 length. */
  function ChunkAt(b: seq<Byte>, pos: nat): (c: Chunk)
    requires pos + 8 <= |b|
    ensures c.start == pos && |c.id| == 4 && c.length < 0x1_0000_0000
    ensures c.End() >= pos + 8
  {
    Chunk(b[pos..pos + 4], pos, U32(b, pos + 4))
  }

  /** The chunk walk from `pos`: stop when the position equals the end of
      the file, fail when a chunk header does not fit (including a position
      already past the end), otherwise skip to `start + 8 + length`. */
  function Layout(b: seq<Byte>, pos: nat): Result<seq<Chunk>, ()>
    decreases if pos <= |b| then |b| - pos + 1 else 0
  {
    if pos == |b| then Ok([])
    else if pos + 8 > |b| then Err(())
    else
      var c := ChunkAt(b, pos);
      var rest :- Layout(b, c.End());
      Ok([c] + rest)
  }

  /** `cs` tiles `b` from `from` to the end of the file: the first chunk
      starts at `from`, each next one where the previous one ends, the last
      one ends exactly at the end of the file, and every chunk's header lies
      in the file and is what the file holds there. */
  ghost predicate Tiling(b: seq<Byte>, cs: seq<Chunk>, from: nat) {
    && (|cs| == 0 ==> from == |b|)
    && (|cs| > 0 ==> cs[0].start == from && cs[|cs| - 1].End() == |b|)
    && (forall i :: 0 <= i < |cs| - 1 ==> cs[i + 1].start == cs[i].End())
    && (forall i :: 0 <= i < |cs| ==> cs[i].start + 8 <= |b| && cs[i] == ChunkAt(b, cs[i].start))
  }

  /** The walk succeeds exactly when a tiling exists, and it returns it. */
  lemma LayoutIsTiling(b: seq<Byte>, from: nat, cs: seq<Chunk>)
    ensures Layout(b, from) == Ok(cs) <==> Tiling(b, cs, from)
  {
    if Layout(b, from) == Ok(cs) {
      LayoutTiles(b, from, cs);
    }
    if Tiling(b, cs, from) {
      TilingIsLayout(b, from, cs);
    }
  }

  lemma {:induction false} LayoutTiles(b: seq<Byte>, from: nat, cs: seq<Chunk>)
    requires Layout(b, from) == Ok(cs)
    ensures Tiling(b, cs, from)
    decreases if from <= |b| then |b| - from + 1 else 0
  {
    if from != |b| {
      var c := ChunkAt(b, from);
      var rest := Layout(b, c.End()).value;
      assert cs == [c] + rest;
      LayoutTiles(b, c.End(), rest);
      TilingCons(b, c, rest);
    }
  }

  /** A chunk header that fits, followed by a tiling from its end, tiles. */
  lemma TilingCons(b: seq<Byte>, c: Chunk, rest: seq<Chunk>)
    requires c.start + 8 <= |b| && c == ChunkAt(b, c.start)
    requires Tiling(b, rest, c.End())
    ensures Tiling(b, [c] + rest, c.start)
  {
    var cs := [c] + rest;
    forall i | 0 <= i < |cs| - 1 ensures cs[i + 1].start == cs[i].End() {
      assert cs[i + 1] == rest[i];
      if i > 0 {
        assert cs[i] == rest[i - 1];
      }
    }
    forall i | 0 <= i < |cs| ensures cs[i].start + 8 <= |b| && cs[i] == ChunkAt(b, cs[i].start) {
      if i > 0 {
        assert cs[i] == rest[i - 1];
      }
    }
    if |rest| > 0 {
      assert cs[|cs| - 1] == rest[|rest| - 1];
    }
  }

  lemma {:induction false} TilingIsLayout(b: seq<Byte>, from: nat, cs: seq<Chunk>)
    requires Tiling(b, cs, from)
    ensures Layout(b, from) == Ok(cs)
    decreases |cs|
  {
    if |cs| > 0 {
      var c := cs[0];
      assert c == ChunkAt(b, from);
      var rest := cs[1..];
      TilingTail(b, cs, from);
      TilingIsLayout(b, c.End(), rest);
      assert cs == [c] + rest;
    }
  }

  /** Dropping the first chunk of a tiling leaves a tiling from its end. */
  lemma TilingTail(b: seq<Byte>, cs: seq<Chunk>, from: nat)
    requires Tiling(b, cs, from) && |cs| > 0
    ensures Tiling(b, cs[1..], cs[0].End())
  {
    var rest := cs[1..];
    forall i | 0 <= i < |rest| ensures rest[i].start + 8 <= |b| && rest[i] == ChunkAt(b, rest[i].start) {
      assert rest[i] == cs[i + 1];
    }
    forall i | 0 <= i < |rest| - 1 ensures rest[i + 1].start == rest[i].End() {
      assert rest[i] == cs[i + 1];
    }
    if |rest| > 0 {
      assert rest[0] == cs[1];
    }
  }

  /** In a tiling, chunk starts strictly increase and every chunk, payload
      included, lies inside the file. */
  lemma {:induction false} TilingOrdered(b: seq<Byte>, cs: seq<Chunk>, from: nat)
    requires Tiling(b, cs, from)
    ensures forall i, j :: 0 <= i < j < |cs| ==> cs[i].start < cs[j].start
    ensures forall i :: 0 <= i < |cs| ==> from <= cs[i].start && cs[i].End() <= |b|
    decreases |cs|
  {
    if |cs| > 0 {
      var rest := cs[1..];
      if |rest| > 0 {
        assert rest[0] == cs[1];
        TilingOrdered(b, rest, cs[0].End());
        forall i, j | 0 <= i < j < |cs| ensures cs[i].start < cs[j].start {
          assert cs[j] == rest[j - 1];
          if i > 0 {
            assert cs[i] == rest[i - 1];
          }
        }
        forall i | 0 <= i < |cs| ensures from <= cs[i].start && cs[i].End() <= |b| {
          if i > 0 {
            assert cs[i] == rest[i - 1];
          }
        }
      }
    }
  }

  /** A chunk to be written: a 4-byte id and a payload a u32 can measure. */
  datatype RawChunk = RawChunk(id: seq<Byte>, payload: seq<Byte>)

  ghost predicate Writable(rcs: seq<RawChunk>) {
    forall k :: 0 <= k < |rcs| ==> |rcs[k].id| == 4 && |rcs[k].payload| < 0x1_0000_0000
  }

  /** The bytes of one chunk: id, little-endian length, payload (no pad byte). */
  function ChunkBytes(rc: RawChunk): seq<Byte> {
    rc.id + Encode(|rc.payload|, 4) + rc.payload
  }

  function Serialize(rcs: seq<RawChunk>): seq<Byte>
    decreases |rcs|
  {
    if |rcs| == 0 then [] else ChunkBytes(rcs[0]) + Serialize(rcs[1..])
  }

  /** The chunk records the walk reports for `rcs` written from offset `at`. */
  function Describe(rcs: seq<RawChunk>, at: nat): (cs: seq<Chunk>)
    ensures |cs| == |rcs|
    decreases |rcs|
  {
    if |rcs| == 0 then []
    else
      var c := Chunk(rcs[0].id, at, |rcs[0].payload|);
      [c] + Describe(rcs[1..], c.End())
  }

  /** Round trip: walking serialized chunks after any prefix reports each
      chunk with its id, its offset and its payload length. */
  lemma {:induction false} LayoutOfSerialize(prefix: seq<Byte>, rcs: seq<RawChunk>)
    requires Writable(rcs)
    ensures Layout(prefix + Serialize(rcs), |prefix|) == Ok(Describe(rcs, |prefix|))
    decreases |rcs|
  {
    var b := prefix + Serialize(rcs);
    if |rcs| > 0 {
      var rc := rcs[0];
      var cb := ChunkBytes(rc);
      var tail := Serialize(rcs[1..]);
      assert b == (prefix + cb) + tail;
      var p := |prefix|;
      assert b[p..p + 4] == rc.id;
      assert b[p + 4..p + 8] == Encode(|rc.payload|, 4);
      ValueOfEncode(|rc.payload|, 4);
      var c := ChunkAt(b, p);
      assert c == Chunk(rc.id, p, |rc.payload|);
      assert c.End() == |prefix + cb|;
      assert Writable(rcs[1..]) by {
        forall k | 0 <= k < |rcs[1..]|
          ensures |rcs[1..][k].id| == 4 && |rcs[1..][k].payload| < 0x1_0000_0000
        {
          assert rcs[1..][k] == rcs[k + 1];
        }
      }
      LayoutOfSerialize(prefix + cb, rcs[1..]);
    } else {
      assert b == prefix;
    }
  }
}
