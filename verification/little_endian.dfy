/** Fixed-width little-endian fields, as `struct.unpack` with the native
    formats 'I', 'H', 'B' and 'b' decodes them on a little-endian host.

    `Value`/`Encode` are the general n-byte codec; `U16`, `U32`, `U8` and
    `I8` read one field at a fixed offset. A caller checks first that the
    field lies inside the sequence: that check is where the source's
    `struct.unpack` raises `struct.error` on a short read.
 */
module LittleEndian {

  type Byte = b: int | 0 <= b < 256

  /** 256 to the power n: one more than the largest n-byte unsigned value. */
  function Pow256(n: nat): (p: nat)
    ensures p >= 1
  {
    if n == 0 then 1 else 256 * Pow256(n - 1)
  }

  /** The unsigned value of `s`, least significant byte first. */
  function Value(s: seq<Byte>): (v: nat)
    ensures v < Pow256(|s|)
  {
    if |s| == 0 then 0
    else
      var rest := Value(s[1..]);
      assert rest <= Pow256(|s| - 1) - 1;
      s[0] + 256 * rest
  }

  /** The low `n` bytes of `x`, least significant first. */
  function Encode(x: nat, n: nat): (s: seq<Byte>)
    ensures |s| == n
  {
    if n == 0 then [] else [x % 256] + Encode(x / 256, n - 1)
  }

  /** Unsigned byte at `i` ('B'). */
  function U8(s: seq<Byte>, i: nat): (v: nat)
    requires i + 1 <= |s|
    ensures v < 256
  {
    s[i]
  }

  /** Unsigned 16-bit field at `i` ('H'). */
  function U16(s: seq<Byte>, i: nat): (v: nat)
    requires i + 2 <= |s|
    ensures v < 0x1_0000
  {
    assert Pow256(2) == 0x1_0000;
    Value(s[i..i + 2])
  }

  /** Unsigned 32-bit field at `i` ('I'). */
  function U32(s: seq<Byte>, i: nat): (v: nat)
    requires i + 4 <= |s|
    ensures v < 0x1_0000_0000
  {
    assert Pow256(4) == 0x1_0000_0000;
    Value(s[i..i + 4])
  }

  /** The two's-complement reading of one byte. */
  function Signed(x: Byte): (v: int)
    ensures -128 <= v < 128
    ensures (v - x) % 256 == 0
  {
    if x < 128 then x else x - 256
  }

  /** The byte that stores a signed value in two's complement. */
  function Unsigned(v: int): (x: Byte)
    requires -128 <= v < 128
  {
    if v < 0 then v + 256 else v
  }

  /** Signed byte at `i` ('b'). */
  function I8(s: seq<Byte>, i: nat): (v: int)
    requires i + 1 <= |s|
    ensures -128 <= v < 128
  {
    Signed(s[i])
  }

  /** Decoding what Encode wrote gives back the value. */
  lemma {:induction false} ValueOfEncode(x: nat, n: nat)
    requires x < Pow256(n)
    ensures Value(Encode(x, n)) == x
  {
    if n > 0 {
      var s := Encode(x, n);
      assert s[1..] == Encode(x / 256, n - 1);
      assert x / 256 < Pow256(n - 1);
      ValueOfEncode(x / 256, n - 1);
    }
  }

  /** Encoding a decoded value gives back the bytes. */
  lemma {:induction false} EncodeOfValue(s: seq<Byte>)
    ensures Encode(Value(s), |s|) == s
  {
    if |s| > 0 {
      var v := Value(s);
      assert v % 256 == s[0];
      assert v / 256 == Value(s[1..]);
      EncodeOfValue(s[1..]);
    }
  }

  /** Fields written one after another. */
  function Concat(ps: seq<seq<Byte>>): (s: seq<Byte>)
    decreases |ps|
  {
    if |ps| == 0 then [] else ps[0] + Concat(ps[1..])
  }

  /** Where field `j` starts when the fields have widths `ws`. */
  function Offset(ws: seq<nat>, j: nat): nat
    requires j <= |ws|
  {
    if j == 0 then 0 else Offset(ws, j - 1) + ws[j - 1]
  }

  ghost predicate HasWidths(ps: seq<seq<Byte>>, ws: seq<nat>) {
    |ps| == |ws| && forall k :: 0 <= k < |ps| ==> |ps[k]| == ws[k]
  }

  /** Field `j` of concatenated fields is found at its offset, whatever follows. */
  lemma {:induction false} PieceAt(ps: seq<seq<Byte>>, ws: seq<nat>, j: nat, rest: seq<Byte>)
    requires HasWidths(ps, ws) && j < |ps|
    ensures Offset(ws, j) + ws[j] <= |Concat(ps) + rest|
    ensures (Concat(ps) + rest)[Offset(ws, j)..Offset(ws, j) + ws[j]] == ps[j]
    decreases j
  {
    var tail := Concat(ps[1..]);
    assert Concat(ps) + rest == ps[0] + (tail + rest);
    OffsetTail(ws, j);
    if j > 0 {
      assert HasWidths(ps[1..], ws[1..]) by {
        forall k | 0 <= k < |ps[1..]| ensures |ps[1..][k]| == ws[1..][k] {
          assert ps[1..][k] == ps[k + 1];
        }
      }
      PieceAt(ps[1..], ws[1..], j - 1, rest);
      assert ps[1..][j - 1] == ps[j];
      var o := Offset(ws[1..], j - 1);
      assert (ps[0] + (tail + rest))[ws[0] + o..ws[0] + o + ws[j]] == (tail + rest)[o..o + ws[j]];
    }
  }

  /** Offsets past the first field are the tail's offsets shifted by its width. */
  lemma {:induction false} OffsetTail(ws: seq<nat>, j: nat)
    requires 0 < |ws| && j <= |ws|
    ensures j > 0 ==> Offset(ws, j) == ws[0] + Offset(ws[1..], j - 1)
    decreases j
  {
    if j > 1 {
      OffsetTail(ws, j - 1);
      assert ws[1..][j - 2] == ws[j - 1];
    }
  }

  /** Fields of one width `w` take `w` bytes each. */
  lemma {:induction false} ConcatUniform(ps: seq<seq<Byte>>, w: nat)
    requires forall k :: 0 <= k < |ps| ==> |ps[k]| == w
    ensures |Concat(ps)| == w * |ps|
    decreases |ps|
  {
    if |ps| > 0 {
      assert forall k :: 0 <= k < |ps[1..]| ==> |ps[1..][k]| == w by {
        forall k | 0 <= k < |ps[1..]| ensures |ps[1..][k]| == w {
          assert ps[1..][k] == ps[k + 1];
        }
      }
      ConcatUniform(ps[1..], w);
    }
  }

  /** A 16-bit field written as field `j` reads back at its offset. */
  lemma ReadBack16(ps: seq<seq<Byte>>, ws: seq<nat>, j: nat, x: nat, rest: seq<Byte>)
    requires HasWidths(ps, ws) && j < |ps| && ws[j] == 2
    requires x < 0x1_0000 && ps[j] == Encode(x, 2)
    ensures Offset(ws, j) + 2 <= |Concat(ps) + rest| && U16(Concat(ps) + rest, Offset(ws, j)) == x
  {
    PieceAt(ps, ws, j, rest);
    ValueOfEncode(x, 2);
  }

  /** A 32-bit field written as field `j` reads back at its offset. */
  lemma ReadBack32(ps: seq<seq<Byte>>, ws: seq<nat>, j: nat, x: nat, rest: seq<Byte>)
    requires HasWidths(ps, ws) && j < |ps| && ws[j] == 4
    requires x < 0x1_0000_0000 && ps[j] == Encode(x, 4)
    ensures Offset(ws, j) + 4 <= |Concat(ps) + rest| && U32(Concat(ps) + rest, Offset(ws, j)) == x
  {
    PieceAt(ps, ws, j, rest);
    ValueOfEncode(x, 4);
  }

  /** Signed and Unsigned are inverse to each other. */
  lemma SignedUnsigned(v: int, x: Byte)
    requires -128 <= v < 128
    ensures Signed(Unsigned(v)) == v
    ensures Unsigned(Signed(x)) == x
  {
  }
}
