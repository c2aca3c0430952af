/**
 * Byte-level building blocks of the archive format: little-endian 16- and 32-bit fields
 * as `DataView.setUint16`/`setUint32` with the little-endian flag store them, the
 * matching readers, and the concatenation of byte buffers.
 */
module Bytes {

  /** One byte of a buffer, as a `Uint8Array` element holds it. */
  newtype byte = x: int | 0 <= x < 0x100

  const Two16: nat := 0x1_0000
  const Two32: nat := 0x1_0000_0000

  /** The numbers a 32-bit unsigned field can hold. */
  type uint32 = x: nat | x < 0x1_0000_0000

  /**
   * The two bytes a 16-bit field holds for `v`, low byte first. A value of 2^16 or more
   * wraps silently, as the DataView write does.
   */
  function Le16(v: nat): (r: seq<byte>)
    ensures |r| == 2
  {
    [(v % 0x100) as byte, (v / 0x100 % 0x100) as byte]
  }

  /** The four bytes a 32-bit field holds for `v`, low byte first, `v` taken modulo 2^32. */
  function Le32(v: nat): (r: seq<byte>)
    ensures |r| == 4
  {
    [(v % 0x100) as byte, (v / 0x100 % 0x100) as byte,
     (v / 0x1_0000 % 0x100) as byte, (v / 0x100_0000 % 0x100) as byte]
  }

  /** The 16-bit little-endian field of `s` at byte `pos`. */
  function ReadLe16(s: seq<byte>, pos: nat): nat
    requires pos + 2 <= |s|
  {
    s[pos] as nat + 0x100 * s[pos + 1] as nat
  }

  /** The 32-bit little-endian field of `s` at byte `pos`. */
  function ReadLe32(s: seq<byte>, pos: nat): nat
    requires pos + 4 <= |s|
  {
    ReadLe16(s, pos) + Two16 * ReadLe16(s, pos + 2)
  }

  /** Division by a constant pins down quotient and remainder. */
  lemma ModOfSum16(v: nat, q: nat, r: nat)
    requires v == Two16 * q + r && r < Two16
    ensures v % Two16 == r && v / Two16 == q
  {}

  lemma ModOfSum32(v: nat, q: nat, r: nat)
    requires v == Two32 * q + r && r < Two32
    ensures v % Two32 == r
  {}

  lemma ModSplit16(v: nat)
    ensures v % Two16 == v % 0x100 + 0x100 * (v / 0x100 % 0x100)
  {
    var q, r := v / 0x100, v % 0x100;
    var q2, r2 := q / 0x100, q % 0x100;
    assert v == 0x100 * q + r;
    assert q == 0x100 * q2 + r2;
    assert v == Two16 * q2 + (0x100 * r2 + r);
    ModOfSum16(v, q2, 0x100 * r2 + r);
  }

  lemma ModSplit32(v: nat)
    ensures v % Two32 == v % Two16 + Two16 * (v / Two16 % Two16)
  {
    var q, r := v / Two16, v % Two16;
    var q2, r2 := q / Two16, q % Two16;
    assert v == Two16 * q + r;
    assert q == Two16 * q2 + r2;
    assert v == Two32 * q2 + (Two16 * r2 + r);
    ModOfSum32(v, q2, Two16 * r2 + r);
  }

  lemma DivDiv(v: nat)
    ensures v / 0x100_0000 == v / Two16 / 0x100
  {}

  /** Reading a 16-bit field back gives the value written, reduced modulo 2^16. */
  lemma Le16RoundTrip(v: nat)
    ensures ReadLe16(Le16(v), 0) == v % Two16
  {
    ModSplit16(v);
  }

  /** The upper half of a 32-bit field is the 16-bit field of the value's upper half. */
  lemma Le32UpperHalf(v: nat)
    ensures Le32(v)[2..] == Le16(v / Two16)
  {
    DivDiv(v);
  }

  /** Reading a 32-bit field back gives the value written, reduced modulo 2^32. */
  lemma Le32RoundTrip(v: nat)
    ensures ReadLe32(Le32(v), 0) == v % Two32
  {
    var r := Le32(v);
    assert r[..2] == Le16(v);
    ReadLe16OfSlice(r, 0, Le16(v));
    Le16RoundTrip(v);
    Le32UpperHalf(v);
    ReadLe16OfSlice(r, 2, Le16(v / Two16));
    Le16RoundTrip(v / Two16);
    ModSplit32(v);
  }

  /** A field read from a slice is the field read from the whole sequence at the slice's offset. */
  lemma ReadLe16OfSlice(s: seq<byte>, pos: nat, field: seq<byte>)
    requires pos + 2 <= |s| && s[pos..pos + 2] == field
    ensures ReadLe16(s, pos) == ReadLe16(field, 0)
  {
    assert s[pos] == field[0] && s[pos + 1] == field[1];
  }

  // ---------------------------------------------------------------------------
  // Concatenation

  /** The buffers laid end to end, first buffer first; exactly as long as they are together. */
  function Concat(parts: seq<seq<byte>>): (r: seq<byte>)
    ensures |r| == TotalLength(parts)
  {
    if parts == [] then [] else Concat(parts[..|parts| - 1]) + parts[|parts| - 1]
  }

  /** The sum of the buffers' lengths (the `reduce` that sizes the result). */
  function TotalLength(parts: seq<seq<byte>>): nat
  {
    if parts == [] then 0 else TotalLength(parts[..|parts| - 1]) + |parts[|parts| - 1]|
  }

  /** Buffer `k` appears unchanged in the concatenation, starting where the buffers before it end. */
  lemma {:induction false} ConcatPlacesPart(parts: seq<seq<byte>>, k: nat)
    requires k < |parts|
    ensures TotalLength(parts[..k]) + |parts[k]| <= |Concat(parts)|
    ensures Concat(parts)[TotalLength(parts[..k])..TotalLength(parts[..k]) + |parts[k]|] == parts[k]
    decreases |parts|
  {
    var init := parts[..|parts| - 1];
    if k == |parts| - 1 {
      assert parts[..k] == init;
    } else {
      assert init[..k] == parts[..k];
      ConcatPlacesPart(init, k);
      assert Concat(parts) == Concat(init) + parts[|parts| - 1];
    }
  }

  /** Buffer `k` keeps its place when more bytes follow the concatenation. */
  lemma PartInFront(parts: seq<seq<byte>>, k: nat, rest1: seq<byte>, rest2: seq<byte>)
    requires k < |parts|
    ensures TotalLength(parts[..k]) + |parts[k]| <= TotalLength(parts)
    ensures (Concat(parts) + rest1 + rest2)[TotalLength(parts[..k])..TotalLength(parts[..k]) + |parts[k]|]
            == parts[k]
  {
    var lo := TotalLength(parts[..k]);
    var hi := lo + |parts[k]|;
    ConcatPlacesPart(parts, k);
    assert (Concat(parts) + rest1 + rest2)[lo..hi] == Concat(parts)[lo..hi];
  }

  /** Buffer `k` of `parts` keeps its place, shifted by `|pre|`, between other bytes. */
  lemma PartInMiddle(pre: seq<byte>, parts: seq<seq<byte>>, k: nat, post: seq<byte>)
    requires k < |parts|
    ensures TotalLength(parts[..k]) + |parts[k]| <= TotalLength(parts)
    ensures (pre + Concat(parts) + post)[|pre| + TotalLength(parts[..k])..|pre| + TotalLength(parts[..k]) + |parts[k]|]
            == parts[k]
  {
    var lo := TotalLength(parts[..k]);
    var hi := lo + |parts[k]|;
    ConcatPlacesPart(parts, k);
    assert (pre + Concat(parts) + post)[|pre| + lo..|pre| + hi] == Concat(parts)[lo..hi];
  }

  /** The three parts of `a + b + c` can be sliced back out. */
  lemma ThreeParts(a: seq<byte>, b: seq<byte>, c: seq<byte>)
    ensures (a + b + c)[..|a|] == a
    ensures (a + b + c)[|a|..|a| + |b|] == b
    ensures (a + b + c)[|a| + |b|..] == c
  {
    assert (a + b + c)[..|a|] == a;
    assert (a + b + c)[|a|..|a| + |b|] == b;
  }

  /** Fields read inside the first part of `a + c` are the first part's own fields. */
  lemma ReadInFirst(a: seq<byte>, c: seq<byte>, pos: nat)
    requires pos + 4 <= |a|
    ensures ReadLe32(a + c, pos) == ReadLe32(a, pos)
    ensures ReadLe16(a + c, pos) == ReadLe16(a, pos)
  {
  }

  /** Fields read inside the last part of `a + c` are the last part's own fields. */
  lemma ReadInLast(a: seq<byte>, c: seq<byte>, pos: nat)
    requires pos + 4 <= |c|
    ensures ReadLe32(a + c, |a| + pos) == ReadLe32(c, pos)
    ensures ReadLe16(a + c, |a| + pos) == ReadLe16(c, pos)
  {
  }

  /** One more buffer is appended after the others. */
  lemma ConcatSnoc(parts: seq<seq<byte>>, p: seq<byte>)
    ensures Concat(parts + [p]) == Concat(parts) + p
  {
    assert (parts + [p])[..|parts|] == parts;
  }
}
