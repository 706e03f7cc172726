/** Expanding bitmaps and replacing NULLs while copying an Arrow array
    (ArrowStorageUtils.cpp), for arrays with offset zero. */
module Bitmaps {

  // Bit `i` of a bitmap, counted from the lowest bit of the first byte.
  predicate Bit(bytes: seq<bv8>, i: nat)
    requires i < 8 * |bytes|
  {
    (bytes[i / 8] >> (i % 8)) & 1 == 1
  }

  predicate BitOf(byte: bv8, j: nat)
    requires j < 8
  {
    (byte >> j) & 1 == 1
  }

  function AsInt(b: bool): int { if b then 1 else 0 }

  lemma BitInByte(bytes: seq<bv8>, k: nat, j: nat)
    requires k < |bytes| && j < 8
    ensures 8 * k + j < 8 * |bytes| && Bit(bytes, 8 * k + j) == BitOf(bytes[k], j)
  {
  }

  // The code tests the complement of the bitmap byte.
  lemma ComplementBit(byte: bv8, j: nat)
    requires j < 8
    ensures (!byte >> j) & 1 == 1 <==> !BitOf(byte, j)
  {
  }

  // ---------------------------------------------------------------------------
  // Arrays
  // ---------------------------------------------------------------------------

  // A typed array, or a boolean array whose values are bits.  An absent null bitmap is [].
  datatype Array =
    | Typed(values: seq<int>, bitmap: seq<bv8>, length: nat)
    | Bits(bits: seq<bv8>, bitmap: seq<bv8>, length: nat)

  predicate ValidArray(a: Array) {
    && (a.Typed? ==> a.length <= |a.values|)
    && (a.Bits? ==> a.length <= 8 * |a.bits|)
    && (a.bitmap == [] || a.length <= 8 * |a.bitmap|)
  }

  predicate IsNull(a: Array, i: nat)
    requires ValidArray(a) && i < a.length
  {
    a.bitmap != [] && !Bit(a.bitmap, i)
  }

  function ValueAt(a: Array, i: nat): int
    requires ValidArray(a) && i < a.length
  {
    if a.Typed? then a.values[i] else AsInt(Bit(a.bits, i))
  }

  /** What row `i` becomes: its value, or the inline null value. */
  function Replaced(a: Array, nullValue: int, i: nat): int
    requires ValidArray(a) && i < a.length
  {
    if IsNull(a, i) then nullValue else ValueAt(a, i)
  }

  // null_count() over the first `n` rows.
  function NullCount(a: Array, n: nat): (count: nat)
    requires ValidArray(a) && n <= a.length
    ensures count <= n
  {
    if n == 0 then 0 else NullCount(a, n - 1) + (if IsNull(a, n - 1) then 1 else 0)
  }

  lemma {:induction false} NullCountExtremes(a: Array, n: nat, i: nat)
    requires ValidArray(a) && i < n <= a.length
    ensures NullCount(a, n) == 0 ==> !IsNull(a, i)
    ensures NullCount(a, n) == n ==> IsNull(a, i)
  {
    if i < n - 1 { NullCountExtremes(a, n - 1, i); }
  }

  lemma {:induction false} NoBitmapNoNulls(a: Array, n: nat)
    requires ValidArray(a) && n <= a.length && a.bitmap == []
    ensures NullCount(a, n) == 0
  {
    if n > 0 { NoBitmapNoNulls(a, n - 1); }
  }

  // ---------------------------------------------------------------------------
  // Head bits, full bytes, tail bits
  // ---------------------------------------------------------------------------

  datatype Split = Split(startFullByte: nat, endFullByte: nat, headBits: nat, tailBits: nat)

  /** The three loops cover exactly the asked bits: the head ends at a byte boundary or is
      all there is, and the full bytes and the tail end where the bits end. */
  method SplitBits(offs: nat, length: nat) returns (s: Split)
    ensures s.headBits <= length && (s.headBits > 0 ==> offs % 8 + s.headBits <= 8)
    ensures s.headBits == length ==> s.endFullByte <= s.startFullByte && s.tailBits == 0
    ensures s.headBits < length ==> s.startFullByte <= s.endFullByte && s.tailBits < 8
    ensures s.headBits < length ==> offs + s.headBits == 8 * s.startFullByte
    ensures s.headBits < length ==> 8 * s.endFullByte + s.tailBits == offs + length
  {
    var startFullByte := (offs + 7) / 8;
    var endFullByte := (offs + length) / 8;
    var headBits := if offs % 8 != 0 then (if 8 - offs % 8 < length then 8 - offs % 8 else length) else 0;
    var tailBits := if headBits == length then 0 else (offs + length) % 8;
    s := Split(startFullByte, endFullByte, headBits, tailBits);
  }

  // Rows `lo` up to `hi` stand in `out` at their distance from row `offs`, after `base`.
  ghost predicate Copied(out: seq<int>, base: nat, offs: nat, a: Array, nullValue: int, lo: nat, hi: nat)
    requires ValidArray(a) && offs <= lo && hi <= a.length
  {
    && base + hi - offs <= |out|
    && forall p :: lo <= p < hi ==> out[base + p - offs] == Replaced(a, nullValue, p)
  }

  ghost predicate SameOutside(out: seq<int>, before: seq<int>, lo: int, hi: int) {
    |out| == |before| && forall j :: 0 <= j < |out| && !(lo <= j < hi) ==> out[j] == before[j]
  }

  // One row, by bit `j` of byte `k`.
  method ReplacedByBit(a: Array, nullValue: int, k: nat, j: nat) returns (v: int)
    requires ValidArray(a) && j < 8 && k < |a.bitmap| && (a.Bits? ==> k < |a.bits|) && 8 * k + j < a.length
    ensures v == Replaced(a, nullValue, 8 * k + j)
  {
    var isNull := (!a.bitmap[k] >> j) & 1 == 1;
    ComplementBit(a.bitmap[k], j);
    BitInByte(a.bitmap, k, j);
    if a.Bits? { BitInByte(a.bits, k, j); }
    var val := if a.Typed? then a.values[8 * k + j] else AsInt((a.bits[k] >> j) & 1 == 1);
    v := if isNull then nullValue else val;
  }

  // `n` rows whose null bits are those of byte `k` from bit `from` on.
  method CopyByte(dst: array<int>, base: nat, offs: nat, a: Array, nullValue: int, k: nat, from: nat, n: nat)
    requires ValidArray(a) && a.bitmap != [] && from + n <= 8 && 8 * k + from + n <= a.length
    requires offs <= 8 * k + from && base + (8 * k + from + n - offs) <= dst.Length && k < |a.bitmap|
    requires a.Bits? ==> k < |a.bits|
    modifies dst
    ensures Copied(dst[..], base, offs, a, nullValue, 8 * k + from, 8 * k + from + n)
    ensures SameOutside(dst[..], old(dst[..]), base + (8 * k + from - offs), base + (8 * k + from + n - offs))
  {
    for i := 0 to n
      invariant Copied(dst[..], base, offs, a, nullValue, 8 * k + from, 8 * k + from + i)
      invariant SameOutside(dst[..], old(dst[..]), base + (8 * k + from - offs), base + (8 * k + from + i - offs))
    {
      var v := ReplacedByBit(a, nullValue, k, from + i);
      dst[base + (8 * k + from + i - offs)] := v;
    }
  }

  /** The path for a partly null array (convertBoolBitmapBufferWithNulls, and its twin for
      other types): exactly `length` rows are written, each replaced or kept. */
  method CopyWithNulls(dst: array<int>, base: nat, a: Array, offs: nat, length: nat, nullValue: int)
    requires ValidArray(a) && a.bitmap != [] && offs + length <= a.length && base + length <= dst.Length
    modifies dst
    ensures Copied(dst[..], base, offs, a, nullValue, offs, offs + length)
    ensures SameOutside(dst[..], old(dst[..]), base, base + length)
  {
    var s := SplitBits(offs, length);
    if s.headBits > 0 {
      assert offs == 8 * (offs / 8) + offs % 8;
      CopyByte(dst, base, offs, a, nullValue, offs / 8, offs % 8, s.headBits);
    }
    for k := s.startFullByte to (if s.startFullByte < s.endFullByte then s.endFullByte else s.startFullByte)
      invariant s.headBits < length ==> Copied(dst[..], base, offs, a, nullValue, offs, 8 * k)
      invariant s.headBits < length ==> SameOutside(dst[..], old(dst[..]), base, base + (8 * k - offs))
      invariant s.headBits == length ==> Copied(dst[..], base, offs, a, nullValue, offs, offs + length)
      invariant s.headBits == length ==> SameOutside(dst[..], old(dst[..]), base, base + length)
    {
      CopyByte(dst, base, offs, a, nullValue, k, 0, 8);
    }
    if s.tailBits > 0 {
      CopyByte(dst, base, offs, a, nullValue, s.endFullByte, 0, s.tailBits);
    }
  }

  // `n` values that are bits of byte `k` from bit `from` on.
  method ExpandByte(dst: array<int>, base: nat, offs: nat, a: Array, ghost nullValue: int, k: nat, from: nat, n: nat)
    requires ValidArray(a) && a.Bits? && from + n <= 8 && 8 * k + from + n <= a.length
    requires forall p :: 0 <= p < a.length ==> !IsNull(a, p)
    requires offs <= 8 * k + from && base + (8 * k + from + n - offs) <= dst.Length && k < |a.bits|
    modifies dst
    ensures Copied(dst[..], base, offs, a, nullValue, 8 * k + from, 8 * k + from + n)
    ensures SameOutside(dst[..], old(dst[..]), base + (8 * k + from - offs), base + (8 * k + from + n - offs))
  {
    for i := 0 to n
      invariant Copied(dst[..], base, offs, a, nullValue, 8 * k + from, 8 * k + from + i)
      invariant SameOutside(dst[..], old(dst[..]), base + (8 * k + from - offs), base + (8 * k + from + i - offs))
    {
      BitInByte(a.bits, k, from + i);
      dst[base + (8 * k + from + i - offs)] := AsInt((a.bits[k] >> (from + i)) & 1 == 1);
    }
  }

  /** convertBoolBitmapBufferWithoutNulls. */
  method ExpandBits(dst: array<int>, base: nat, a: Array, offs: nat, length: nat, ghost nullValue: int)
    requires ValidArray(a) && a.Bits? && offs + length <= a.length && base + length <= dst.Length
    requires forall p :: 0 <= p < a.length ==> !IsNull(a, p)
    modifies dst
    ensures Copied(dst[..], base, offs, a, nullValue, offs, offs + length)
    ensures SameOutside(dst[..], old(dst[..]), base, base + length)
  {
    var s := SplitBits(offs, length);
    if s.headBits > 0 {
      assert offs == 8 * (offs / 8) + offs % 8;
      ExpandByte(dst, base, offs, a, nullValue, offs / 8, offs % 8, s.headBits);
    }
    for k := s.startFullByte to (if s.startFullByte < s.endFullByte then s.endFullByte else s.startFullByte)
      invariant s.headBits < length ==> Copied(dst[..], base, offs, a, nullValue, offs, 8 * k)
      invariant s.headBits < length ==> SameOutside(dst[..], old(dst[..]), base, base + (8 * k - offs))
      invariant s.headBits == length ==> Copied(dst[..], base, offs, a, nullValue, offs, offs + length)
      invariant s.headBits == length ==> SameOutside(dst[..], old(dst[..]), base, base + length)
    {
      ExpandByte(dst, base, offs, a, nullValue, k, 0, 8);
    }
    if s.tailBits > 0 {
      ExpandByte(dst, base, offs, a, nullValue, s.endFullByte, 0, s.tailBits);
    }
  }

  /** copyArrayDataReplacingNulls: the all-null, no-null and mixed paths agree. */
  method CopyReplacingNulls(dst: array<int>, base: nat, a: Array, offs: nat, length: nat, nullValue: int)
    requires ValidArray(a) && offs + length <= a.length && base + length <= dst.Length
    modifies dst
    ensures Copied(dst[..], base, offs, a, nullValue, offs, offs + length)
    ensures SameOutside(dst[..], old(dst[..]), base, base + length)
  {
    var nullCount := NullCount(a, a.length);
    forall p | 0 <= p < a.length
      ensures nullCount == 0 ==> !IsNull(a, p)
      ensures nullCount == a.length ==> IsNull(a, p)
    {
      NullCountExtremes(a, a.length, p);
    }
    if nullCount == a.length {
      forall i | 0 <= i < length { dst[base + i] := nullValue; }
    } else if nullCount == 0 {
      if a.Bits? {
        ExpandBits(dst, base, a, offs, length, nullValue);
      } else {
        forall i | 0 <= i < length { dst[base + i] := a.values[offs + i]; }
      }
    } else {
      if a.bitmap == [] { NoBitmapNoNulls(a, a.length); }
      CopyWithNulls(dst, base, a, offs, length, nullValue);
    }
  }
}
