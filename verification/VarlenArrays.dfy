/** Variable-length array columns: element buffer and signed byte offsets
    (replaceNullValuesVarlenArrayImpl in ArrowStorageUtils.cpp). */
module VarlenArrays {
  import opened Basics
  import opened Bitmaps

  const INT32_MAX: int := 0x7FFF_FFFF

  // List `i` is the elements from offsets[i] to offsets[i + 1], unless it is NULL.
  datatype ListChunk = ListChunk(offsets: seq<int>, valid: seq<bool>, elems: Array)

  predicate ValidListChunk(ch: ListChunk) {
    && ValidArray(ch.elems) && |ch.offsets| == |ch.valid| + 1
    && 0 <= ch.offsets[0] <= ch.elems.length
    && forall i :: 0 <= i < |ch.valid| ==> ListFits(ch, i)
  }

  predicate ListFits(ch: ListChunk, i: nat)
    requires i + 1 < |ch.offsets|
  {
    0 <= ch.offsets[i] <= ch.offsets[i + 1] <= ch.elems.length
  }

  predicate ValidLists(chunks: seq<ListChunk>) { forall c :: 0 <= c < |chunks| ==> ValidListChunk(chunks[c]) }

  // The elements of list `i`, NULL elements replaced.
  function Items(ch: ListChunk, nullValue: int, i: nat): (items: seq<int>)
    requires ValidListChunk(ch) && i < |ch.valid|
    ensures |items| == ListLength(ch, i)
  {
    assert ListFits(ch, i);
    seq(ListLength(ch, i), j requires 0 <= j < ListLength(ch, i) => Replaced(ch.elems, nullValue, ch.offsets[i] + j))
  }

  function ListLength(ch: ListChunk, i: nat): nat
    requires ValidListChunk(ch) && i < |ch.valid|
  {
    assert ListFits(ch, i);
    ch.offsets[i + 1] - ch.offsets[i]
  }

  // The elements of the lists before list `i` that are not NULL.
  function Kept(ch: ListChunk, i: nat): nat
    requires ValidListChunk(ch) && i <= |ch.valid|
  {
    if i == 0 then 0 else Kept(ch, i - 1) + (if ch.valid[i - 1] then ListLength(ch, i - 1) else 0)
  }

  // The elements of the lists before list `i`, also those in the range of a NULL list.
  function Spanned(ch: ListChunk, i: nat): nat
    requires ValidListChunk(ch) && i <= |ch.valid|
  {
    if i == 0 then 0 else Spanned(ch, i - 1) + ListLength(ch, i - 1)
  }

  function RowStart(chunks: seq<ListChunk>, c: nat): nat
    requires c <= |chunks|
  {
    if c == 0 then 0 else RowStart(chunks, c - 1) + |chunks[c - 1].valid|
  }

  function ElemStart(chunks: seq<ListChunk>, c: nat): nat
    requires ValidLists(chunks) && c <= |chunks|
  {
    if c == 0 then 0 else ElemStart(chunks, c - 1) + Spanned(chunks[c - 1], |chunks[c - 1].valid|)
  }

  function KeptStart(chunks: seq<ListChunk>, c: nat): nat
    requires ValidLists(chunks) && c <= |chunks|
  {
    if c == 0 then 0 else KeptStart(chunks, c - 1) + Kept(chunks[c - 1], |chunks[c - 1].valid|)
  }

  /** The elements of all lists before list `i` of chunk `c`. */
  function ElementsBefore(chunks: seq<ListChunk>, c: nat, i: nat): nat
    requires ValidLists(chunks) && c < |chunks| && i <= |chunks[c].valid|
  {
    KeptStart(chunks, c) + Kept(chunks[c], i)
  }

  lemma {:induction false} SpannedIsRange(ch: ListChunk, i: nat)
    requires ValidListChunk(ch) && i <= |ch.valid|
    ensures Spanned(ch, i) == ch.offsets[i] - ch.offsets[0]
  {
    if i > 0 {
      assert ListFits(ch, i - 1);
      SpannedIsRange(ch, i - 1);
    }
  }

  lemma {:induction false} KeptAtMostSpanned(ch: ListChunk, i: nat)
    requires ValidListChunk(ch) && i <= |ch.valid|
    ensures Kept(ch, i) <= Spanned(ch, i)
  {
    if i > 0 { KeptAtMostSpanned(ch, i - 1); }
  }

  lemma {:induction false} SpannedMono(ch: ListChunk, i: nat, j: nat)
    requires ValidListChunk(ch) && i <= j <= |ch.valid|
    ensures Spanned(ch, i) <= Spanned(ch, j) && Kept(ch, i) <= Kept(ch, j)
  {
    if i < j { SpannedMono(ch, i, j - 1); }
  }

  lemma {:induction false} StartsMono(chunks: seq<ListChunk>, b: nat, c: nat)
    requires ValidLists(chunks) && b <= c <= |chunks|
    ensures ElemStart(chunks, b) <= ElemStart(chunks, c) && RowStart(chunks, b) <= RowStart(chunks, c)
  {
    if b < c { StartsMono(chunks, b, c - 1); }
  }

  // ---------------------------------------------------------------------------
  // What the loops write
  // ---------------------------------------------------------------------------

  // The conversion to int32_t keeps the low 32 bits.
  function Int32(n: int): int { (n + INT32_MAX + 1) % 0x1_0000_0000 - INT32_MAX - 1 }

  // The byte offset of list `i`: negative after a NULL list.
  function OffsetOf(ch: ListChunk, size: nat, elemOffset: nat, i: nat): int
    requires ValidListChunk(ch) && i < |ch.valid|
  {
    Int32(Signed(i > 0 && !ch.valid[i - 1], (elemOffset + Kept(ch, i)) * size))
  }

  ghost predicate ListPlaced(elems: seq<int>, ch: ListChunk, nullValue: int, elemOffset: nat, i: nat)
    requires ValidListChunk(ch) && i < |ch.valid|
  {
    var k := elemOffset + Kept(ch, i);
    ch.valid[i] ==> k + ListLength(ch, i) <= |elems| && elems[k..k + ListLength(ch, i)] == Items(ch, nullValue, i)
  }

  // Chunk `c` has its offsets and elements in the buffers.
  ghost predicate ChunkWritten(off: seq<int>, elems: seq<int>, chunks: seq<ListChunk>, size: nat, nullValue: int,
                               c: nat)
    requires ValidLists(chunks) && c < |chunks|
  {
    var ch := chunks[c];
    && RowStart(chunks, c) + |ch.valid| <= |off|
    && (forall i :: 0 <= i < |ch.valid| ==> off[RowStart(chunks, c) + i] == OffsetOf(ch, size, ElemStart(chunks, c), i))
    && (forall i :: 0 <= i < |ch.valid| ==> ListPlaced(elems, ch, nullValue, ElemStart(chunks, c), i))
  }

  ghost predicate ListsPlaced(elems: seq<int>, ch: ListChunk, nullValue: int, elemOffset: nat, n: nat)
    requires ValidListChunk(ch) && n <= |ch.valid|
  {
    forall i :: 0 <= i < n ==> ListPlaced(elems, ch, nullValue, elemOffset, i)
  }

  ghost predicate OffsetsWritten(off: seq<int>, ch: ListChunk, size: nat, elemOffset: nat, offsetOffset: nat, n: nat)
    requires ValidListChunk(ch) && n <= |ch.valid|
  {
    && offsetOffset + n <= |off|
    && forall i :: 0 <= i < n ==> off[offsetOffset + i] == OffsetOf(ch, size, elemOffset, i)
  }

  // Writing past a list leaves it in place.
  lemma StillListPlaced(elems: seq<int>, before: seq<int>, lo: int, hi: int, ch: ListChunk, nullValue: int,
                        elemOffset: nat, i: nat)
    requires ValidListChunk(ch) && i < |ch.valid| && SameOutside(elems, before, lo, hi)
    requires ListPlaced(before, ch, nullValue, elemOffset, i)
    requires elemOffset + Kept(ch, i + 1) <= lo || hi <= elemOffset + Kept(ch, i)
    ensures ListPlaced(elems, ch, nullValue, elemOffset, i)
  {
  }

  lemma {:induction false} StillListsPlaced(elems: seq<int>, before: seq<int>, lo: int, hi: int, ch: ListChunk,
                                            nullValue: int,
                                            elemOffset: nat, n: nat)
    requires ValidListChunk(ch) && n <= |ch.valid| && SameOutside(elems, before, lo, hi)
    requires ListsPlaced(before, ch, nullValue, elemOffset, n)
    requires elemOffset + Kept(ch, n) <= lo || hi <= elemOffset
    ensures ListsPlaced(elems, ch, nullValue, elemOffset, n)
  {
    forall i | 0 <= i < n
      ensures ListPlaced(elems, ch, nullValue, elemOffset, i)
    {
      SpannedMono(ch, i + 1, n);
      StillListPlaced(elems, before, lo, hi, ch, nullValue, elemOffset, i);
    }
  }

  // Copied elements are the items of a list.
  lemma CopiedList(elems: seq<int>, base: nat, offs: nat, hi: nat, ch: ListChunk, nullValue: int, i: nat, k: nat)
    requires ValidListChunk(ch) && i < |ch.valid| && hi <= ch.elems.length
    requires Copied(elems, base, offs, ch.elems, nullValue, offs, hi)
    requires offs <= ch.offsets[i] && ch.offsets[i + 1] <= hi && k == base + (ch.offsets[i] - offs)
    ensures k + ListLength(ch, i) <= |elems| && elems[k..k + ListLength(ch, i)] == Items(ch, nullValue, i)
  {
  }

  // A chunk without NULL lists: one copy, and every offset shifted.
  method FillPlain(ch: ListChunk, size: nat, nullValue: int, elemOffset: nat, offsetOffset: nat, off: array<int>,
                   elems: array<int>)
    requires ValidListChunk(ch) && (forall i :: 0 <= i < |ch.valid| ==> ch.valid[i]) && off != elems
    requires elemOffset + Spanned(ch, |ch.valid|) <= elems.Length && offsetOffset + |ch.valid| <= off.Length
    modifies off, elems
    ensures OffsetsWritten(off[..], ch, size, elemOffset, offsetOffset, |ch.valid|)
    ensures ListsPlaced(elems[..], ch, nullValue, elemOffset, |ch.valid|)
    ensures SameOutside(off[..], old(off[..]), offsetOffset, offsetOffset + |ch.valid|)
    ensures SameOutside(elems[..], old(elems[..]), elemOffset, elemOffset + Spanned(ch, |ch.valid|))
  {
    var n := |ch.valid|;
    var first := ch.offsets[0];
    SpannedIsRange(ch, n);
    if n > 0 { assert ListFits(ch, n - 1); }
    CopyReplacingNulls(elems, elemOffset, ch.elems, first, ch.offsets[n] - first, nullValue);
    PlainListsPlaced(elems[..], ch, nullValue, elemOffset);
    ShiftOffsets(ch, size, elemOffset, offsetOffset, off);
  }

  method ShiftOffsets(ch: ListChunk, size: nat, elemOffset: nat, offsetOffset: nat, off: array<int>)
    requires ValidListChunk(ch) && (forall i :: 0 <= i < |ch.valid| ==> ch.valid[i])
    requires offsetOffset + |ch.valid| <= off.Length
    modifies off
    ensures OffsetsWritten(off[..], ch, size, elemOffset, offsetOffset, |ch.valid|)
    ensures SameOutside(off[..], old(off[..]), offsetOffset, offsetOffset + |ch.valid|)
  {
    var first := ch.offsets[0];
    for i := 0 to |ch.valid|
      invariant OffsetsWritten(off[..], ch, size, elemOffset, offsetOffset, i)
      invariant SameOutside(off[..], old(off[..]), offsetOffset, offsetOffset + i)
    {
      AllKept(ch, i);
      var shifted := ch.offsets[i] + (elemOffset - first);
      assert shifted == elemOffset + Kept(ch, i);
      off[offsetOffset + i] := Int32(shifted * size);
    }
  }

  lemma {:induction false} AllKept(ch: ListChunk, i: nat)
    requires ValidListChunk(ch) && i <= |ch.valid| && (forall j :: 0 <= j < i ==> ch.valid[j])
    ensures Kept(ch, i) == ch.offsets[i] - ch.offsets[0]
  {
    if i > 0 {
      assert ListFits(ch, i - 1);
      AllKept(ch, i - 1);
    }
  }

  lemma {:induction false} PlainListsPlaced(elems: seq<int>, ch: ListChunk, nullValue: int, elemOffset: nat)
    requires ValidListChunk(ch) && (forall i :: 0 <= i < |ch.valid| ==> ch.valid[i])
    requires ch.offsets[0] <= ch.offsets[|ch.valid|] <= ch.elems.length
    requires Copied(elems, elemOffset, ch.offsets[0], ch.elems, nullValue, ch.offsets[0], ch.offsets[|ch.valid|])
    ensures ListsPlaced(elems, ch, nullValue, elemOffset, |ch.valid|)
  {
    var n := |ch.valid|;
    forall i | 0 <= i < n
      ensures ListPlaced(elems, ch, nullValue, elemOffset, i)
    {
      AllKept(ch, i);
      SpannedIsRange(ch, i);
      SpannedIsRange(ch, i + 1);
      SpannedIsRange(ch, n);
      SpannedMono(ch, i + 1, n);
      CopiedList(elems, elemOffset, ch.offsets[0], ch.offsets[n], ch, nullValue, i, elemOffset + Kept(ch, i));
    }
  }

  // A chunk with NULL lists: list by list; a NULL list makes the next offset negative.
  method FillWithNulls(ch: ListChunk, size: nat, nullValue: int, elemOffset: nat, offsetOffset: nat, off: array<int>,
                       elems: array<int>)
    requires ValidListChunk(ch) && off != elems
    requires elemOffset + Spanned(ch, |ch.valid|) <= elems.Length && offsetOffset + |ch.valid| <= off.Length
    modifies off, elems
    ensures OffsetsWritten(off[..], ch, size, elemOffset, offsetOffset, |ch.valid|)
    ensures ListsPlaced(elems[..], ch, nullValue, elemOffset, |ch.valid|)
    ensures SameOutside(off[..], old(off[..]), offsetOffset, offsetOffset + |ch.valid|)
    ensures SameOutside(elems[..], old(elems[..]), elemOffset, elemOffset + Spanned(ch, |ch.valid|))
  {
    var n := |ch.valid|;
    var at := elemOffset;
    var useNegativeOffset := false;
    for i := 0 to n
      invariant at == elemOffset + Kept(ch, i) && useNegativeOffset == (i > 0 && !ch.valid[i - 1])
      invariant OffsetsWritten(off[..], ch, size, elemOffset, offsetOffset, i)
      invariant ListsPlaced(elems[..], ch, nullValue, elemOffset, i)
      invariant SameOutside(off[..], old(off[..]), offsetOffset, offsetOffset + i)
      invariant SameOutside(elems[..], old(elems[..]), elemOffset, at)
    {
      off[offsetOffset + i] := Int32(Signed(useNegativeOffset, at * size));
      KeptAtMostSpanned(ch, i + 1);
      SpannedMono(ch, i + 1, n);
      if !ch.valid[i] {
        useNegativeOffset := true;
      } else {
        useNegativeOffset := false;
        CopyList(ch, nullValue, elemOffset, i, at, elems);
        at := at + ListLength(ch, i);
      }
      assert ListPlaced(elems[..], ch, nullValue, elemOffset, i);
    }
    KeptAtMostSpanned(ch, n);
  }

  method CopyList(ch: ListChunk, nullValue: int, ghost elemOffset: nat, i: nat, at: nat, elems: array<int>)
    requires ValidListChunk(ch) && i < |ch.valid| && at == elemOffset + Kept(ch, i)
    requires at + ListLength(ch, i) <= elems.Length
    requires ListsPlaced(elems[..], ch, nullValue, elemOffset, i)
    modifies elems
    ensures ListsPlaced(elems[..], ch, nullValue, elemOffset, i) && ListPlaced(elems[..], ch, nullValue, elemOffset, i)
    ensures SameOutside(elems[..], old(elems[..]), at, at + ListLength(ch, i))
  {
    assert ListFits(ch, i);
    ghost var before := elems[..];
    CopyReplacingNulls(elems, at, ch.elems, ch.offsets[i], ListLength(ch, i), nullValue);
    StillListsPlaced(elems[..], before, at, at + ListLength(ch, i), ch, nullValue, elemOffset, i);
    CopiedList(elems[..], at, ch.offsets[i], ch.offsets[i + 1], ch, nullValue, i, at);
  }

  // ---------------------------------------------------------------------------
  // All chunks
  // ---------------------------------------------------------------------------

  datatype Result = TooBig | Encoded(offsets: seq<int>, elems: seq<int>)

  // The last list of the column is NULL.
  predicate EndsInNull(chunks: seq<ListChunk>)
    requires chunks != [] && |chunks[|chunks| - 1].valid| > 0
  {
    var last := chunks[|chunks| - 1];
    !last.valid[|last.valid| - 1]
  }

  /** What the buffers hold after the conversion, for every chunk and list. */
  ghost predicate EncodingOf(chunks: seq<ListChunk>, size: nat, nullValue: int, off: seq<int>, elems: seq<int>)
    requires ValidLists(chunks) && chunks != [] && |chunks[|chunks| - 1].valid| > 0
  {
    var rows, count := RowStart(chunks, |chunks|), ElemStart(chunks, |chunks|);
    && |off| == rows + 1 && |elems| == count
    && (forall c :: 0 <= c < |chunks| ==> ChunkWritten(off, elems, chunks, size, nullValue, c))
    && off[rows] == Int32(Signed(EndsInNull(chunks), count * size))
  }

  method CountElements(chunks: seq<ListChunk>)
    returns (elemsCount: nat, outElemOffsets: seq<nat>, outOffsetOffsets: seq<nat>)
    requires ValidLists(chunks)
    ensures elemsCount == ElemStart(chunks, |chunks|)
    ensures |outElemOffsets| == |outOffsetOffsets| == |chunks|
    ensures forall c {:trigger outElemOffsets[c]} :: 0 <= c < |chunks| ==> outElemOffsets[c] == ElemStart(chunks, c)
    ensures forall c {:trigger outOffsetOffsets[c]} :: 0 <= c < |chunks| ==> outOffsetOffsets[c] == RowStart(chunks, c)
  {
    elemsCount, outElemOffsets, outOffsetOffsets := 0, [], [];
    var arraysCount := 0;
    for c := 0 to |chunks|
      invariant elemsCount == ElemStart(chunks, c) && arraysCount == RowStart(chunks, c)
      invariant |outElemOffsets| == |outOffsetOffsets| == c
      invariant forall d {:trigger outElemOffsets[d]} :: 0 <= d < c ==> outElemOffsets[d] == ElemStart(chunks, d)
      invariant forall d {:trigger outOffsetOffsets[d]} :: 0 <= d < c ==> outOffsetOffsets[d] == RowStart(chunks, d)
    {
      outOffsetOffsets := outOffsetOffsets + [arraysCount];
      outElemOffsets := outElemOffsets + [elemsCount];
      var inChunk := ElementsOf(chunks[c]);
      arraysCount := arraysCount + |chunks[c].valid|;
      elemsCount := elemsCount + inChunk;
    }
  }

  method ElementsOf(ch: ListChunk) returns (count: nat)
    requires ValidListChunk(ch)
    ensures count == Spanned(ch, |ch.valid|)
  {
    SpannedIsRange(ch, |ch.valid|);
    count := ch.offsets[|ch.valid|] - ch.offsets[0];
  }

  /** replaceNullValuesVarlenArrayImpl: whatever the order in which the chunks are processed. */
  method ReplaceNullValuesVarlenArray(chunks: seq<ListChunk>, size: nat, nullValue: int, order: seq<nat>)
    returns (r: Result)
    requires ValidLists(chunks) && chunks != [] && |chunks[|chunks| - 1].valid| > 0
    requires (forall c :: 0 <= c < |chunks| ==> c in order) && (forall k :: 0 <= k < |order| ==> order[k] < |chunks|)
    ensures r.TooBig? <==> ElemStart(chunks, |chunks|) > INT32_MAX
    ensures r.Encoded? ==> EncodingOf(chunks, size, nullValue, r.offsets, r.elems)
  {
    var elemsCount, outElemOffsets, outOffsetOffsets := CountElements(chunks);
    if elemsCount > INT32_MAX {
      return TooBig;
    }
    var rows := RowStart(chunks, |chunks|);
    var off, elems := new int[rows + 1], new int[elemsCount];
    for k := 0 to |order|
      invariant forall j :: 0 <= j < k ==> ChunkWritten(off[..], elems[..], chunks, size, nullValue, order[j])
    {
      var c := order[k];
      FillChunk(chunks, size, nullValue, c, outElemOffsets[c], outOffsetOffsets[c], off, elems);
    }
    var last := chunks[|chunks| - 1];
    ghost var before := off[..];
    off[rows] := Int32(Signed(!last.valid[|last.valid| - 1], elemsCount * size));
    forall c | 0 <= c < |chunks|
      ensures ChunkWritten(off[..], elems[..], chunks, size, nullValue, c)
    {
      assert c in order;
      assert ChunkWritten(before, elems[..], chunks, size, nullValue, c);
      StartsMono(chunks, c + 1, |chunks|);
    }
    return Encoded(off[..], elems[..]);
  }

  // What is done for one chunk.
  method FillChunk(chunks: seq<ListChunk>, size: nat, nullValue: int, c: nat, elemOffset: nat, offsetOffset: nat,
                   off: array<int>, elems: array<int>)
    requires ValidLists(chunks) && c < |chunks| && off != elems
    requires elemOffset == ElemStart(chunks, c) && offsetOffset == RowStart(chunks, c)
    requires off.Length == RowStart(chunks, |chunks|) + 1 && elems.Length == ElemStart(chunks, |chunks|)
    modifies off, elems
    ensures ChunkWritten(off[..], elems[..], chunks, size, nullValue, c)
    ensures forall d :: 0 <= d < |chunks| ==>
      ChunkWritten(old(off[..]), old(elems[..]), chunks, size, nullValue, d) ==>
      ChunkWritten(off[..], elems[..], chunks, size, nullValue, d)
  {
    StartsMono(chunks, c + 1, |chunks|);
    var ch := chunks[c];
    ghost var offBefore, elemsBefore := off[..], elems[..];
    if forall i :: 0 <= i < |ch.valid| ==> ch.valid[i] {
      FillPlain(ch, size, nullValue, elemOffset, offsetOffset, off, elems);
    } else {
      FillWithNulls(ch, size, nullValue, elemOffset, offsetOffset, off, elems);
    }
    ghost var offAfter, elemsAfter := off[..], elems[..];
    forall d | 0 <= d < |chunks| && d != c && ChunkWritten(offBefore, elemsBefore, chunks, size, nullValue, d)
      ensures ChunkWritten(offAfter, elemsAfter, chunks, size, nullValue, d)
    {
      StillWritten(offAfter, offBefore, elemsAfter, elemsBefore, chunks, size, nullValue, c, d);
    }
  }

  lemma {:induction false} StillWritten(off: seq<int>, offBefore: seq<int>, elems: seq<int>, elemsBefore: seq<int>,
                                        chunks: seq<ListChunk>, size: nat, nullValue: int, c: nat, d: nat)
    requires ValidLists(chunks) && d < |chunks| && c < |chunks| && d != c
    requires SameOutside(off, offBefore, RowStart(chunks, c), RowStart(chunks, c + 1))
    requires SameOutside(elems, elemsBefore, ElemStart(chunks, c), ElemStart(chunks, c + 1))
    requires ChunkWritten(offBefore, elemsBefore, chunks, size, nullValue, d)
    ensures ChunkWritten(off, elems, chunks, size, nullValue, d)
  {
    var ch, n := chunks[d], |chunks[d].valid|;
    if d < c { StartsMono(chunks, d + 1, c); } else { StartsMono(chunks, c + 1, d); }
    KeptAtMostSpanned(ch, n);
    var lo, hi, at := ElemStart(chunks, c), ElemStart(chunks, c + 1), ElemStart(chunks, d);
    assert ListsPlaced(elemsBefore, ch, nullValue, at, n);
    StillListsPlaced(elems, elemsBefore, lo, hi, ch, nullValue, at, n);
  }

  // ---------------------------------------------------------------------------
  // What a reader recovers
  // ---------------------------------------------------------------------------

  predicate EmptyIfNull(ch: ListChunk, i: nat)
    requires ValidListChunk(ch) && i < |ch.valid|
  {
    ch.valid[i] || ListLength(ch, i) == 0
  }

  predicate NullsEmpty(ch: ListChunk, n: nat)
    requires ValidListChunk(ch) && n <= |ch.valid|
  {
    forall i :: 0 <= i < n ==> EmptyIfNull(ch, i)
  }

  // Every NULL list occupies an empty range, in the first `n` chunks.
  predicate AllNullsEmpty(chunks: seq<ListChunk>, n: nat)
    requires ValidLists(chunks) && n <= |chunks|
  {
    forall c :: 0 <= c < n ==> NullsEmpty(chunks[c], |chunks[c].valid|)
  }

  lemma {:induction false} KeptExactly(ch: ListChunk, n: nat)
    requires ValidListChunk(ch) && n <= |ch.valid|
    ensures Kept(ch, n) == Spanned(ch, n) <==> NullsEmpty(ch, n)
  {
    if n > 0 {
      KeptExactly(ch, n - 1);
      KeptAtMostSpanned(ch, n - 1);
      assert NullsEmpty(ch, n) <==> NullsEmpty(ch, n - 1) && EmptyIfNull(ch, n - 1);
    }
  }

  lemma {:induction false} StartsExactly(chunks: seq<ListChunk>, c: nat)
    requires ValidLists(chunks) && c <= |chunks|
    ensures KeptStart(chunks, c) <= ElemStart(chunks, c)
    ensures KeptStart(chunks, c) == ElemStart(chunks, c) <==> AllNullsEmpty(chunks, c)
  {
    if c > 0 {
      var ch, n := chunks[c - 1], |chunks[c - 1].valid|;
      StartsExactly(chunks, c - 1);
      KeptExactly(ch, n);
      KeptAtMostSpanned(ch, n);
      assert AllNullsEmpty(chunks, c) <==> AllNullsEmpty(chunks, c - 1) && NullsEmpty(ch, n);
    }
  }

  // The byte count of all elements fits 32 bits.
  predicate BytesFit(chunks: seq<ListChunk>, size: nat)
    requires ValidLists(chunks)
  {
    ElemStart(chunks, |chunks|) * size <= INT32_MAX
  }

  /** Nothing tests the byte count: the last offset has the right magnitude exactly when it
      does not exceed two to the 31. */
  lemma {:induction false} ByteCountExactly(chunks: seq<ListChunk>, size: nat, nullValue: int, off: seq<int>,
                                            elems: seq<int>)
    requires ValidLists(chunks) && chunks != [] && |chunks[|chunks| - 1].valid| > 0
    requires EncodingOf(chunks, size, nullValue, off, elems)
    ensures Abs(off[RowStart(chunks, |chunks|)]) == ElemStart(chunks, |chunks|) * size
      <==> ElemStart(chunks, |chunks|) * size <= INT32_MAX + 1
  {
    Int32Exactly(EndsInNull(chunks), ElemStart(chunks, |chunks|) * size);
  }

  lemma Int32Exactly(negative: bool, n: nat)
    ensures Abs(Int32(Signed(negative, n))) == n <==> n <= INT32_MAX + 1
  {
  }

  lemma SignedProduct(negative: bool, n: nat, size: nat)
    requires n * size <= INT32_MAX
    ensures Abs(Int32(Signed(negative, n * size))) == n * size
    ensures size > 0 ==> (Int32(Signed(negative, n * size)) < 0 <==> negative && n > 0)
  {
  }

  lemma {:induction false} BeforeFits(chunks: seq<ListChunk>, size: nat, c: nat, i: nat)
    requires ValidLists(chunks) && BytesFit(chunks, size) && c < |chunks| && i <= |chunks[c].valid|
    ensures ElementsBefore(chunks, c, i) * size <= INT32_MAX
  {
    var ch := chunks[c];
    StartsExactly(chunks, c);
    KeptAtMostSpanned(ch, i);
    SpannedMono(ch, i, |ch.valid|);
    StartsMono(chunks, c + 1, |chunks|);
    MulMono(ElementsBefore(chunks, c, i), ElemStart(chunks, |chunks|), size);
  }

  // What the offset of a list is, if NULL lists occupy empty ranges.
  lemma {:induction false} OffsetInColumn(chunks: seq<ListChunk>, size: nat, nullValue: int, off: seq<int>,
                                          elems: seq<int>, c: nat, i: nat)
    requires ValidLists(chunks) && chunks != [] && |chunks[|chunks| - 1].valid| > 0
    requires EncodingOf(chunks, size, nullValue, off, elems) && AllNullsEmpty(chunks, |chunks|)
    requires c < |chunks| && i < |chunks[c].valid|
    ensures RowStart(chunks, c) + i < RowStart(chunks, |chunks|)
    ensures off[RowStart(chunks, c) + i]
         == Int32(Signed(i > 0 && !chunks[c].valid[i - 1], ElementsBefore(chunks, c, i) * size))
  {
    assert ChunkWritten(off, elems, chunks, size, nullValue, c);
    assert AllNullsEmpty(chunks, c);
    StartsExactly(chunks, c);
    StartsMono(chunks, c + 1, |chunks|);
    assert off[RowStart(chunks, c) + i] == OffsetOf(chunks[c], size, ElemStart(chunks, c), i);
  }

  /** If NULL lists occupy empty ranges, every offset is in magnitude the byte count of all
      lists before it, across all chunks. */
  lemma {:induction false} OffsetsConservative(chunks: seq<ListChunk>, size: nat, nullValue: int, off: seq<int>,
                                               elems: seq<int>,
                                               c: nat, i: nat)
    requires ValidLists(chunks) && chunks != [] && |chunks[|chunks| - 1].valid| > 0
    requires EncodingOf(chunks, size, nullValue, off, elems)
    requires AllNullsEmpty(chunks, |chunks|) && BytesFit(chunks, size)
    requires c < |chunks| && i < |chunks[c].valid|
    ensures RowStart(chunks, c) + i < RowStart(chunks, |chunks|)
    ensures Abs(off[RowStart(chunks, c) + i]) == ElementsBefore(chunks, c, i) * size
    ensures Abs(off[RowStart(chunks, |chunks|)]) == KeptStart(chunks, |chunks|) * size
  {
    OffsetInColumn(chunks, size, nullValue, off, elems, c, i);
    StartsExactly(chunks, |chunks|);
    BeforeFits(chunks, size, c, i);
    SignedProduct(i > 0 && !chunks[c].valid[i - 1], ElementsBefore(chunks, c, i), size);
    SignedProduct(EndsInNull(chunks), KeptStart(chunks, |chunks|), size);
  }

  /** The last offset counts the elements of the lists exactly when no NULL list has
      elements in its range. */
  lemma {:induction false} ConservativeExactly(chunks: seq<ListChunk>, size: nat, nullValue: int, off: seq<int>,
                                               elems: seq<int>)
    requires ValidLists(chunks) && chunks != [] && |chunks[|chunks| - 1].valid| > 0 && size > 0
    requires EncodingOf(chunks, size, nullValue, off, elems) && BytesFit(chunks, size)
    ensures Abs(off[RowStart(chunks, |chunks|)]) == KeptStart(chunks, |chunks|) * size
      <==> AllNullsEmpty(chunks, |chunks|)
  {
    var kept, spanned := KeptStart(chunks, |chunks|), ElemStart(chunks, |chunks|);
    StartsExactly(chunks, |chunks|);
    SignedProduct(EndsInNull(chunks), spanned, size);
    ProductInjective(kept, spanned, size);
  }

  lemma ProductInjective(a: nat, b: nat, size: nat)
    requires size > 0
    ensures a * size == b * size <==> a == b
  {
  }

  /** The elements of a list lie between its offset and the next one; a NULL list reads as
      no elements. */
  lemma {:induction false} ListRecoverable(chunks: seq<ListChunk>, size: nat, nullValue: int, off: seq<int>,
                                           elems: seq<int>,
                                           c: nat, i: nat)
    requires ValidLists(chunks) && chunks != [] && forall d :: 0 <= d < |chunks| ==> |chunks[d].valid| > 0
    requires EncodingOf(chunks, size, nullValue, off, elems)
    requires AllNullsEmpty(chunks, |chunks|) && BytesFit(chunks, size)
    requires c < |chunks| && i < |chunks[c].valid|
    ensures var row, k, n := RowStart(chunks, c) + i, ElementsBefore(chunks, c, i), ListLength(chunks[c], i);
            && row + 1 < |off| && k + n <= |elems|
            && Abs(off[row]) == k * size && Abs(off[row + 1]) == (k + n) * size
            && (chunks[c].valid[i] ==> elems[k..k + n] == Items(chunks[c], nullValue, i))
            && (!chunks[c].valid[i] ==> n == 0)
  {
    OffsetsConservative(chunks, size, nullValue, off, elems, c, i);
    NextOffset(chunks, size, nullValue, off, elems, c, i);
    WithinElements(chunks, c, i);
    ItemsInPlace(chunks, size, nullValue, off, elems, c, i);
  }

  lemma {:induction false} ItemsInPlace(chunks: seq<ListChunk>, size: nat, nullValue: int, off: seq<int>,
                                        elems: seq<int>, c: nat, i: nat)
    requires ValidLists(chunks) && chunks != [] && |chunks[|chunks| - 1].valid| > 0
    requires EncodingOf(chunks, size, nullValue, off, elems) && AllNullsEmpty(chunks, |chunks|)
    requires c < |chunks| && i < |chunks[c].valid|
    requires ElementsBefore(chunks, c, i) + ListLength(chunks[c], i) <= |elems|
    ensures var k, n := ElementsBefore(chunks, c, i), ListLength(chunks[c], i);
            chunks[c].valid[i] ==> elems[k..k + n] == Items(chunks[c], nullValue, i)
  {
    assert ChunkWritten(off, elems, chunks, size, nullValue, c);
    assert AllNullsEmpty(chunks, c);
    StartsExactly(chunks, c);
    assert ListPlaced(elems, chunks[c], nullValue, ElemStart(chunks, c), i);
  }

  lemma KeptStep(ch: ListChunk, i: nat)
    requires ValidListChunk(ch) && i < |ch.valid| && NullsEmpty(ch, |ch.valid|)
    ensures Kept(ch, i + 1) == Kept(ch, i) + ListLength(ch, i)
    ensures !ch.valid[i] ==> ListLength(ch, i) == 0
  {
    assert EmptyIfNull(ch, i);
  }

  // The offset after list `i`, in this chunk, the next one or at the end.
  lemma {:induction false} NextOffset(chunks: seq<ListChunk>, size: nat, nullValue: int, off: seq<int>,
                                      elems: seq<int>, c: nat, i: nat)
    requires ValidLists(chunks) && chunks != [] && forall d :: 0 <= d < |chunks| ==> |chunks[d].valid| > 0
    requires EncodingOf(chunks, size, nullValue, off, elems)
    requires AllNullsEmpty(chunks, |chunks|) && BytesFit(chunks, size)
    requires c < |chunks| && i < |chunks[c].valid|
    ensures RowStart(chunks, c) + i + 1 < |off|
    ensures Abs(off[RowStart(chunks, c) + i + 1]) == (ElementsBefore(chunks, c, i) + ListLength(chunks[c], i)) * size
    ensures !chunks[c].valid[i] ==> ListLength(chunks[c], i) == 0
  {
    var ch := chunks[c];
    KeptStep(ch, i);
    OffsetsConservative(chunks, size, nullValue, off, elems, c, i);
    if i + 1 < |ch.valid| {
      OffsetsConservative(chunks, size, nullValue, off, elems, c, i + 1);
    } else if c + 1 < |chunks| {
      OffsetsConservative(chunks, size, nullValue, off, elems, c + 1, 0);
    }
  }

  lemma WithinElements(chunks: seq<ListChunk>, c: nat, i: nat)
    requires ValidLists(chunks) && AllNullsEmpty(chunks, |chunks|) && c < |chunks| && i < |chunks[c].valid|
    ensures ElementsBefore(chunks, c, i) + ListLength(chunks[c], i) <= ElemStart(chunks, |chunks|)
  {
    var ch := chunks[c];
    assert EmptyIfNull(ch, i);
    StartsExactly(chunks, c);
    SpannedMono(ch, i + 1, |ch.valid|);
    KeptAtMostSpanned(ch, |ch.valid|);
    StartsMono(chunks, c + 1, |chunks|);
  }

  /** Inside a chunk the offset after a list is negative exactly when the list is NULL and
      some element precedes it; the first offset of a chunk is never negative, so a NULL at
      the end of a chunk that is not the last leaves no mark. */
  lemma {:induction false} NegativeExactly(chunks: seq<ListChunk>, size: nat, nullValue: int, off: seq<int>,
                                           elems: seq<int>,
                                           c: nat, i: nat)
    requires ValidLists(chunks) && chunks != [] && |chunks[|chunks| - 1].valid| > 0 && size > 0
    requires EncodingOf(chunks, size, nullValue, off, elems)
    requires AllNullsEmpty(chunks, |chunks|) && BytesFit(chunks, size)
    requires c < |chunks| && i < |chunks[c].valid|
    ensures RowStart(chunks, c) + i < RowStart(chunks, |chunks|)
    ensures i + 1 < |chunks[c].valid| ==>
      (off[RowStart(chunks, c) + i + 1] < 0 <==> !chunks[c].valid[i] && ElementsBefore(chunks, c, i) > 0)
    ensures off[RowStart(chunks, c)] >= 0
    ensures off[RowStart(chunks, |chunks|)] < 0 <==> EndsInNull(chunks) && KeptStart(chunks, |chunks|) > 0
  {
    var ch := chunks[c];
    OffsetInColumn(chunks, size, nullValue, off, elems, c, i);
    OffsetInColumn(chunks, size, nullValue, off, elems, c, 0);
    BeforeFits(chunks, size, c, 0);
    SignedProduct(false, ElementsBefore(chunks, c, 0), size);
    StartsExactly(chunks, |chunks|);
    SignedProduct(EndsInNull(chunks), KeptStart(chunks, |chunks|), size);
    if i + 1 < |ch.valid| {
      assert EmptyIfNull(ch, i);
      OffsetInColumn(chunks, size, nullValue, off, elems, c, i + 1);
      BeforeFits(chunks, size, c, i + 1);
      SignedProduct(!ch.valid[i], ElementsBefore(chunks, c, i + 1), size);
    }
  }
}
