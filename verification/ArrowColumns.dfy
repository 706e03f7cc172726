/** Arrow columns as ArrowStorage keeps them: lists of chunks of fixed-width integers or of
    strings, and slices of such lists. */
module ArrowColumns {

  // A string chunk holds one offset more than it has rows; row `r` is the bytes from
  // offsets[r] to offsets[r + 1].
  datatype Chunk =
    | Fixed(values: seq<int>)
    | Text(offsets: seq<int>, bytes: string, valid: seq<bool>)

  // A row of a column, whatever its representation.
  datatype Cell = Int(value: int) | Str(text: string, valid: bool)

  predicate ValidChunk(c: Chunk) {
    c.Text? ==>
      && |c.offsets| == |c.valid| + 1
      && 0 <= c.offsets[0] <= |c.bytes| <= 0x7FFF_FFFF
      && forall i :: 0 <= i < |c.valid| ==> RowFits(c.offsets, |c.bytes|, i)
  }

  // Row `i` is a piece of a buffer of `size` bytes.
  predicate RowFits(offsets: seq<int>, size: nat, i: nat)
    requires i + 1 < |offsets|
  {
    0 <= offsets[i] <= offsets[i + 1] <= size
  }

  function Len(c: Chunk): nat { if c.Fixed? then |c.values| else |c.valid| }

  function CellAt(c: Chunk, i: nat): Cell
    requires ValidChunk(c) && i < Len(c)
  {
    if c.Fixed? then Int(c.values[i])
    else
      assert RowFits(c.offsets, |c.bytes|, i);
      Str(c.bytes[c.offsets[i]..c.offsets[i + 1]], c.valid[i])
  }

  function CellsOf(c: Chunk): (cells: seq<Cell>)
    requires ValidChunk(c)
    ensures |cells| == Len(c)
  {
    seq(Len(c), i requires 0 <= i < Len(c) => CellAt(c, i))
  }

  predicate ValidColumn(chunks: seq<Chunk>) {
    forall k :: 0 <= k < |chunks| ==> ValidChunk(chunks[k])
  }

  // The rows of a column, in order.
  function Cells(chunks: seq<Chunk>): seq<Cell>
    requires ValidColumn(chunks)
  {
    if chunks == [] then [] else CellsOf(chunks[0]) + Cells(chunks[1..])
  }

  function SliceChunk(c: Chunk, offset: nat, n: nat): (s: Chunk)
    requires ValidChunk(c) && offset + n <= Len(c)
    ensures ValidChunk(s) && Len(s) == n
    ensures CellsOf(s) == CellsOf(c)[offset..offset + n]
  {
    if c.Fixed? then
      var s := Fixed(c.values[offset..offset + n]);
      assert CellsOf(s) == CellsOf(c)[offset..offset + n];
      s
    else
      var s := Text(c.offsets[offset..offset + n + 1], c.bytes, c.valid[offset..offset + n]);
      assert offset > 0 ==> RowFits(c.offsets, |c.bytes|, offset - 1);
      assert forall i :: 0 <= i < n ==> RowFits(c.offsets, |c.bytes|, offset + i) == RowFits(s.offsets, |c.bytes|, i);
      assert forall i :: 0 <= i < n ==> CellAt(s, i) == CellAt(c, offset + i);
      assert CellsOf(s) == CellsOf(c)[offset..offset + n];
      s
  }

  // The chunks of arrow::ChunkedArray::Slice, once the offset lies in the first chunk.
  function TakeRows(chunks: seq<Chunk>, offset: nat, n: nat): (s: seq<Chunk>)
    requires ValidColumn(chunks) && (chunks != [] ==> offset <= Len(chunks[0]))
    ensures ValidColumn(s)
  {
    if chunks == [] || n == 0 then []
    else
      var here := if n < Len(chunks[0]) - offset then n else Len(chunks[0]) - offset;
      [SliceChunk(chunks[0], offset, here)] + TakeRows(chunks[1..], 0, n - here)
  }

  /** arrow::ChunkedArray::Slice: skips chunks up to the offset; an empty slice is one empty
      chunk. */
  function Slice(chunks: seq<Chunk>, offset: nat, n: nat): (s: seq<Chunk>)
    requires ValidColumn(chunks)
    ensures ValidColumn(s)
  {
    if chunks == [] then []
    else if offset >= Len(chunks[0]) && |chunks| > 1 then Slice(chunks[1..], offset - Len(chunks[0]), n)
    else if n == 0 || offset >= Len(chunks[0]) then [SliceChunk(chunks[0], 0, 0)]
    else TakeRows(chunks, offset, n)
  }

  lemma {:induction false} CellsAppend(a: seq<Chunk>, b: seq<Chunk>)
    requires ValidColumn(a) && ValidColumn(b)
    ensures ValidColumn(a + b) && Cells(a + b) == Cells(a) + Cells(b)
  {
    if a == [] {
      assert a + b == b;
    } else {
      assert (a + b)[1..] == a[1..] + b;
      CellsAppend(a[1..], b);
      assert CellsOf(a[0]) + (Cells(a[1..]) + Cells(b)) == (CellsOf(a[0]) + Cells(a[1..])) + Cells(b);
    }
  }

  lemma SliceOfSum(a: seq<Cell>, b: seq<Cell>, offset: nat, n: nat, here: nat)
    requires offset <= |a| && offset + n <= |a| + |b|
    requires here == if n < |a| - offset then n else |a| - offset
    ensures (a + b)[offset..offset + n] == a[offset..offset + here] + b[0..n - here]
  {
  }

  lemma {:induction false} TakeRowsCells(chunks: seq<Chunk>, offset: nat, n: nat)
    requires ValidColumn(chunks) && (chunks != [] ==> offset <= Len(chunks[0]))
    requires offset + n <= |Cells(chunks)|
    ensures Cells(TakeRows(chunks, offset, n)) == Cells(chunks)[offset..offset + n]
    decreases |chunks|
  {
    if chunks != [] && n != 0 {
      var here := if n < Len(chunks[0]) - offset then n else Len(chunks[0]) - offset;
      var rest := TakeRows(chunks[1..], 0, n - here);
      TakeRowsCells(chunks[1..], 0, n - here);
      var s := [SliceChunk(chunks[0], offset, here)] + rest;
      assert s[1..] == rest;
      SliceOfSum(CellsOf(chunks[0]), Cells(chunks[1..]), offset, n, here);
    }
  }

  /** A slice holds exactly the rows asked for, for every chunking. */
  lemma {:induction false} SliceCells(chunks: seq<Chunk>, offset: nat, n: nat)
    requires ValidColumn(chunks) && offset + n <= |Cells(chunks)|
    ensures Cells(Slice(chunks, offset, n)) == Cells(chunks)[offset..offset + n]
    decreases |chunks|
  {
    if chunks == [] {
    } else if offset >= Len(chunks[0]) && |chunks| > 1 {
      SliceCells(chunks[1..], offset - Len(chunks[0]), n);
    } else if n == 0 || offset >= Len(chunks[0]) {
      var c := SliceChunk(chunks[0], 0, 0);
      assert [c][1..] == [];
      assert Cells([c]) == CellsOf(c) + Cells([]);
      if offset >= Len(chunks[0]) && |chunks| == 1 { assert chunks[1..] == []; }
    } else {
      TakeRowsCells(chunks, offset, n);
    }
  }
}
