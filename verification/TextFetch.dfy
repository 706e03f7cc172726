/** Fetching string columns (ArrowStorage.cpp): offsets rebased to the fragment, the bytes
    put side by side, and the byte count kept in the fragment's metadata. */
module TextFetch {
  import opened ArrowColumns

  const TWO_TO_THE_32: int := 0x1_0000_0000

  predicate IsUint32(x: int) { 0 <= x < TWO_TO_THE_32 }

  // uint32_t arithmetic wraps around.
  function AddUint32(a: int, b: int): (r: int)
    requires IsUint32(a) && IsUint32(b)
    ensures IsUint32(r)
  {
    if a + b >= TWO_TO_THE_32 then a + b - TWO_TO_THE_32 else a + b
  }

  function SubUint32(a: int, b: int): (r: int)
    requires IsUint32(a) && IsUint32(b)
    ensures IsUint32(r)
  {
    if a < b then a - b + TWO_TO_THE_32 else a - b
  }

  predicate AllText(chunks: seq<Chunk>) {
    forall k :: 0 <= k < |chunks| ==> chunks[k].Text?
  }

  function CellText(c: Cell): string { if c.Str? then c.text else "" }

  /** Element `r` is the number of bytes in the first `r` rows. */
  function Offsets(cells: seq<Cell>): (o: seq<int>)
    ensures |o| == |cells| + 1 && o[0] == 0
  {
    if cells == [] then [0]
    else
      var o := Offsets(cells[..|cells| - 1]);
      o + [o[|cells| - 1] + |CellText(cells[|cells| - 1])|]
  }

  /** The rows' bytes side by side. */
  function TextBytes(cells: seq<Cell>): string {
    if cells == [] then "" else TextBytes(cells[..|cells| - 1]) + CellText(cells[|cells| - 1])
  }

  function TextLength(cells: seq<Cell>): nat { |TextBytes(cells)| }

  // ---------------------------------------------------------------------------
  // Offsets and bytes of rows
  // ---------------------------------------------------------------------------

  /** What a reader of the two buffers relies on: row `r` is the bytes from o[r] to o[r + 1]. */
  ghost predicate Spells(o: seq<int>, text: string, cells: seq<Cell>) {
    && |o| == |cells| + 1 && o[0] == 0 && o[|cells|] == |text|
    && forall r :: 0 <= r < |cells| ==> SpellsRow(o, text, cells, r)
  }

  ghost predicate SpellsRow(o: seq<int>, text: string, cells: seq<Cell>, r: nat)
    requires r < |cells| && |o| == |cells| + 1
  {
    0 <= o[r] <= o[r + 1] <= |text| && text[o[r]..o[r + 1]] == CellText(cells[r])
  }

  lemma {:induction false} OffsetsSpell(cells: seq<Cell>)
    ensures Spells(Offsets(cells), TextBytes(cells), cells)
  {
    if cells != [] {
      var n := |cells| - 1;
      var init, last := cells[..n], CellText(cells[n]);
      OffsetsSpell(init);
      SpellsMore(Offsets(init), TextBytes(init), init, cells[n]);
      assert init + [cells[n]] == cells;
    }
  }

  lemma SpellsMore(o: seq<int>, text: string, cells: seq<Cell>, cell: Cell)
    requires Spells(o, text, cells)
    ensures Spells(o + [o[|cells|] + |CellText(cell)|], text + CellText(cell), cells + [cell])
  {
    var o', text', cells' := o + [o[|cells|] + |CellText(cell)|], text + CellText(cell), cells + [cell];
    forall r | 0 <= r < |cells'|
      ensures SpellsRow(o', text', cells', r)
    {
      if r < |cells| {
        assert SpellsRow(o, text, cells, r);
        assert text'[o[r]..o[r + 1]] == text[o[r]..o[r + 1]];
      } else {
        assert text'[|text|..] == CellText(cell);
      }
    }
  }

  /** Only one pair of buffers spells given rows. */
  lemma {:induction false} SpellingUnique(o: seq<int>, text: string, cells: seq<Cell>)
    ensures Spells(o, text, cells) <==> o == Offsets(cells) && text == TextBytes(cells)
  {
    OffsetsSpell(cells);
    if Spells(o, text, cells) && cells != [] {
      var n := |cells| - 1;
      assert SpellsRow(o, text, cells, n);
      SpellsLess(o, text, cells);
      SpellingUnique(o[..n + 1], text[..o[n]], cells[..n]);
      assert text == text[..o[n]] + text[o[n]..o[n + 1]];
      assert o == o[..n + 1] + [o[n + 1]];
    } else if Spells(o, text, cells) {
      assert o == [0];
    }
  }

  lemma {:induction false} SpellsLess(o: seq<int>, text: string, cells: seq<Cell>)
    requires Spells(o, text, cells) && cells != []
    ensures 0 <= o[|cells| - 1] <= |text|
    ensures Spells(o[..|cells|], text[..o[|cells| - 1]], cells[..|cells| - 1])
  {
    var n := |cells| - 1;
    assert SpellsRow(o, text, cells, n);
    var o', text', cells' := o[..n + 1], text[..o[n]], cells[..n];
    forall r | 0 <= r < n
      ensures SpellsRow(o', text', cells', r)
    {
      assert SpellsRow(o, text, cells, r);
      Ascending(o, text, cells, r + 1, n);
      assert text'[o[r]..o[r + 1]] == text[o[r]..o[r + 1]];
    }
  }

  lemma {:induction false} Ascending(o: seq<int>, text: string, cells: seq<Cell>, a: nat, b: nat)
    requires Spells(o, text, cells) && a <= b <= |cells|
    ensures 0 <= o[a] <= o[b] <= |text|
    decreases b - a
  {
    if a < b {
      assert SpellsRow(o, text, cells, a);
      Ascending(o, text, cells, a + 1, b);
    } else if a < |cells| {
      assert SpellsRow(o, text, cells, a);
    }
  }

  lemma {:induction false} TextAppend(a: seq<Cell>, b: seq<Cell>)
    ensures TextBytes(a + b) == TextBytes(a) + TextBytes(b)
    ensures TextLength(a + b) == TextLength(a) + TextLength(b)
  {
    if b == [] {
      assert a + b == a;
    } else {
      var b', last := b[..|b| - 1], CellText(b[|b| - 1]);
      assert (a + b)[..|a + b| - 1] == a + b';
      TextAppend(a, b');
      assert (TextBytes(a) + TextBytes(b')) + last == TextBytes(a) + (TextBytes(b') + last);
    }
  }

  // ---------------------------------------------------------------------------
  // Rows of a chunk within the column
  // ---------------------------------------------------------------------------

  // The position of the first row of chunk `k`.
  function StartRow(chunks: seq<Chunk>, k: nat): nat
    requires k <= |chunks|
  {
    if k == 0 then 0 else StartRow(chunks, k - 1) + Len(chunks[k - 1])
  }

  // The rows of chunk `c` stand at position `at`.
  ghost predicate Holds(cells: seq<Cell>, at: nat, c: Chunk)
    requires ValidChunk(c)
  {
    at + Len(c) <= |cells| && cells[at..at + Len(c)] == CellsOf(c)
  }

  ghost predicate HoldsChunk(cells: seq<Cell>, chunks: seq<Chunk>, k: nat)
    requires ValidColumn(chunks) && k < |chunks|
  {
    Holds(cells, StartRow(chunks, k), chunks[k])
  }

  ghost predicate HoldsColumn(cells: seq<Cell>, chunks: seq<Chunk>)
    requires ValidColumn(chunks)
  {
    && |cells| == StartRow(chunks, |chunks|)
    && forall k :: 0 <= k < |chunks| ==> HoldsChunk(cells, chunks, k)
  }

  lemma {:induction false} CellsHoldColumn(chunks: seq<Chunk>)
    requires ValidColumn(chunks)
    ensures HoldsColumn(Cells(chunks), chunks)
  {
    TotalRows(chunks);
    forall k | 0 <= k < |chunks|
      ensures HoldsChunk(Cells(chunks), chunks, k)
    {
      RowsOfChunk(chunks, k);
    }
  }

  lemma {:induction false} RowsOfChunk(chunks: seq<Chunk>, k: nat)
    requires ValidColumn(chunks) && k < |chunks|
    ensures HoldsChunk(Cells(chunks), chunks, k)
    decreases |chunks|
  {
    var first, rest := CellsOf(chunks[0]), Cells(chunks[1..]);
    if k == 0 {
      assert (first + rest)[0..|first|] == first;
    } else {
      RowsOfChunk(chunks[1..], k - 1);
      StartRowTail(chunks, k);
      Shifted(first, rest, StartRow(chunks[1..], k - 1), chunks[k]);
    }
  }

  lemma Shifted(first: seq<Cell>, rest: seq<Cell>, at: nat, c: Chunk)
    requires ValidChunk(c) && Holds(rest, at, c)
    ensures Holds(first + rest, |first| + at, c)
  {
  }

  lemma {:induction false} TotalRows(chunks: seq<Chunk>)
    requires ValidColumn(chunks)
    ensures StartRow(chunks, |chunks|) == |Cells(chunks)|
  {
    if chunks != [] {
      StartRowTail(chunks, |chunks|);
      TotalRows(chunks[1..]);
    }
  }

  lemma {:induction false} StartRowTail(chunks: seq<Chunk>, k: nat)
    requires 1 <= k <= |chunks|
    ensures StartRow(chunks, k) == Len(chunks[0]) + StartRow(chunks[1..], k - 1)
  {
    if k > 1 { StartRowTail(chunks, k - 1); }
  }

  lemma RowOf(cells: seq<Cell>, at: nat, c: Chunk, i: nat)
    requires ValidChunk(c) && c.Text? && Holds(cells, at, c) && i < Len(c)
    ensures 0 <= c.offsets[i] <= c.offsets[i + 1] <= |c.bytes|
    ensures CellText(cells[at + i]) == c.bytes[c.offsets[i]..c.offsets[i + 1]]
  {
    assert RowFits(c.offsets, |c.bytes|, i);
    assert cells[at..at + Len(c)][i] == CellsOf(c)[i];
  }

  // The offsets of a chunk advance as the offsets of the rows do.
  lemma {:induction false} ChunkOffsets(o: seq<int>, text: string, cells: seq<Cell>, at: nat, c: Chunk, i: nat, j: nat)
    requires Spells(o, text, cells)
    requires ValidChunk(c) && c.Text? && i <= j <= Len(c) && Holds(cells, at, c)
    ensures 0 <= c.offsets[i] <= c.offsets[j] <= |c.bytes|
    ensures c.offsets[j] - c.offsets[i] == o[at + j] - o[at + i]
    decreases j - i
  {
    if i < j {
      RowOf(cells, at, c, i);
      assert SpellsRow(o, text, cells, at + i);
      ChunkOffsets(o, text, cells, at, c, i + 1, j);
    } else if i > 0 {
      RowOf(cells, at, c, i - 1);
    }
  }

  // The bytes of a chunk's rows lie in one piece, as they do in the column.
  lemma {:induction false} ChunkBytes(o: seq<int>, text: string, cells: seq<Cell>, at: nat, c: Chunk, j: nat)
    requires Spells(o, text, cells)
    requires ValidChunk(c) && c.Text? && j <= Len(c) && Holds(cells, at, c)
    ensures 0 <= c.offsets[0] <= c.offsets[j] <= |c.bytes| && 0 <= o[at] <= o[at + j] <= |text|
    ensures c.bytes[c.offsets[0]..c.offsets[j]] == text[o[at]..o[at + j]]
  {
    Ascending(o, text, cells, at, at + j);
    if j > 0 {
      ChunkBytes(o, text, cells, at, c, j - 1);
      RowOf(cells, at, c, j - 1);
      assert SpellsRow(o, text, cells, at + (j - 1));
      ExtendSlices(c.bytes, c.offsets[0], c.offsets[j - 1], c.offsets[j], text, o[at], o[at + (j - 1)], o[at + j]);
    }
  }

  lemma ExtendSlices(s: string, a: int, b: int, c: int, t: string, x: int, y: int, z: int)
    requires 0 <= a <= b <= c <= |s| && 0 <= x <= y <= z <= |t|
    requires s[a..b] == t[x..y] && s[b..c] == t[y..z]
    ensures s[a..c] == t[x..z]
  {
    JoinSlices(s, a, b, c);
    JoinSlices(t, x, y, z);
  }

  lemma JoinSlices(s: string, a: int, b: int, c: int)
    requires 0 <= a <= b <= c <= |s|
    ensures s[a..b] + s[b..c] == s[a..c]
  {
  }

  // ---------------------------------------------------------------------------
  // The byte count
  // ---------------------------------------------------------------------------

  /** computeTotalStringsLength: the bytes of `rows` rows from row `offset` on. */
  method ComputeTotalStringsLength(chunks: seq<Chunk>, offset: nat, rows: nat) returns (total: int)
    requires ValidColumn(chunks) && AllText(chunks)
    requires offset < |Cells(chunks)| && offset + rows <= |Cells(chunks)|
    ensures total == TextLength(Cells(chunks)[offset..offset + rows])
  {
    ghost var cells := Cells(chunks);
    CellsHoldColumn(chunks);
    OffsetsSpell(cells);
    LengthOfRows(cells, offset, rows);
    var chunkNo, start := FindChunk(chunks, offset);
    total := SumLengths(chunks, chunkNo, start, rows, cells, Offsets(cells), TextBytes(cells));
  }

  lemma {:induction false} LengthOfRows(cells: seq<Cell>, offset: nat, rows: nat)
    requires offset + rows <= |cells|
    ensures TextLength(cells[offset..offset + rows]) == Offsets(cells)[offset + rows] - Offsets(cells)[offset]
  {
    var o, text := Offsets(cells), TextBytes(cells);
    OffsetsSpell(cells);
    if rows > 0 {
      LengthOfRows(cells, offset, rows - 1);
      assert SpellsRow(o, text, cells, offset + rows - 1);
      var part := cells[offset..offset + rows];
      assert part[..rows - 1] == cells[offset..offset + rows - 1];
    }
  }

  // The chunk that holds row `offset`, and the row's position in it.
  method FindChunk(chunks: seq<Chunk>, offset: nat) returns (chunkNo: nat, start: nat)
    requires offset < StartRow(chunks, |chunks|)
    ensures chunkNo < |chunks| && start < Len(chunks[chunkNo])
    ensures StartRow(chunks, chunkNo) + start == offset
  {
    start, chunkNo := offset, 0;
    while Len(chunks[chunkNo]) <= start
      invariant chunkNo < |chunks| && StartRow(chunks, chunkNo) + start == offset
      decreases |chunks| - chunkNo
    {
      start := start - Len(chunks[chunkNo]);
      chunkNo := chunkNo + 1;
    }
  }

  method SumLengths(chunks: seq<Chunk>, first: nat, offset: nat, rows: nat,
                    ghost cells: seq<Cell>, ghost o: seq<int>, ghost text: string) returns (total: int)
    requires ValidColumn(chunks) && AllText(chunks) && HoldsColumn(cells, chunks) && Spells(o, text, cells)
    requires first < |chunks| && offset < Len(chunks[first])
    requires StartRow(chunks, first) + offset + rows <= |cells|
    ensures total == o[StartRow(chunks, first) + offset + rows] - o[StartRow(chunks, first) + offset]
  {
    ghost var begin: nat := StartRow(chunks, first) + offset;
    var remain: nat, start: nat, chunkNo: nat := rows, offset, first;
    total := 0;
    while remain > 0
      invariant remain <= rows
      invariant remain > 0 ==> chunkNo < |chunks| && start <= Len(chunks[chunkNo])
      invariant remain > 0 ==> StartRow(chunks, chunkNo) + start == begin + rows - remain
      invariant total == o[begin + rows - remain] - o[begin]
      decreases remain, |chunks| - chunkNo
    {
      var c := chunks[chunkNo];
      var here: nat := if remain < Len(c) - start then remain else Len(c) - start;
      assert HoldsChunk(cells, chunks, chunkNo);
      ChunkOffsets(o, text, cells, StartRow(chunks, chunkNo), c, start, start + here);
      total := total + (c.offsets[start + here] - c.offsets[start]);
      remain := remain - here;
      start := 0;
      chunkNo := chunkNo + 1;
    }
  }

  // ---------------------------------------------------------------------------
  // The fetches
  // ---------------------------------------------------------------------------

  /** fetchVarLenOffsets over the chunks of a slice: the offsets of the rows, computed modulo
      2^32 with a running correction. */
  method FetchVarLenOffsets(chunks: seq<Chunk>, dest: array<int>)
    requires ValidColumn(chunks) && AllText(chunks)
    requires dest.Length == |Cells(chunks)| + 1 && TextLength(Cells(chunks)) < TWO_TO_THE_32
    modifies dest
    ensures dest[..] == Offsets(Cells(chunks))
  {
    ghost var cells := Cells(chunks);
    CellsHoldColumn(chunks);
    OffsetsSpell(cells);
    RebaseAll(chunks, dest, cells, Offsets(cells), TextBytes(cells));
  }

  method RebaseAll(chunks: seq<Chunk>, dest: array<int>, ghost cells: seq<Cell>, ghost o: seq<int>, ghost text: string)
    requires ValidColumn(chunks) && AllText(chunks) && HoldsColumn(cells, chunks)
    requires Spells(o, text, cells) && |text| < TWO_TO_THE_32
    requires dest.Length == |cells| + 1
    modifies dest
    ensures dest[..] == o
  {
    var dst: nat, delta := 0, 0;
    for k := 0 to |chunks|
      invariant dst == StartRow(chunks, k) <= |cells| && delta == o[dst]
      invariant forall r :: 0 <= r < dst ==> dest[r] == o[r]
    {
      assert HoldsChunk(cells, chunks, k);
      delta := RebaseOffsets(chunks[k], delta, dest, dst, cells, o, text);
      dst := dst + Len(chunks[k]);
    }
    dest[dst] := delta;
  }

  // One chunk: writes its rebased offsets from position `dst` on.
  method RebaseOffsets(c: Chunk, base: int, dest: array<int>, dst: nat,
                       ghost cells: seq<Cell>, ghost o: seq<int>, ghost text: string) returns (next: int)
    requires ValidChunk(c) && c.Text? && Holds(cells, dst, c)
    requires Spells(o, text, cells) && |text| < TWO_TO_THE_32
    requires base == o[dst] && |cells| < dest.Length
    modifies dest
    ensures next == o[dst + Len(c)]
    ensures forall r :: 0 <= r < dst ==> dest[r] == old(dest[r])
    ensures forall r :: dst <= r < dst + Len(c) ==> dest[r] == o[r]
  {
    RebasedRow(o, text, cells, dst, c, 0);
    var delta := SubUint32(base, c.offsets[0]);
    for i := 0 to Len(c)
      invariant forall r :: 0 <= r < dst ==> dest[r] == old(dest[r])
      invariant forall r :: dst <= r < dst + i ==> dest[r] == o[r]
    {
      RebasedRow(o, text, cells, dst, c, i);
      dest[dst + i] := AddUint32(c.offsets[i], delta);
    }
    RebasedRow(o, text, cells, dst, c, Len(c));
    next := AddUint32(delta, c.offsets[Len(c)]);
  }

  lemma {:induction false} RebasedRow(o: seq<int>, text: string, cells: seq<Cell>, dst: nat, c: Chunk, i: nat)
    requires Spells(o, text, cells) && |text| < TWO_TO_THE_32
    requires ValidChunk(c) && c.Text? && i <= Len(c) && Holds(cells, dst, c)
    ensures IsUint32(c.offsets[0]) && IsUint32(c.offsets[i]) && IsUint32(o[dst])
    ensures AddUint32(c.offsets[i], SubUint32(o[dst], c.offsets[0])) == o[dst + i]
  {
    ChunkOffsets(o, text, cells, dst, c, 0, i);
    Ascending(o, text, cells, dst, dst + i);
  }

  /** fetchVarLenData over the chunks of a slice, for the byte count of the metadata. */
  method FetchVarLenData(chunks: seq<Chunk>, numBytes: nat, dest: array<char>)
    requires ValidColumn(chunks) && AllText(chunks)
    requires numBytes == TextLength(Cells(chunks)) && dest.Length == numBytes
    modifies dest
    ensures dest[..] == TextBytes(Cells(chunks))
  {
    ghost var cells := Cells(chunks);
    CellsHoldColumn(chunks);
    OffsetsSpell(cells);
    CopyAll(chunks, numBytes, dest, cells, Offsets(cells), TextBytes(cells));
  }

  method CopyAll(chunks: seq<Chunk>, numBytes: nat, dest: array<char>,
                 ghost cells: seq<Cell>, ghost o: seq<int>, ghost text: string)
    requires ValidColumn(chunks) && AllText(chunks) && HoldsColumn(cells, chunks) && Spells(o, text, cells)
    requires numBytes == |text| == dest.Length
    modifies dest
    ensures dest[..] == text
  {
    var dst: nat, remained: nat := 0, numBytes;
    for k := 0 to |chunks|
      invariant StartRow(chunks, k) <= |cells| && dst == o[StartRow(chunks, k)]
      invariant dst + remained == numBytes && dest[..dst] == text[..dst]
    {
      if remained == 0 {
        break;
      }
      assert HoldsChunk(cells, chunks, k);
      dst, remained := CopyChunk(chunks[k], numBytes, dest, dst, remained, StartRow(chunks, k), cells, o, text);
    }
    assert dest[..] == dest[..dst];
  }

  // One chunk: copies its bytes to position `dst`.
  method CopyChunk(c: Chunk, numBytes: nat, dest: array<char>, dst: nat, remained: nat,
                   ghost at: nat, ghost cells: seq<Cell>, ghost o: seq<int>, ghost text: string)
    returns (dst': nat, remained': nat)
    requires ValidChunk(c) && c.Text? && Holds(cells, at, c) && Spells(o, text, cells) && dst == o[at]
    requires dst + remained == numBytes == |text| == dest.Length
    requires dest[..dst] == text[..dst]
    modifies dest
    ensures dst' == o[at + Len(c)] && dst' + remained' == numBytes && dest[..dst'] == text[..dst']
  {
    ChunkBytes(o, text, cells, at, c, Len(c));
    var chunkSize: nat := c.offsets[Len(c)] - c.offsets[0];
    assert chunkSize == |text[dst..o[at + Len(c)]]|;
    chunkSize := if chunkSize < numBytes then chunkSize else numBytes;
    CopyBytes(c.bytes, c.offsets[0], chunkSize, dest, dst);
    JoinSlices(text, 0, dst, dst + chunkSize);
    dst', remained' := dst + chunkSize, remained - chunkSize;
  }

  // memcpy.
  method CopyBytes(src: string, from: nat, n: nat, dest: array<char>, dst: nat)
    requires from + n <= |src| && dst + n <= dest.Length
    modifies dest
    ensures dest[..dst + n] == old(dest[..dst]) + src[from..from + n]
  {
    forall i | 0 <= i < n {
      dest[dst + i] := src[from + i];
    }
  }
}
