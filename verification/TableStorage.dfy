/** A table of ArrowStorage: appending Arrow tables to it and fetching fragments from it
    (ArrowStorage.cpp). */
module TableStorage {
  import opened ArrowColumns
  import opened Basics
  import opened Fragments
  import opened FragmentMerging
  import ChunkStatistics
  import TextFetch

  datatype Outcome = Done | MismatchedSchema

  datatype Token = NoToken | Exposes(values: seq<int>)

  // An Arrow table whose columns are already in the representation of the storage.
  datatype ArrowTable = ArrowTable(schema: seq<ColumnType>, columns: seq<seq<Chunk>>, numRows: nat)

  // ---------------------------------------------------------------------------
  // Columns of a type
  // ---------------------------------------------------------------------------

  predicate OfType(ty: ColumnType, chunks: seq<Chunk>) {
    ValidColumn(chunks) && if ty.TextColumn? then TextFetch.AllText(chunks) else AllFixed(chunks)
  }

  predicate AllFixed(chunks: seq<Chunk>) { forall k :: 0 <= k < |chunks| ==> chunks[k].Fixed? }

  predicate Typed(types: seq<ColumnType>, columns: seq<seq<Chunk>>) {
    |columns| == |types| && forall c :: 0 <= c < |types| ==> OfType(types[c], columns[c])
  }

  function DataOf(types: seq<ColumnType>, columns: seq<seq<Chunk>>): (data: seq<seq<Cell>>)
    requires Typed(types, columns)
    ensures |data| == |types|
  {
    seq(|columns|, c requires 0 <= c < |columns| => CellsIn(types[c], columns[c]))
  }

  function CellsIn(ty: ColumnType, column: seq<Chunk>): seq<Cell>
    requires OfType(ty, column)
  {
    Cells(column)
  }

  ghost predicate ValidTable(at: ArrowTable) {
    Typed(at.schema, at.columns) && AllFit(at.schema, DataOf(at.schema, at.columns), at.numRows)
  }

  lemma {:induction false} SliceOfType(ty: ColumnType, chunks: seq<Chunk>, offset: nat, n: nat)
    requires OfType(ty, chunks)
    ensures OfType(ty, Slice(chunks, offset, n))
    decreases |chunks|
  {
    if chunks == [] {
    } else if offset >= Len(chunks[0]) && |chunks| > 1 {
      SliceOfType(ty, chunks[1..], offset - Len(chunks[0]), n);
    } else if n == 0 || offset >= Len(chunks[0]) {
    } else {
      TakeRowsOfType(ty, chunks, offset, n);
    }
  }

  lemma {:induction false} TakeRowsOfType(ty: ColumnType, chunks: seq<Chunk>, offset: nat, n: nat)
    requires OfType(ty, chunks) && (chunks != [] ==> offset <= Len(chunks[0]))
    ensures OfType(ty, TakeRows(chunks, offset, n))
    decreases |chunks|
  {
    if chunks != [] && n != 0 {
      var here := if n < Len(chunks[0]) - offset then n else Len(chunks[0]) - offset;
      TakeRowsOfType(ty, chunks[1..], 0, n - here);
    }
  }

  // ---------------------------------------------------------------------------
  // Metadata of new fragments
  // ---------------------------------------------------------------------------

  function RawValues(chunks: seq<Chunk>): seq<seq<int>>
    requires AllFixed(chunks)
  {
    seq(|chunks|, k requires 0 <= k < |chunks| => chunks[k].values)
  }

  lemma {:induction false} RawValuesAreValues(chunks: seq<Chunk>)
    requires ValidColumn(chunks) && AllFixed(chunks)
    ensures Flatten(RawValues(chunks)) == Values(Cells(chunks))
  {
    if chunks != [] {
      var k := |chunks| - 1;
      var init, last := chunks[..k], chunks[k];
      RawValuesAreValues(init);
      assert RawValues(chunks)[..k] == RawValues(init);
      assert chunks == init + [last];
      CellsAppend(init, [last]);
      assert [last][1..] == [];
      assert Cells([last]) == CellsOf(last);
      assert Values(CellsOf(last)) == last.values;
      assert Values(Cells(init) + CellsOf(last)) == Values(Cells(init)) + Values(CellsOf(last));
    }
  }

  /** The metadata of one column of a new fragment is what a scan of its rows gives. */
  method ComputeMetadata(ty: ColumnType, column: seq<Chunk>, offset: nat, rows: nat) returns (m: Metadata)
    requires OfType(ty, column) && offset + rows <= |Cells(column)|
    requires ty.TextColumn? ==> offset < |Cells(column)|
    ensures m == MetaOf(ty, Cells(column)[offset..offset + rows])
  {
    match ty
    case IntColumn(t) => m := IntMetadata(t, column, offset, rows);
    case TextColumn => m := TextMetadata(column, offset, rows);
  }

  method IntMetadata(t: ChunkStatistics.IntType, column: seq<Chunk>, offset: nat, rows: nat) returns (m: Metadata)
    requires OfType(IntColumn(t), column) && offset + rows <= |Cells(column)|
    ensures m == MetaOf(IntColumn(t), Cells(column)[offset..offset + rows])
  {
    var stats := StatsOf(t, column, offset, rows);
    m := Metadata(rows, rows * t.size, stats);
  }

  method StatsOf(t: ChunkStatistics.IntType, column: seq<Chunk>, offset: nat, rows: nat)
    returns (stats: ChunkStatistics.Stats)
    requires OfType(IntColumn(t), column) && offset + rows <= |Cells(column)|
    ensures stats
         == ChunkStatistics.Scan(ChunkStatistics.Fresh(t), Values(Cells(column)[offset..offset + rows]), t, false)
  {
    SliceOfType(IntColumn(t), column, offset, rows);
    SliceCells(column, offset, rows);
    var slice := Slice(column, offset, rows);
    RawValuesAreValues(slice);
    var chunks := RawValues(slice);
    stats := ChunkStatistics.ComputeStats(chunks, t, seq(|chunks|, _ => ChunkStatistics.Whole));
  }

  method TextMetadata(column: seq<Chunk>, offset: nat, rows: nat) returns (m: Metadata)
    requires OfType(TextColumn, column) && offset < |Cells(column)| && offset + rows <= |Cells(column)|
    ensures m == MetaOf(TextColumn, Cells(column)[offset..offset + rows])
  {
    var numBytes := TextFetch.ComputeTotalStringsLength(column, offset, rows);
    SliceCells(column, offset, rows);
    m := Metadata(rows, numBytes, ChunkStatistics.Stats(0, 0, HasNull(Cells(Slice(column, offset, rows)))));
  }

  // The first `c` columns of a new fragment are filled in.
  ghost predicate Filled(types: seq<ColumnType>, data: seq<seq<Cell>>, frag: Fragment, c: nat)
    requires |data| == |types| && c <= |types|
  {
    |frag.metadata| == |types|
    && forall k {:trigger AgreesAt(types[k], data[k], frag, k)} :: 0 <= k < c ==> AgreesAt(types[k], data[k], frag, k)
  }

  ghost predicate FilledPiece(size: nat, n: nat, first: nat, types: seq<ColumnType>, data: seq<seq<Cell>>,
                              frag: Fragment, f: nat, c: nat)
    requires size > 0 && first <= n && f < FragCount(size, n, first) && |data| == |types| && c <= |types|
  {
    Filled(types, data, frag, c) && (c > 0 ==> IsPiece(size, n, first, frag, f))
  }

  lemma PieceWithin(size: nat, n: nat, first: nat, f: nat)
    requires size > 0 && first <= n && f < FragCount(size, n, first)
    ensures FragOffset(size, first, f) + FragRows(size, n, first, f) <= n
    ensures n > 0 ==> FragOffset(size, first, f) < n
  {
    if f > 0 { NewFragmentStarts(size, n, first, f); }
  }

  // One column of one fragment.
  method FillOne(types: seq<ColumnType>, columns: seq<seq<Chunk>>, n: nat, size: nat, first: nat, c: nat, f: nat,
                 frag: Fragment)
    returns (filled: Fragment)
    requires size > 0 && first <= n && f < FragCount(size, n, first) && c < |types|
    requires Typed(types, columns) && AllFit(types, DataOf(types, columns), n) && (TextColumn in types ==> n > 0)
    requires FilledPiece(size, n, first, types, DataOf(types, columns), frag, f, c)
    ensures FilledPiece(size, n, first, types, DataOf(types, columns), filled, f, c + 1)
  {
    ghost var data := DataOf(types, columns);
    PieceWithin(size, n, first, f);
    var offset := FragOffset(size, first, f);
    var rowCount := FragRows(size, n, first, f);
    assert FitsColumn(types[c], data[c], n);
    var meta := ComputeMetadata(types[c], columns[c], offset, rowCount);
    filled := Fragment(offset, rowCount, frag.metadata[c := meta]);
    forall k | 0 <= k < c + 1
      ensures AgreesAt(types[k], data[k], filled, k)
    {
      if k < c { assert AgreesAt(types[k], data[k], frag, k); }
    }
  }

  /** The new fragments: for each column, each fragment's place and metadata. */
  method BuildFragments(types: seq<ColumnType>, columns: seq<seq<Chunk>>, n: nat, size: nat, first: nat)
    returns (news: seq<Fragment>)
    requires size > 0 && first <= n && types != []
    requires Typed(types, columns) && AllFit(types, DataOf(types, columns), n) && (TextColumn in types ==> n > 0)
    ensures Pieces(size, n, first, news) && AllAgree(types, DataOf(types, columns), news)
  {
    ghost var data := DataOf(types, columns);
    var count := FragCount(size, n, first);
    var blank := Metadata(0, 0, ChunkStatistics.Stats(0, 0, false));
    news := seq(count, _ => Fragment(0, 0, seq(|types|, _ => blank)));
    for c := 0 to |types|
      invariant |news| == count
      invariant forall f :: 0 <= f < count ==> FilledPiece(size, n, first, types, data, news[f], f, c)
    {
      for f := 0 to count
        invariant |news| == count
        invariant forall g :: 0 <= g < f ==> FilledPiece(size, n, first, types, data, news[g], g, c + 1)
        invariant forall g :: f <= g < count ==> FilledPiece(size, n, first, types, data, news[g], g, c)
      {
        var filled := FillOne(types, columns, n, size, first, c, f, news[f]);
        news := news[f := filled];
      }
    }
    assert forall f :: 0 <= f < count ==> FilledPiece(size, n, first, types, data, news[f], f, |types|);
  }

  // ---------------------------------------------------------------------------
  // The table
  // ---------------------------------------------------------------------------

  method CompareSchemas(lhs: seq<ColumnType>, rhs: seq<ColumnType>) returns (same: bool)
    ensures same <==> lhs == rhs
  {
    if |lhs| != |rhs| {
      return false;
    }
    for i := 0 to |lhs|
      invariant lhs[..i] == rhs[..i]
    {
      if lhs[i] != rhs[i] {
        return false;
      }
    }
    return true;
  }

  /** What holds of a table that took in rows: typed columns of equal length, fragments that
      tile the rows, and metadata that agrees with them. */
  ghost predicate Consistent(size: nat, types: seq<ColumnType>, columns: seq<seq<Chunk>>, frags: seq<Fragment>,
                             rows: nat) {
    && Typed(types, columns) && AllFit(types, DataOf(types, columns), rows)
    && frags != [] && Tiles(size, frags, rows)
    && AllAgree(types, DataOf(types, columns), frags)
  }

  lemma {:induction false} ExtendedData(types: seq<ColumnType>, a: seq<seq<Chunk>>, b: seq<seq<Chunk>>)
    requires Typed(types, a) && Typed(types, b)
    ensures Typed(types, Extended(a, b))
    ensures DataOf(types, Extended(a, b)) == Extended(DataOf(types, a), DataOf(types, b))
  {
    var m := Extended(a, b);
    forall c | 0 <= c < |types|
      ensures OfType(types[c], m[c]) && Cells(m[c]) == Cells(a[c]) + Cells(b[c])
    {
      CellsAppend(a[c], b[c]);
    }
  }

  /** Appending keeps a table consistent. */
  lemma {:induction false} AppendKeepsConsistent(size: nat, types: seq<ColumnType>, columns: seq<seq<Chunk>>,
                                                 frags: seq<Fragment>, rows: nat,
                                                 more: seq<seq<Chunk>>, n: nat, first: nat, news: seq<Fragment>)
    requires size > 0 && Consistent(size, types, columns, frags, rows)
    requires Typed(types, more) && AllFit(types, DataOf(types, more), n)
    requires first == FirstFragSize(size, frags, n) && Pieces(size, n, first, news)
    requires AllAgree(types, DataOf(types, more), news)
    ensures news != [] && |frags[|frags| - 1].metadata| == |news[0].metadata| == |types|
    ensures Consistent(size, types, Extended(columns, more), Joined(size, types, frags, news, rows), rows + n)
  {
    var data, data' := DataOf(types, columns), DataOf(types, more);
    ExtendedData(types, columns, more);
    ExtendedFits(types, data, data', rows, n);
    assert IsPiece(size, n, first, news[0], 0);
    JoinedAgrees(size, types, data, frags, rows, data', news);
    JoinedTiles(size, types, frags, rows, news, n, first);
  }

  lemma FirstAppendConsistent(size: nat, types: seq<ColumnType>, more: seq<seq<Chunk>>, n: nat, first: nat,
                              news: seq<Fragment>)
    requires size > 0 && Typed(types, more) && AllFit(types, DataOf(types, more), n)
    requires first == (if size < n then size else n) && Pieces(size, n, first, news)
    requires AllAgree(types, DataOf(types, more), news)
    ensures Consistent(size, types, more, news, n)
  {
    assert IsPiece(size, n, first, news[0], 0);
    OnePiece(size, n, first);
    forall i | 0 <= i < |news| - 1
      ensures FullBefore(size, news, i)
    {
      PieceEnds(size, n, first, news, i);
    }
    PieceEnds(size, n, first, news, |news| - 1);
  }

  lemma DivExact(m: nat, a: nat, b: nat)
    requires b > 0 && m == a * b
    ensures m / b == a
  {
    var q := m / b;
    assert m == q * b + m % b;
    if a > q {
      assert (q + 1) * b == q * b + b;
      MulMono(q + 1, a, b);
    } else if a < q {
      assert (a + 1) * b == a * b + b;
      MulMono(a + 1, q, b);
    }
  }

  // The rows a byte count stands for; zero stands for all rows of the fragment.
  function RowsToFetch(numBytes: nat, elemSize: nat, rowCount: nat): nat
    requires elemSize > 0
  {
    if numBytes != 0 then numBytes / elemSize else rowCount
  }

  /** The byte count of a fragment stands for its rows. */
  lemma WholeFragment(elemSize: nat, rowCount: nat)
    requires elemSize > 0
    ensures RowsToFetch(rowCount * elemSize, elemSize, rowCount) == rowCount
  {
    DivExact(rowCount * elemSize, rowCount, elemSize);
  }

  lemma SingleChunk(chunks: seq<Chunk>)
    requires ValidColumn(chunks) && |chunks| == 1 && chunks[0].Fixed?
    ensures Values(Cells(chunks)) == chunks[0].values
  {
  }

  // A slice of one chunk is one chunk.
  lemma OneChunk(chunks: seq<Chunk>, offset: nat, n: nat)
    requires ValidColumn(chunks) && |chunks| == 1
    ensures |Slice(chunks, offset, n)| == 1
  {
    if n > 0 && offset < Len(chunks[0]) {
      var here := if n < Len(chunks[0]) - offset then n else Len(chunks[0]) - offset;
      assert chunks[1..] == [];
      assert TakeRows(chunks[1..], 0, n - here) == [];
    }
  }

  // The memcpy loop over the chunks of a slice.
  method CopyChunks(chunks: seq<Chunk>, dest: array<int>)
    requires ValidColumn(chunks) && AllFixed(chunks) && dest.Length == |Cells(chunks)|
    modifies dest
    ensures dest[..] == Values(Cells(chunks))
  {
    var dst: nat := 0;
    for k := 0 to |chunks|
      invariant dst == |Flatten(RawValues(chunks[..k]))| <= dest.Length
      invariant dest[..dst] == Flatten(RawValues(chunks[..k]))
    {
      PrefixValues(chunks, k);
      var values := chunks[k].values;
      CopyValues(values, dest, dst);
      dst := dst + |values|;
    }
    assert chunks[..|chunks|] == chunks;
    RawValuesAreValues(chunks);
    assert dest[..dst] == dest[..];
  }

  lemma {:induction false} PrefixValues(chunks: seq<Chunk>, k: nat)
    requires ValidColumn(chunks) && AllFixed(chunks) && k < |chunks|
    ensures Flatten(RawValues(chunks[..k + 1]))
         == Flatten(RawValues(chunks[..k])) + chunks[k].values
    ensures |Flatten(RawValues(chunks[..k + 1]))| <= |Cells(chunks)|
  {
    assert RawValues(chunks[..k + 1])[..k] == RawValues(chunks[..k]);
    assert chunks == chunks[..k + 1] + chunks[k + 1..];
    CellsAppend(chunks[..k + 1], chunks[k + 1..]);
    RawValuesAreValues(chunks[..k + 1]);
  }

  method CopyValues(src: seq<int>, dest: array<int>, dst: nat)
    requires dst + |src| <= dest.Length
    modifies dest
    ensures dest[..dst + |src|] == old(dest[..dst]) + src
  {
    forall i | 0 <= i < |src| {
      dest[dst + i] := src[i];
    }
  }

  method MergeMetadata(types: seq<ColumnType>, a: seq<Metadata>, b: seq<Metadata>) returns (m: seq<Metadata>)
    requires |a| == |b| == |types|
    ensures m == MergedMeta(types, a, b)
  {
    m := a;
    for c := 0 to |types|
      invariant |m| == |types|
      invariant forall k :: 0 <= k < c ==> m[k] == MergeMeta(types[k], a[k], b[k])
      invariant forall k :: c <= k < |types| ==> m[k] == a[k]
    {
      m := m[c := MergeMeta(types[c], m[c], b[c])];
    }
  }

  // The chunks of a slice of a text column.
  lemma TextSlice(column: seq<Chunk>, offset: nat, rows: nat)
    requires OfType(TextColumn, column) && offset + rows <= |Cells(column)|
    ensures OfType(TextColumn, Slice(column, offset, rows))
    ensures Cells(Slice(column, offset, rows)) == Cells(column)[offset..offset + rows]
  {
    SliceOfType(TextColumn, column, offset, rows);
    SliceCells(column, offset, rows);
  }

  method FetchOffsetsOf(column: seq<Chunk>, offset: nat, rows: nat, dest: array<int>, ghost cells: seq<Cell>)
    requires OfType(TextColumn, column) && offset + rows <= |Cells(column)|
    requires cells == Cells(column)[offset..offset + rows] && TextFetch.TextLength(cells) < TextFetch.TWO_TO_THE_32
    requires dest.Length == rows + 1
    modifies dest
    ensures dest[..] == TextFetch.Offsets(cells)
  {
    TextSlice(column, offset, rows);
    TextFetch.FetchVarLenOffsets(Slice(column, offset, rows), dest);
  }

  method FetchBytesOf(column: seq<Chunk>, offset: nat, rows: nat, numBytes: nat, dest: array<char>,
                      ghost cells: seq<Cell>)
    requires OfType(TextColumn, column) && offset + rows <= |Cells(column)|
    requires cells == Cells(column)[offset..offset + rows]
    requires dest.Length == numBytes == TextFetch.TextLength(cells)
    modifies dest
    ensures dest[..] == TextFetch.TextBytes(cells)
  {
    TextSlice(column, offset, rows);
    TextFetch.FetchVarLenData(Slice(column, offset, rows), numBytes, dest);
  }

  lemma ExtendNothing(data: seq<seq<Cell>>, more: seq<seq<Cell>>)
    requires |data| == |more| && forall c :: 0 <= c < |data| ==> data[c] == []
    ensures Extended(data, more) == more
  {
    forall c | 0 <= c < |data|
      ensures Extended(data, more)[c] == more[c]
    {
      assert [] + more[c] == more[c];
    }
  }

  class TableData {
    const fragmentSize: nat
    const types: seq<ColumnType>
    var colData: seq<seq<Chunk>>
    var fragments: seq<Fragment>
    var rowCount: nat

    ghost predicate Valid()
      reads this
    {
      && fragmentSize > 0 && types != []
      && if colData == [] then fragments == [] && rowCount == 0
         else Consistent(fragmentSize, types, colData, fragments, rowCount)
    }

    /** The rows of every column. */
    ghost function Contents(): (data: seq<seq<Cell>>)
      requires Valid()
      reads this
      ensures |data| == |types|
    {
      if colData == [] then seq(|types|, _ => []) else DataOf(types, colData)
    }

    constructor (fragmentSize: nat, types: seq<ColumnType>)
      requires fragmentSize > 0 && types != []
      ensures Valid() && this.fragmentSize == fragmentSize && this.types == types
      ensures rowCount == 0 && Contents() == seq(|types|, _ => [])
    {
      this.fragmentSize, this.types := fragmentSize, types;
      colData, fragments, rowCount := [], [], 0;
    }

    /** appendArrowTable: refuses a table of another schema and then changes nothing;
        otherwise adds its rows to the end of every column.  `Valid` says the rest: the
        fragments tile the longer table and their metadata is that of a fresh scan. */
    method AppendArrowTable(at: ArrowTable) returns (r: Outcome)
      requires Valid() && ValidTable(at) && (TextColumn in at.schema ==> at.numRows > 0)
      modifies this
      ensures Valid()
      ensures r.MismatchedSchema? <==> at.schema != types
      ensures r.MismatchedSchema? ==> unchanged(this)
      ensures r.Done? ==> rowCount == old(rowCount) + at.numRows
      ensures r.Done? ==> Contents() == Extended(old(Contents()), DataOf(types, at.columns))
    {
      var same := CompareSchemas(types, at.schema);
      if !same {
        return MismatchedSchema;
      }
      var n := at.numRows;
      var firstFragSize := FirstFragSize(fragmentSize, fragments, n);
      var news := BuildFragments(types, at.columns, n, fragmentSize, firstFragSize);
      if rowCount != 0 {
        MergeFragments(at.columns, n, firstFragSize, news);
      } else {
        ReplaceFragments(at.columns, n, firstFragSize, news);
      }
      return Done;
    }

    // The table holds rows: columns and fragments are merged.
    method MergeFragments(more: seq<seq<Chunk>>, n: nat, first: nat, news: seq<Fragment>)
      requires Valid() && rowCount != 0
      requires Typed(types, more) && AllFit(types, DataOf(types, more), n)
      requires first == FirstFragSize(fragmentSize, fragments, n) && Pieces(fragmentSize, n, first, news)
      requires AllAgree(types, DataOf(types, more), news)
      modifies this
      ensures Valid() && rowCount == old(rowCount) + n
      ensures Contents() == Extended(old(Contents()), DataOf(types, more))
    {
      AppendKeepsConsistent(fragmentSize, types, colData, fragments, rowCount, more, n, first, news);
      ExtendedData(types, colData, more);
      MergeColumns(more);
      JoinFragments(news);
      rowCount := rowCount + n;
    }

    method JoinFragments(news: seq<Fragment>)
      requires fragments != [] && news != []
      requires |fragments[|fragments| - 1].metadata| == |news[0].metadata| == |types|
      modifies this`fragments
      ensures fragments == Joined(fragmentSize, types, old(fragments), news, rowCount)
    {
      var startFrag := 0;
      if fragments[|fragments| - 1].rowCount < fragmentSize {
        MergeIntoLast(news[0]);
        startFrag := 1;
      }
      CopyFragments(news[startFrag..]);
      assert news[0..] == news;
    }

    method MergeColumns(more: seq<seq<Chunk>>)
      requires |more| == |colData|
      modifies this`colData
      ensures colData == Extended(old(colData), more)
    {
      for i := 0 to |colData|
        invariant |colData| == |more|
        invariant forall c :: 0 <= c < i ==> colData[c] == old(colData)[c] + more[c]
        invariant forall c :: i <= c < |colData| ==> colData[c] == old(colData)[c]
      {
        colData := colData[i := colData[i] + more[i]];
      }
    }

    // The last fragment takes in the first new one.
    method MergeIntoLast(first: Fragment)
      requires fragments != [] && |fragments[|fragments| - 1].metadata| == |first.metadata| == |types|
      modifies this`fragments
      ensures fragments == old(fragments)[..|old(fragments)| - 1]
                           + [MergedFragment(types, old(fragments)[|old(fragments)| - 1], first)]
    {
      var k := |fragments| - 1;
      var last := fragments[k];
      var metadata := MergeMetadata(types, last.metadata, first.metadata);
      fragments := fragments[k := Fragment(last.offset, last.rowCount + first.rowCount, metadata)];
      assert fragments[..k] == old(fragments)[..k];
      assert fragments == fragments[..k] + [fragments[k]];
    }

    // The other new fragments follow, at offsets past the rows there are.
    method CopyFragments(news: seq<Fragment>)
      modifies this`fragments
      ensures fragments == old(fragments) + Shifted(news, rowCount)
    {
      for i := 0 to |news|
        invariant fragments == old(fragments) + Shifted(news, rowCount)[..i]
      {
        fragments := fragments + [news[i].(offset := news[i].offset + rowCount)];
      }
    }

    // The table holds no row: the new columns and fragments take the place of what there is.
    method ReplaceFragments(more: seq<seq<Chunk>>, n: nat, first: nat, news: seq<Fragment>)
      requires Valid() && rowCount == 0
      requires Typed(types, more) && AllFit(types, DataOf(types, more), n)
      requires first == FirstFragSize(fragmentSize, fragments, n) && Pieces(fragmentSize, n, first, news)
      requires AllAgree(types, DataOf(types, more), news)
      modifies this
      ensures Valid() && rowCount == n
      ensures Contents() == Extended(old(Contents()), DataOf(types, more))
    {
      FirstAppendConsistent(fragmentSize, types, more, n, first, news);
      NoRows();
      ExtendNothing(Contents(), DataOf(types, more));
      colData, fragments, rowCount := more, news, n;
    }

    lemma NoRows()
      requires Valid() && rowCount == 0
      ensures forall c :: 0 <= c < |types| ==> Contents()[c] == []
    {
      if colData != [] {
        forall c | 0 <= c < |types|
          ensures Contents()[c] == []
        {
          assert FitsColumn(types[c], DataOf(types, colData)[c], 0);
        }
      }
    }

    // -------------------------------------------------------------------------
    // Fetching
    // -------------------------------------------------------------------------

    /** The rows of a fragment's column. */
    ghost function FragmentCells(fragIdx: nat, colIdx: nat): seq<Cell>
      requires Valid() && fragIdx < |fragments| && colIdx < |types|
      reads this
    {
      CellsOfFragment(fragIdx, colIdx);
      Contents()[colIdx][fragments[fragIdx].offset..fragments[fragIdx].offset + fragments[fragIdx].rowCount]
    }

    lemma CellsOfFragment(fragIdx: nat, colIdx: nat)
      requires Valid() && fragIdx < |fragments| && colIdx < |types|
      ensures colData != [] && Contents()[colIdx] == Cells(colData[colIdx]) && |Contents()[colIdx]| == rowCount
      ensures fragments[fragIdx].offset + fragments[fragIdx].rowCount <= rowCount
      ensures |fragments[fragIdx].metadata| == |types|
      ensures AgreesAt(types[colIdx], Contents()[colIdx], fragments[fragIdx], colIdx)
    {
      TilesWithin(fragmentSize, fragments, rowCount, fragIdx);
      assert FitsColumn(types[colIdx], DataOf(types, colData)[colIdx], rowCount);
      assert Agrees(types, DataOf(types, colData), fragments[fragIdx]);
    }

    // `n` rows of a column from the start of a fragment on; with the fragment's row count,
    // its rows.
    ghost function RowsFrom(fragIdx: nat, colIdx: nat, n: nat): (cells: seq<Cell>)
      requires Valid() && fragIdx < |fragments| && colIdx < |types| && fragments[fragIdx].offset + n <= rowCount
      reads this
      ensures n == fragments[fragIdx].rowCount ==> cells == FragmentCells(fragIdx, colIdx)
    {
      CellsOfFragment(fragIdx, colIdx);
      Contents()[colIdx][fragments[fragIdx].offset..fragments[fragIdx].offset + n]
    }

    /** fetchFixedLenData: chunk after chunk, exactly the values of the rows the byte count
        stands for, from the start of the fragment on. */
    method FetchFixedLenData(fragIdx: nat, colIdx: nat, dest: array<int>, numBytes: nat)
      requires Valid() && fragIdx < |fragments| && colIdx < |types| && types[colIdx].IntColumn?
      requires types[colIdx].t.size > 0
      requires dest.Length == RowsToFetch(numBytes, types[colIdx].t.size, fragments[fragIdx].rowCount)
      requires fragments[fragIdx].offset + dest.Length <= rowCount
      modifies dest
      ensures dest[..] == Values(old(RowsFrom(fragIdx, colIdx, dest.Length)))
    {
      CellsOfFragment(fragIdx, colIdx);
      var frag := fragments[fragIdx];
      var rowsToFetch := RowsToFetch(numBytes, types[colIdx].t.size, frag.rowCount);
      SliceCells(colData[colIdx], frag.offset, rowsToFetch);
      SliceOfType(types[colIdx], colData[colIdx], frag.offset, rowsToFetch);
      CopyChunks(Slice(colData[colIdx], frag.offset, rowsToFetch), dest);
    }

    /** getZeroCopyBufferMemory: a token exposes what the copying fetch would write; it is
        given for every integer column that is one chunk, and never for text. */
    method GetZeroCopyBufferMemory(fragIdx: nat, colIdx: nat, numBytes: nat) returns (token: Token)
      requires Valid() && fragIdx < |fragments| && colIdx < |types|
      requires types[colIdx].IntColumn? ==>
        && types[colIdx].t.size > 0
        && fragments[fragIdx].offset
           + RowsToFetch(numBytes, types[colIdx].t.size, fragments[fragIdx].rowCount) <= rowCount
      ensures types[colIdx].TextColumn? ==> token.NoToken?
      ensures token.Exposes? && types[colIdx].IntColumn? ==>
        var n := RowsToFetch(numBytes, types[colIdx].t.size, fragments[fragIdx].rowCount);
        token.values == Values(RowsFrom(fragIdx, colIdx, n))
      ensures types[colIdx].IntColumn? && |colData[colIdx]| == 1 ==> token.Exposes?
    {
      CellsOfFragment(fragIdx, colIdx);
      token := NoToken;
      if types[colIdx].IntColumn? {
        var frag := fragments[fragIdx];
        var rowsToFetch := RowsToFetch(numBytes, types[colIdx].t.size, frag.rowCount);
        var dataToFetch := Slice(colData[colIdx], frag.offset, rowsToFetch);
        SliceCells(colData[colIdx], frag.offset, rowsToFetch);
        SliceOfType(types[colIdx], colData[colIdx], frag.offset, rowsToFetch);
        if |colData[colIdx]| == 1 { OneChunk(colData[colIdx], frag.offset, rowsToFetch); }
        if |dataToFetch| == 1 {
          SingleChunk(dataToFetch);
          token := Exposes(dataToFetch[0].values);
        }
      }
    }

    /** The byte count in the metadata of a text column is that of the fragment's rows. */
    lemma TextOfFragment(fragIdx: nat, colIdx: nat)
      requires Valid() && fragIdx < |fragments| && colIdx < |types| && types[colIdx].TextColumn?
      ensures colIdx < |colData| && OfType(TextColumn, colData[colIdx])
      ensures colIdx < |fragments[fragIdx].metadata|
      ensures var frag := fragments[fragIdx];
              && frag.offset + frag.rowCount <= |Cells(colData[colIdx])|
              && FragmentCells(fragIdx, colIdx) == Cells(colData[colIdx])[frag.offset..frag.offset + frag.rowCount]
              && frag.metadata[colIdx].numBytes == TextFetch.TextLength(FragmentCells(fragIdx, colIdx))
    {
      CellsOfFragment(fragIdx, colIdx);
    }

    /** fetchVarLenOffsets: the offsets of the fragment's strings.  Together with the bytes
        they are the only two buffers that spell those strings (SpellingUnique). */
    method FetchVarLenOffsets(fragIdx: nat, colIdx: nat, dest: array<int>)
      requires Valid() && fragIdx < |fragments| && colIdx < |types| && types[colIdx].TextColumn?
      requires TextFetch.TextLength(FragmentCells(fragIdx, colIdx)) < TextFetch.TWO_TO_THE_32
      requires dest.Length == fragments[fragIdx].rowCount + 1
      modifies dest
      ensures dest[..] == TextFetch.Offsets(old(FragmentCells(fragIdx, colIdx)))
    {
      TextOfFragment(fragIdx, colIdx);
      var frag := fragments[fragIdx];
      FetchOffsetsOf(colData[colIdx], frag.offset, frag.rowCount, dest, FragmentCells(fragIdx, colIdx));
    }

    /** fetchVarLenData, for the byte count kept in the metadata (TextOfFragment): the
        fragment's strings side by side. */
    method FetchVarLenData(fragIdx: nat, colIdx: nat, numBytes: nat, dest: array<char>)
      requires Valid() && fragIdx < |fragments| && colIdx < |types| && types[colIdx].TextColumn?
      requires dest.Length == numBytes == TextFetch.TextLength(FragmentCells(fragIdx, colIdx))
      modifies dest
      ensures dest[..] == TextFetch.TextBytes(old(FragmentCells(fragIdx, colIdx)))
    {
      TextOfFragment(fragIdx, colIdx);
      var frag := fragments[fragIdx];
      FetchBytesOf(colData[colIdx], frag.offset, frag.rowCount, numBytes, dest, FragmentCells(fragIdx, colIdx));
    }
  }

  // ---------------------------------------------------------------------------
  // Runs of appends
  // ---------------------------------------------------------------------------

  // The rows of the accepted tables, one after another.
  ghost function Imported(types: seq<ColumnType>, ats: seq<ArrowTable>): (data: seq<seq<Cell>>)
    requires forall i :: 0 <= i < |ats| ==> ValidTable(ats[i])
    ensures |data| == |types|
  {
    if ats == [] then seq(|types|, _ => [])
    else
      var before, at := Imported(types, ats[..|ats| - 1]), ats[|ats| - 1];
      assert ValidTable(at);
      if at.schema == types then Extended(before, DataOf(types, at.columns)) else before
  }

  /** Any run of appends to a new table: it holds the rows of the accepted tables in order,
      and fetching all fragments in order returns them. */
  method ImportAll(fragmentSize: nat, types: seq<ColumnType>, ats: seq<ArrowTable>) returns (table: TableData)
    requires fragmentSize > 0 && types != []
    requires forall i :: 0 <= i < |ats| ==> ValidTable(ats[i])
    requires forall i :: 0 <= i < |ats| ==> (TextColumn in ats[i].schema ==> ats[i].numRows > 0)
    ensures fresh(table) && table.Valid() && table.types == types && table.fragmentSize == fragmentSize
    ensures table.Contents() == Imported(types, ats)
    ensures forall c, f :: 0 <= c < |types| && 0 <= f < |table.fragments| ==>
      table.fragments[f].offset + table.fragments[f].rowCount <= |table.Contents()[c]|
    ensures forall c :: 0 <= c < |types| ==> RowsOf(table.fragments, table.Contents()[c]) == Imported(types, ats)[c]
  {
    table := new TableData(fragmentSize, types);
    for i := 0 to |ats|
      invariant fresh(table) && table.Valid() && table.types == types && table.fragmentSize == fragmentSize
      invariant table.Contents() == Imported(types, ats[..i])
    {
      assert ats[..i + 1][..i] == ats[..i];
      var _ := table.AppendArrowTable(ats[i]);
    }
    assert ats[..|ats|] == ats;
    FragmentsGiveContents(table);
  }

  lemma {:induction false} FragmentsGiveContents(table: TableData)
    requires table.Valid()
    ensures forall c, f :: 0 <= c < |table.types| && 0 <= f < |table.fragments| ==>
      table.fragments[f].offset + table.fragments[f].rowCount <= |table.Contents()[c]|
    ensures forall c :: 0 <= c < |table.types| ==> RowsOf(table.fragments, table.Contents()[c]) == table.Contents()[c]
  {
    forall c, f | 0 <= c < |table.types| && 0 <= f < |table.fragments|
      ensures table.fragments[f].offset + table.fragments[f].rowCount <= |table.Contents()[c]|
    {
      table.CellsOfFragment(f, c);
    }
    forall c | 0 <= c < |table.types|
      ensures RowsOf(table.fragments, table.Contents()[c]) == table.Contents()[c]
    {
      if table.fragments != [] {
        table.CellsOfFragment(0, c);
        FragmentsCoverTable(table.fragmentSize, table.fragments, table.Contents()[c]);
      }
    }
  }
}
