/** Fragments of a table: where they lie, what their metadata says, and how an append
    changes them (ArrowStorage.cpp). */
module Fragments {
  import opened ArrowColumns
  import opened Basics
  import opened ChunkStatistics
  import TextFetch

  // Integer, boolean, decimal, time and timestamp columns are integers of some width.
  datatype ColumnType = IntColumn(t: IntType) | TextColumn

  datatype Metadata = Metadata(numElements: nat, numBytes: nat, stats: Stats)

  datatype Fragment = Fragment(offset: nat, rowCount: nat, metadata: seq<Metadata>)

  function Values(cells: seq<Cell>): (vs: seq<int>)
    ensures |vs| == |cells|
  {
    seq(|cells|, i requires 0 <= i < |cells| => if cells[i].Int? then cells[i].value else 0)
  }

  predicate IsNull(c: Cell) { c.Str? && !c.valid }

  predicate HasNull(cells: seq<Cell>) { exists i :: 0 <= i < |cells| && IsNull(cells[i]) }

  // What a column of the type may hold.
  predicate Fits(ty: ColumnType, cells: seq<Cell>) {
    match ty
    case IntColumn(t) => InRange(Values(cells), t)
    case TextColumn => true
  }

  /** The metadata a scan of the rows gives.  A text column has no minimum or maximum. */
  function MetaOf(ty: ColumnType, cells: seq<Cell>): Metadata {
    match ty
    case IntColumn(t) => Metadata(|cells|, |cells| * t.size, Scan(Fresh(t), Values(cells), t, false))
    case TextColumn => Metadata(|cells|, TextFetch.TextLength(cells), Stats(0, 0, HasNull(cells)))
  }

  // How appendArrowTable joins the metadata of two pieces of a fragment.
  function MergeMeta(ty: ColumnType, a: Metadata, b: Metadata): Metadata {
    Metadata(a.numElements + b.numElements, a.numBytes + b.numBytes,
             if ty.TextColumn? then a.stats.(hasNulls := a.stats.hasNulls || b.stats.hasNulls)
             else Merge(a.stats, b.stats))
  }

  /** Merging metadata is scanning the concatenation. */
  lemma {:induction false} MergeMetaIsConcatenation(ty: ColumnType, a: seq<Cell>, b: seq<Cell>)
    requires Fits(ty, a)
    ensures MetaOf(ty, a + b) == MergeMeta(ty, MetaOf(ty, a), MetaOf(ty, b))
  {
    match ty
    case IntColumn(t) =>
      assert Values(a + b) == Values(a) + Values(b);
      MergeIsConcatenation(Values(a), Values(b), t, false);
      Distribute(|a|, |b|, t.size);
    case TextColumn =>
      TextFetch.TextAppend(a, b);
      NullsOfSum(a, b);
  }

  lemma Distribute(a: nat, b: nat, size: nat)
    ensures (a + b) * size == a * size + b * size
  {
  }

  lemma NullsOfSum(a: seq<Cell>, b: seq<Cell>)
    ensures HasNull(a + b) <==> HasNull(a) || HasNull(b)
  {
    if HasNull(a) {
      var i :| 0 <= i < |a| && IsNull(a[i]);
      assert IsNull((a + b)[i]);
    }
    if HasNull(b) {
      var i :| 0 <= i < |b| && IsNull(b[i]);
      assert IsNull((a + b)[|a| + i]);
    }
  }

  // ---------------------------------------------------------------------------
  // Tiling
  // ---------------------------------------------------------------------------

  /** Contiguous from zero to `rows`, every fragment but the last exactly full. */
  ghost predicate Tiles(size: nat, frags: seq<Fragment>, rows: nat) {
    && (frags == [] ==> rows == 0)
    && (frags != [] ==> frags[0].offset == 0 && Ends(frags[|frags| - 1], size, rows))
    && forall i :: 0 <= i < |frags| - 1 ==> FullBefore(size, frags, i)
  }

  predicate Ends(frag: Fragment, size: nat, rows: nat) {
    frag.rowCount <= size && frag.offset + frag.rowCount == rows
  }

  predicate FullBefore(size: nat, frags: seq<Fragment>, i: nat)
    requires i + 1 < |frags|
  {
    frags[i].rowCount == size && frags[i + 1].offset == frags[i].offset + size
  }

  /** Every fragment lies within the rows, and only the last may be short. */
  lemma {:induction false} TilesWithin(size: nat, frags: seq<Fragment>, rows: nat, i: nat)
    requires Tiles(size, frags, rows) && i < |frags|
    ensures frags[i].offset + frags[i].rowCount <= rows && frags[i].rowCount <= size
    decreases |frags| - i
  {
    if i < |frags| - 1 {
      assert FullBefore(size, frags, i);
      TilesWithin(size, frags, rows, i + 1);
    }
  }

  /** The rows of the fragments, one after another. */
  function RowsOf(frags: seq<Fragment>, data: seq<Cell>): seq<Cell>
    requires forall i :: 0 <= i < |frags| ==> frags[i].offset + frags[i].rowCount <= |data|
  {
    if frags == [] then []
    else
      var last := frags[|frags| - 1];
      RowsOf(frags[..|frags| - 1], data) + data[last.offset..last.offset + last.rowCount]
  }

  /** All fragments together are all rows, each once and in order. */
  lemma {:induction false} FragmentsCoverTable(size: nat, frags: seq<Fragment>, data: seq<Cell>)
    requires Tiles(size, frags, |data|)
    requires forall i :: 0 <= i < |frags| ==> frags[i].offset + frags[i].rowCount <= |data|
    ensures RowsOf(frags, data) == data
  {
    if frags != [] {
      RowsOfPrefix(size, frags, data, |frags| - 1);
      var last := frags[|frags| - 1];
      assert data[..last.offset] + data[last.offset..last.offset + last.rowCount] == data;
    }
  }

  lemma {:induction false} RowsOfPrefix(size: nat, frags: seq<Fragment>, data: seq<Cell>, k: nat)
    requires Tiles(size, frags, |data|) && k < |frags|
    requires forall i :: 0 <= i < |frags| ==> frags[i].offset + frags[i].rowCount <= |data|
    ensures RowsOf(frags[..k], data) == data[..frags[k].offset]
  {
    if k > 0 {
      var f := frags[k - 1];
      assert FullBefore(size, frags, k - 1);
      RowsOfPrefix(size, frags, data, k - 1);
      assert frags[..k][..k - 1] == frags[..k - 1];
      assert data[..f.offset] + data[f.offset..f.offset + f.rowCount] == data[..frags[k].offset];
    }
  }

  // ---------------------------------------------------------------------------
  // The sizes of new fragments
  // ---------------------------------------------------------------------------

  // first_frag_size: what still fits into the last fragment, if it is not full.
  function FirstFragSize(size: nat, frags: seq<Fragment>, n: nat): (first: nat)
    ensures first <= n && first <= size
  {
    var first := Min(size, n);
    if frags != [] && frags[|frags| - 1].rowCount < size
    then Min(first, size - frags[|frags| - 1].rowCount)
    else first
  }

  function FragCount(size: nat, n: nat, first: nat): (count: nat)
    requires size > 0 && first <= n
    ensures count >= 1
  {
    assert (n + size - 1 - first) / size >= 0 by { DivPositive(n + size - 1 - first, size); }
    (n + size - 1 - first) / size + 1
  }

  lemma DivPositive(a: nat, b: nat)
    requires b > 0
    ensures a / b >= 0
  {
  }

  function FragOffset(size: nat, first: nat, i: nat): nat {
    if i == 0 then 0 else (i - 1) * size + first
  }

  /** A new fragment starts inside the appended rows, so that the remaining row count does
      not underflow; only the last new fragment may be shorter than the fragment size. */
  lemma {:induction false} NewFragmentStarts(size: nat, n: nat, first: nat, i: nat)
    requires size > 0 && first <= n && 1 <= i < FragCount(size, n, first)
    ensures FragOffset(size, first, i) < n
    ensures i + 1 < FragCount(size, n, first) ==> FragOffset(size, first, i) + size < n
    ensures i + 1 == FragCount(size, n, first) ==> n <= FragOffset(size, first, i) + size
  {
    var rest := n - first;
    var q := (rest + size - 1) / size;
    CeilingBounds(rest, size, q);
    MulMono(i - 1, q - 1, size);
    if i + 1 < FragCount(size, n, first) {
      MulMono(i, q - 1, size);
      assert i * size == (i - 1) * size + size;
    }
  }

  lemma CeilingBounds(rest: nat, size: nat, q: int)
    requires size > 0 && q == (rest + size - 1) / size
    ensures q >= 0 && (q - 1) * size < rest <= q * size
  {
  }

  function FragRows(size: nat, n: nat, first: nat, i: nat): nat
    requires size > 0 && first <= n && i < FragCount(size, n, first)
  {
    if i == 0 then first
    else
      NewFragmentStarts(size, n, first, i);
      Min(size, n - FragOffset(size, first, i))
  }
}
