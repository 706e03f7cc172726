/** Appending fragments to a table: the result tiles the longer table and its metadata still
    agrees with the rows. */
module FragmentMerging {
  import opened ArrowColumns
  import opened Basics
  import opened Fragments
  import ChunkStatistics

  // ---------------------------------------------------------------------------
  // The fragments of the appended rows
  // ---------------------------------------------------------------------------

  ghost predicate IsPiece(size: nat, n: nat, first: nat, frag: Fragment, i: nat)
    requires size > 0 && first <= n && i < FragCount(size, n, first)
  {
    frag.offset == FragOffset(size, first, i) && frag.rowCount == FragRows(size, n, first, i)
  }

  ghost predicate Pieces(size: nat, n: nat, first: nat, news: seq<Fragment>)
    requires size > 0 && first <= n
  {
    && |news| == FragCount(size, n, first)
    && forall i :: 0 <= i < |news| ==> IsPiece(size, n, first, news[i], i)
  }

  /** Where a piece ends: where the next one starts, or at the last appended row. */
  lemma {:induction false} PieceEnds(size: nat, n: nat, first: nat, news: seq<Fragment>, i: nat)
    requires size > 0 && first <= n && Pieces(size, n, first, news) && i < |news|
    ensures i + 1 < |news| ==> news[i + 1].offset == news[i].offset + news[i].rowCount
    ensures i + 1 < |news| && i > 0 ==> news[i].rowCount == size
    ensures i + 1 == |news| ==> news[i].offset + news[i].rowCount == n
    ensures news[i].rowCount <= size || i == 0
  {
  }

  lemma OnePiece(size: nat, n: nat, first: nat)
    requires size > 0 && first <= n
    ensures FragCount(size, n, first) == 1 <==> first == n
  {
  }

  // ---------------------------------------------------------------------------
  // The joined list
  // ---------------------------------------------------------------------------

  function Shifted(news: seq<Fragment>, rows: nat): (s: seq<Fragment>)
    ensures |s| == |news|
  {
    seq(|news|, i requires 0 <= i < |news| => news[i].(offset := news[i].offset + rows))
  }

  function MergedMeta(types: seq<ColumnType>, a: seq<Metadata>, b: seq<Metadata>): (m: seq<Metadata>)
    requires |a| == |b| == |types|
    ensures |m| == |types|
  {
    seq(|types|, c requires 0 <= c < |types| => MergeMeta(types[c], a[c], b[c]))
  }

  function MergedFragment(types: seq<ColumnType>, last: Fragment, first: Fragment): Fragment
    requires |last.metadata| == |first.metadata| == |types|
  {
    Fragment(last.offset, last.rowCount + first.rowCount, MergedMeta(types, last.metadata, first.metadata))
  }

  // The fragments once the last one took in the first new one, if it had room.
  function Joined(size: nat, types: seq<ColumnType>, frags: seq<Fragment>, news: seq<Fragment>,
                  rows: nat): seq<Fragment>
    requires frags != [] && news != []
    requires |frags[|frags| - 1].metadata| == |news[0].metadata| == |types|
  {
    var last := frags[|frags| - 1];
    if last.rowCount < size
    then frags[..|frags| - 1] + [MergedFragment(types, last, news[0])] + Shifted(news[1..], rows)
    else frags + Shifted(news, rows)
  }

  /** The joined list tiles the longer table. */
  lemma {:induction false} JoinedTiles(size: nat, types: seq<ColumnType>, frags: seq<Fragment>, rows: nat,
                                       news: seq<Fragment>, n: nat, first: nat)
    requires size > 0 && Tiles(size, frags, rows) && frags != []
    requires first == FirstFragSize(size, frags, n) && Pieces(size, n, first, news)
    requires |frags[|frags| - 1].metadata| == |news[0].metadata| == |types|
    ensures Tiles(size, Joined(size, types, frags, news, rows), rows + n)
  {
    var k, last := |frags| - 1, frags[|frags| - 1];
    assert IsPiece(size, n, first, news[0], 0);
    OnePiece(size, n, first);
    if last.rowCount < size {
      var merged := MergedFragment(types, last, news[0]);
      var head := frags[..k] + [merged];
      HeadTiles(size, frags, rows, merged, first);
      TilesThenPieces(size, head, rows + first, news, n, first, rows);
    } else {
      assert Shifted(news, rows)[0].offset == rows;
      assert FullBefore(size, frags + [Shifted(news, rows)[0]], k);
      AddFirst(size, frags, rows, Shifted(news, rows)[0]);
      TilesThenPieces(size, frags + [Shifted(news, rows)[0]], rows + first, news, n, first, rows);
      assert Shifted(news, rows) == [Shifted(news, rows)[0]] + Shifted(news[1..], rows);
      assert frags + Shifted(news, rows) == frags + [Shifted(news, rows)[0]] + Shifted(news[1..], rows);
    }
  }

  lemma HeadTiles(size: nat, frags: seq<Fragment>, rows: nat, merged: Fragment, first: nat)
    requires Tiles(size, frags, rows) && frags != []
    requires merged.offset == frags[|frags| - 1].offset
    requires merged.rowCount == frags[|frags| - 1].rowCount + first <= size
    ensures Tiles(size, frags[..|frags| - 1] + [merged], rows + first)
  {
    var head := frags[..|frags| - 1] + [merged];
    forall i | 0 <= i < |head| - 1
      ensures FullBefore(size, head, i)
    {
      assert FullBefore(size, frags, i);
    }
  }

  lemma AddFirst(size: nat, frags: seq<Fragment>, rows: nat, frag: Fragment)
    requires Tiles(size, frags, rows) && frags != [] && frags[|frags| - 1].rowCount == size
    requires frag.offset == rows && frag.rowCount <= size
    ensures Tiles(size, frags + [frag], rows + frag.rowCount)
  {
    var head := frags + [frag];
    forall i | 0 <= i < |head| - 1
      ensures FullBefore(size, head, i)
    {
      if i < |frags| - 1 { assert FullBefore(size, frags, i); }
    }
  }

  // `head` holds the rows up to and including the first piece.
  lemma {:induction false} TilesThenPieces(size: nat, head: seq<Fragment>, upTo: nat, news: seq<Fragment>,
                                           n: nat, first: nat, rows: nat)
    requires size > 0 && first <= n && Pieces(size, n, first, news) && upTo == rows + first
    requires Tiles(size, head, upTo) && head != []
    requires |news| > 1 ==> head[|head| - 1].rowCount == size
    ensures Tiles(size, head + Shifted(news[1..], rows), rows + n)
  {
    var tail := Shifted(news[1..], rows);
    var all := head + tail;
    forall i | 0 <= i < |all| - 1
      ensures FullBefore(size, all, i)
    {
      if i < |head| - 1 {
        assert FullBefore(size, head, i);
      } else {
        PieceEnds(size, n, first, news, i - (|head| - 1));
        assert IsPiece(size, n, first, news[0], 0);
      }
    }
    PieceEnds(size, n, first, news, |news| - 1);
    assert |news| == 1 ==> all == head;
    assert |news| == 1 ==> IsPiece(size, n, first, news[0], 0);
  }

  // ---------------------------------------------------------------------------
  // Metadata
  // ---------------------------------------------------------------------------

  ghost predicate AgreesAt(ty: ColumnType, cells: seq<Cell>, frag: Fragment, c: nat)
    requires c < |frag.metadata|
  {
    && frag.offset + frag.rowCount <= |cells|
    && frag.metadata[c] == MetaOf(ty, cells[frag.offset..frag.offset + frag.rowCount])
  }

  /** The metadata of a fragment is what a scan of its rows gives, for every column. */
  ghost predicate Agrees(types: seq<ColumnType>, data: seq<seq<Cell>>, frag: Fragment)
    requires |data| == |types|
  {
    |frag.metadata| == |types|
    && forall c {:trigger AgreesAt(types[c], data[c], frag, c)} :: 0 <= c < |types| ==>
         AgreesAt(types[c], data[c], frag, c)
  }

  ghost predicate AllAgree(types: seq<ColumnType>, data: seq<seq<Cell>>, frags: seq<Fragment>)
    requires |data| == |types|
  {
    forall f {:trigger Agrees(types, data, frags[f])} :: 0 <= f < |frags| ==> Agrees(types, data, frags[f])
  }

  ghost predicate AllFit(types: seq<ColumnType>, data: seq<seq<Cell>>, rows: nat)
    requires |data| == |types|
  {
    forall c {:trigger FitsColumn(types[c], data[c], rows)} :: 0 <= c < |types| ==> FitsColumn(types[c], data[c], rows)
  }

  ghost predicate FitsColumn(ty: ColumnType, cells: seq<Cell>, rows: nat) { |cells| == rows && Fits(ty, cells) }

  lemma SliceFits(ty: ColumnType, cells: seq<Cell>, lo: nat, hi: nat)
    requires Fits(ty, cells) && lo <= hi <= |cells|
    ensures Fits(ty, cells[lo..hi])
  {
    assert Values(cells[lo..hi]) == Values(cells)[lo..hi];
  }

  lemma SumFits(ty: ColumnType, a: seq<Cell>, b: seq<Cell>)
    requires Fits(ty, a) && Fits(ty, b)
    ensures Fits(ty, a + b)
  {
    assert Values(a + b) == Values(a) + Values(b);
  }

  lemma {:induction false} ExtendedFits(types: seq<ColumnType>, data: seq<seq<Cell>>, more: seq<seq<Cell>>,
                                        rows: nat, n: nat)
    requires |data| == |more| == |types| && AllFit(types, data, rows) && AllFit(types, more, n)
    ensures AllFit(types, Extended(data, more), rows + n)
  {
    forall c | 0 <= c < |types|
      ensures FitsColumn(types[c], Extended(data, more)[c], rows + n)
    {
      assert FitsColumn(types[c], data[c], rows) && FitsColumn(types[c], more[c], n);
      SumFits(types[c], data[c], more[c]);
    }
  }

  lemma {:induction false} OldStillAgrees(types: seq<ColumnType>, data: seq<seq<Cell>>, more: seq<seq<Cell>>,
                                          frag: Fragment)
    requires |data| == |more| == |types| && Agrees(types, data, frag)
    ensures Agrees(types, Extended(data, more), frag)
  {
    forall c | 0 <= c < |types|
      ensures AgreesAt(types[c], Extended(data, more)[c], frag, c)
    {
      assert AgreesAt(types[c], data[c], frag, c);
      var lo, hi := frag.offset, frag.offset + frag.rowCount;
      assert (data[c] + more[c])[lo..hi] == data[c][lo..hi];
    }
  }

  lemma {:induction false} ShiftedAgrees(types: seq<ColumnType>, data: seq<seq<Cell>>, more: seq<seq<Cell>>,
                                         rows: nat, frag: Fragment)
    requires |data| == |more| == |types| && AllFit(types, data, rows) && Agrees(types, more, frag)
    ensures Agrees(types, Extended(data, more), frag.(offset := frag.offset + rows))
  {
    forall c | 0 <= c < |types|
      ensures AgreesAt(types[c], Extended(data, more)[c], frag.(offset := frag.offset + rows), c)
    {
      assert FitsColumn(types[c], data[c], rows);
      assert AgreesAt(types[c], more[c], frag, c);
      var lo, hi := frag.offset, frag.offset + frag.rowCount;
      assert (data[c] + more[c])[rows + lo..rows + hi] == more[c][lo..hi];
    }
  }

  lemma {:induction false} MergedAgrees(types: seq<ColumnType>, data: seq<seq<Cell>>, more: seq<seq<Cell>>, rows: nat,
                                        last: Fragment, first: Fragment)
    requires |data| == |more| == |types| && AllFit(types, data, rows)
    requires Agrees(types, data, last) && Agrees(types, more, first)
    requires last.offset + last.rowCount == rows && first.offset == 0
    ensures Agrees(types, Extended(data, more), MergedFragment(types, last, first))
  {
    var merged := MergedFragment(types, last, first);
    forall c | 0 <= c < |types|
      ensures AgreesAt(types[c], Extended(data, more)[c], merged, c)
    {
      assert FitsColumn(types[c], data[c], rows);
      assert AgreesAt(types[c], data[c], last, c) && AgreesAt(types[c], more[c], first, c);
      MergedAgreesAt(types[c], data[c], more[c], rows, last, first, c, merged);
    }
  }

  lemma {:induction false} MergedAgreesAt(ty: ColumnType, cells: seq<Cell>, more: seq<Cell>, rows: nat,
                                          last: Fragment, first: Fragment, c: nat, merged: Fragment)
    requires FitsColumn(ty, cells, rows) && c < |last.metadata| && c < |first.metadata| && c < |merged.metadata|
    requires AgreesAt(ty, cells, last, c) && AgreesAt(ty, more, first, c)
    requires last.offset + last.rowCount == rows && first.offset == 0
    requires merged.offset == last.offset && merged.rowCount == last.rowCount + first.rowCount
    requires merged.metadata[c] == MergeMeta(ty, last.metadata[c], first.metadata[c])
    ensures AgreesAt(ty, cells + more, merged, c)
  {
    var a, b := cells[last.offset..rows], more[0..first.rowCount];
    SliceFits(ty, cells, last.offset, rows);
    MergeMetaIsConcatenation(ty, a, b);
    assert (cells + more)[last.offset..rows + first.rowCount] == a + b;
  }

  // Where an element of the joined list comes from.
  lemma JoinedAt(size: nat, types: seq<ColumnType>, frags: seq<Fragment>, news: seq<Fragment>, rows: nat, f: nat)
    returns (g: nat)
    requires frags != [] && news != []
    requires |frags[|frags| - 1].metadata| == |news[0].metadata| == |types|
    requires f < |Joined(size, types, frags, news, rows)|
    ensures f >= |frags| ==> g < |news|
    ensures var joined := Joined(size, types, frags, news, rows);
            || joined[f] == MergedFragment(types, frags[|frags| - 1], news[0])
            || (f < |frags| && joined[f] == frags[f])
            || (f >= |frags| && joined[f] == news[g].(offset := news[g].offset + rows))
  {
    g := if f < |frags| then 0 else if frags[|frags| - 1].rowCount < size then f - |frags| + 1 else f - |frags|;
  }

  lemma {:induction false} AgreesByOrigin(types: seq<ColumnType>, data: seq<seq<Cell>>, more: seq<seq<Cell>>, rows: nat,
                                          last: Fragment, first: Fragment, before: Fragment, after: Fragment,
                                          frag: Fragment)
    requires |data| == |more| == |types| && AllFit(types, data, rows)
    requires Agrees(types, data, last) && Agrees(types, more, first)
    requires last.offset + last.rowCount == rows && first.offset == 0
    requires Agrees(types, data, before) && Agrees(types, more, after)
    requires || frag == MergedFragment(types, last, first)
             || frag == before
             || frag == after.(offset := after.offset + rows)
    ensures Agrees(types, Extended(data, more), frag)
  {
    if frag == MergedFragment(types, last, first) {
      MergedAgrees(types, data, more, rows, last, first);
    } else if frag == before {
      OldStillAgrees(types, data, more, before);
    } else {
      ShiftedAgrees(types, data, more, rows, after);
    }
  }

  /** The metadata of the joined list agrees with the longer table. */
  lemma {:induction false} JoinedAgrees(size: nat, types: seq<ColumnType>, data: seq<seq<Cell>>, frags: seq<Fragment>,
                                        rows: nat, more: seq<seq<Cell>>, news: seq<Fragment>)
    requires |data| == |more| == |types| && AllFit(types, data, rows)
    requires frags != [] && news != [] && AllAgree(types, data, frags) && AllAgree(types, more, news)
    requires frags[|frags| - 1].offset + frags[|frags| - 1].rowCount == rows && news[0].offset == 0
    ensures Agrees(types, data, frags[|frags| - 1]) && Agrees(types, more, news[0])
    ensures AllAgree(types, Extended(data, more), Joined(size, types, frags, news, rows))
  {
    assert Agrees(types, data, frags[|frags| - 1]) && Agrees(types, more, news[0]);
    var joined, data' := Joined(size, types, frags, news, rows), Extended(data, more);
    forall f | 0 <= f < |joined|
      ensures Agrees(types, data', joined[f])
    {
      var g := JoinedAt(size, types, frags, news, rows, f);
      var before := if f < |frags| then frags[f] else frags[0];
      var after := if f < |frags| then news[0] else news[g];
      AgreesByOrigin(types, data, more, rows, frags[|frags| - 1], news[0], before, after, joined[f]);
    }
  }

  /** What agreeing metadata says about the rows of an integer column: the exact extremes of
      the non-null values, whether a NULL occurs, and the counts. */
  lemma {:induction false} AgreementDescribes(t: ChunkStatistics.IntType, cells: seq<Cell>, frag: Fragment, c: nat)
    requires c < |frag.metadata| && Fits(IntColumn(t), cells) && AgreesAt(IntColumn(t), cells, frag, c)
    ensures ChunkStatistics.Describes(frag.metadata[c].stats,
                                      Values(cells[frag.offset..frag.offset + frag.rowCount]), t, false)
    ensures frag.metadata[c].numElements == frag.rowCount && frag.metadata[c].numBytes == frag.rowCount * t.size
  {
    var lo, hi := frag.offset, frag.offset + frag.rowCount;
    SliceFits(IntColumn(t), cells, lo, hi);
    ChunkStatistics.ScanDescribes(Values(cells[lo..hi]), t, false);
  }

  // ---------------------------------------------------------------------------
  // The fragments depend on the rows only
  // ---------------------------------------------------------------------------

  /** Two tables with the same rows have the same fragments, however the rows arrived, once
      neither ends in an empty fragment. */
  lemma {:induction false} FragmentsDetermined(size: nat, types: seq<ColumnType>, data: seq<seq<Cell>>, rows: nat,
                                               a: seq<Fragment>, b: seq<Fragment>)
    requires size > 0 && |data| == |types|
    requires Tiles(size, a, rows) && Tiles(size, b, rows) && AllAgree(types, data, a) && AllAgree(types, data, b)
    requires a != [] ==> a[|a| - 1].rowCount > 0
    requires b != [] ==> b[|b| - 1].rowCount > 0
    ensures a == b
  {
    forall i | 0 <= i < |a| && i < |b|
      ensures a[i].offset == b[i].offset
    {
      SameOffsets(size, a, rows, b, i);
    }
    SameCount(size, a, rows, b);
    SameCount(size, b, rows, a);
    forall i | 0 <= i < |a|
      ensures a[i] == b[i]
    {
      if i < |a| - 1 { assert FullBefore(size, a, i) && FullBefore(size, b, i); }
      assert Agrees(types, data, a[i]) && Agrees(types, data, b[i]);
      SameMetadata(types, data, a[i], b[i]);
    }
  }

  lemma {:induction false} SameOffsets(size: nat, a: seq<Fragment>, rows: nat, b: seq<Fragment>, i: nat)
    requires Tiles(size, a, rows) && Tiles(size, b, rows) && i < |a| && i < |b|
    ensures a[i].offset == b[i].offset
  {
    if i > 0 {
      assert FullBefore(size, a, i - 1) && FullBefore(size, b, i - 1);
      SameOffsets(size, a, rows, b, i - 1);
    }
  }

  lemma {:induction false} SameCount(size: nat, a: seq<Fragment>, rows: nat, b: seq<Fragment>)
    requires Tiles(size, a, rows) && Tiles(size, b, rows)
    requires a != [] ==> a[|a| - 1].rowCount > 0
    requires b != [] ==> b[|b| - 1].rowCount > 0
    ensures |a| <= |b|
  {
    if |b| < |a| {
      if b != [] {
        var k := |b| - 1;
        SameOffsets(size, a, rows, b, k);
        assert FullBefore(size, a, k);
        TilesWithin(size, a, rows, k + 1);
        PositiveCount(size, a, rows, k + 1);
      }
    }
  }

  lemma PositiveCount(size: nat, a: seq<Fragment>, rows: nat, i: nat)
    requires Tiles(size, a, rows) && i < |a| && a[|a| - 1].rowCount > 0
    ensures a[i].rowCount > 0
  {
    if i < |a| - 1 {
      assert FullBefore(size, a, i);
      TilesWithin(size, a, rows, |a| - 1);
    }
  }

  lemma SameMetadata(types: seq<ColumnType>, data: seq<seq<Cell>>, a: Fragment, b: Fragment)
    requires |data| == |types| && Agrees(types, data, a) && Agrees(types, data, b)
    requires a.offset == b.offset && a.rowCount == b.rowCount
    ensures a == b
  {
    forall c | 0 <= c < |types|
      ensures a.metadata[c] == b.metadata[c]
    {
      assert AgreesAt(types[c], data[c], a, c) && AgreesAt(types[c], data[c], b, c);
    }
  }
}
