/** Chunk metadata as shared objects: an append updates them in place, and getTableMetadata
    hands them out (ArrowStorage.cpp). */
module SharedMetadata {
  import opened ArrowColumns
  import opened Fragments
  import opened FragmentMerging

  class ChunkMetadata {
    var meta: Metadata

    constructor (meta: Metadata)
      ensures this.meta == meta
    {
      this.meta := meta;
    }
  }

  datatype SharedFragment = SharedFragment(offset: nat, rowCount: nat, metadata: seq<ChunkMetadata>)

  // What a caller of getTableMetadata gets for a fragment: the row count is copied, the
  // metadata is shared.
  datatype FragmentInfo = FragmentInfo(numTuples: nat, metadata: seq<ChunkMetadata>)

  ghost predicate Distinct(metadata: seq<ChunkMetadata>) {
    forall c, d :: 0 <= c < d < |metadata| ==> metadata[c] != metadata[d]
  }

  ghost predicate Apart(a: seq<ChunkMetadata>, b: seq<ChunkMetadata>) {
    forall c :: 0 <= c < |a| ==> a[c] !in b
  }

  // No metadata object stands for two columns or two fragments.
  ghost predicate Unshared(frags: seq<SharedFragment>) {
    && (forall f :: 0 <= f < |frags| ==> Distinct(frags[f].metadata))
    && (forall f, g :: 0 <= f < g < |frags| ==> Apart(frags[f].metadata, frags[g].metadata))
  }

  // The metadata counts the rows of the fragment.
  ghost predicate CountsRows(frag: SharedFragment)
    reads frag.metadata
  {
    forall c :: 0 <= c < |frag.metadata| ==> frag.metadata[c].meta.numElements == frag.rowCount
  }

  /** The caller's row count and the metadata it holds fit together. */
  ghost predicate Coherent(info: FragmentInfo)
    reads info.metadata
  {
    forall c :: 0 <= c < |info.metadata| ==> info.metadata[c].meta.numElements == info.numTuples
  }

  // The fragment as a value.
  ghost function ValueOf(frag: SharedFragment): Fragment
    reads frag.metadata
  {
    Fragment(frag.offset, frag.rowCount,
             seq(|frag.metadata|, c requires 0 <= c < |frag.metadata| reads frag.metadata => frag.metadata[c].meta))
  }

  ghost function ObjectsOf(frags: seq<SharedFragment>): set<ChunkMetadata> {
    set f, c | 0 <= f < |frags| && 0 <= c < |frags[f].metadata| :: frags[f].metadata[c]
  }

  ghost function ValuesOf(frags: seq<SharedFragment>): (vs: seq<Fragment>)
    reads ObjectsOf(frags)
    ensures |vs| == |frags|
  {
    seq(|frags|, f requires 0 <= f < |frags| reads ObjectsOf(frags) => ValueOf(frags[f]))
  }

  // A new fragment, with metadata for every column that counts its rows.
  predicate Counted(frag: Fragment, columns: nat) {
    && |frag.metadata| == columns
    && forall c :: 0 <= c < columns ==> frag.metadata[c].numElements == frag.rowCount
  }

  // Columns of equal length: the rows of one append.
  predicate Rectangular(columns: nat, more: seq<seq<Cell>>) {
    |more| == columns && forall c :: 0 <= c < columns ==> |more[c]| == |more[0]|
  }

  function RowsIn(more: seq<seq<Cell>>): nat { if more == [] then 0 else |more[0]| }

  // A new fragment of appended rows, and what a scan of them says.
  function NewFragment(types: seq<ColumnType>, more: seq<seq<Cell>>, size: nat, first: nat, i: nat): (frag: Fragment)
    requires Rectangular(|types|, more) && size > 0 && first <= RowsIn(more)
    requires i < FragCount(size, RowsIn(more), first)
    ensures IsPiece(size, RowsIn(more), first, frag, i) && Counted(frag, |types|)
  {
    var n := RowsIn(more);
    var lo, rows := FragOffset(size, first, i), FragRows(size, n, first, i);
    assert lo + rows <= n by { if i > 0 { NewFragmentStarts(size, n, first, i); } }
    Fragment(lo, rows, seq(|types|, c requires 0 <= c < |types| => MetaOf(types[c], more[c][lo..lo + rows])))
  }

  function NewFragments(types: seq<ColumnType>, more: seq<seq<Cell>>, size: nat, first: nat): (news: seq<Fragment>)
    requires Rectangular(|types|, more) && size > 0 && first <= RowsIn(more)
    ensures Pieces(size, RowsIn(more), first, news)
    ensures forall i :: 0 <= i < |news| ==> Counted(news[i], |types|)
  {
    var count := FragCount(size, RowsIn(more), first);
    seq(count, i requires 0 <= i < count => NewFragment(types, more, size, first, i))
  }

  function Counts(frags: seq<SharedFragment>): seq<Fragment> {
    seq(|frags|, f requires 0 <= f < |frags| => Fragment(frags[f].offset, frags[f].rowCount, []))
  }

  method MergeObjects(types: seq<ColumnType>, objects: seq<ChunkMetadata>, news: seq<Metadata>)
    requires |objects| == |news| == |types| && Distinct(objects)
    modifies objects
    ensures forall c :: 0 <= c < |types| ==> objects[c].meta == MergeMeta(types[c], old(objects[c].meta), news[c])
  {
    for c := 0 to |types|
      invariant forall d :: 0 <= d < c ==> objects[d].meta == MergeMeta(types[d], old(objects[d].meta), news[d])
      invariant forall d :: c <= d < |types| ==> objects[d].meta == old(objects[d].meta)
    {
      objects[c].meta := MergeMeta(types[c], objects[c].meta, news[c]);
    }
  }

  lemma ShiftedByNothing(none: seq<Fragment>, news: seq<Fragment>)
    requires none == []
    ensures none + Shifted(news, 0) == news
  {
  }

  class SharedTable {
    const fragmentSize: nat
    const types: seq<ColumnType>
    var fragments: seq<SharedFragment>
    var rowCount: nat

    ghost predicate Valid()
      reads this, ObjectsOf(fragments)
    {
      && types != [] && fragmentSize > 0 && Unshared(fragments) && (rowCount > 0 ==> fragments != [])
      && forall f :: 0 <= f < |fragments| ==> |fragments[f].metadata| == |types| && CountsRows(fragments[f])
    }

    constructor (fragmentSize: nat, types: seq<ColumnType>)
      requires types != [] && fragmentSize > 0
      ensures Valid() && this.fragmentSize == fragmentSize && this.types == types && rowCount == 0 && fragments == []
    {
      this.fragmentSize, this.types, fragments, rowCount := fragmentSize, types, [], 0;
    }

    /** getTableMetadata: at that moment row counts and metadata fit together.  A table that
        has no fragments reports two empty ones without metadata. */
    method GetTableMetadata() returns (info: seq<FragmentInfo>)
      requires Valid()
      ensures fragments == [] ==> info == [FragmentInfo(0, []), FragmentInfo(0, [])]
      ensures fragments != [] ==> |info| == |fragments|
      ensures fragments != [] ==> forall f :: 0 <= f < |info| ==>
        info[f] == FragmentInfo(fragments[f].rowCount, fragments[f].metadata)
      ensures forall f :: 0 <= f < |info| ==> Coherent(info[f])
    {
      if fragments == [] {
        return [FragmentInfo(0, []), FragmentInfo(0, [])];
      }
      info := [];
      for f := 0 to |fragments|
        invariant |info| == f
        invariant forall g :: 0 <= g < f ==> info[g] == FragmentInfo(fragments[g].rowCount, fragments[g].metadata)
      {
        info := info + [FragmentInfo(fragments[f].rowCount, fragments[f].metadata)];
      }
    }

    /** The in-place merge of appendArrowTable into the last fragment: its metadata objects
        change, whoever holds them, and no other object does. */
    method MergeIntoLast(first: Fragment)
      requires Valid() && fragments != [] && Counted(first, |types|)
      modifies this`fragments, fragments[|fragments| - 1].metadata
      ensures Valid() && |fragments| == |old(fragments)|
      ensures forall f :: 0 <= f < |fragments| - 1 ==> fragments[f] == old(fragments)[f]
      ensures fragments[|fragments| - 1].metadata == old(fragments)[|fragments| - 1].metadata
      ensures fragments[|fragments| - 1].rowCount == old(fragments)[|fragments| - 1].rowCount + first.rowCount
      ensures var k := |fragments| - 1;
              var before := old(ValuesOf(fragments));
              && |before[k].metadata| == |types|
              && ValuesOf(fragments) == before[..k] + [MergedFragment(types, before[k], first)]
    {
      var k := |fragments| - 1;
      var last := fragments[k];
      assert Distinct(last.metadata);
      MergeObjects(types, last.metadata, first.metadata);
      fragments := fragments[k := last.(rowCount := last.rowCount + first.rowCount)];
      assert ValueOf(fragments[k]).metadata == MergedMeta(types, old(ValueOf(last)).metadata, first.metadata);
      forall f | 0 <= f < k
        ensures ValueOf(fragments[f]) == old(ValueOf(fragments[f]))
      {
        assert Apart(old(fragments)[f].metadata, last.metadata);
      }
    }

    // The other new fragments, with metadata objects of their own.
    method CopyFragments(news: seq<Fragment>)
      requires Valid() && forall f :: 0 <= f < |news| ==> Counted(news[f], |types|)
      modifies this`fragments
      ensures Valid() && |fragments| == |old(fragments)| + |news| && fragments[..|old(fragments)|] == old(fragments)
      ensures forall f :: |old(fragments)| <= f < |fragments| ==> fresh(fragments[f].metadata)
      ensures ValuesOf(fragments) == old(ValuesOf(fragments)) + Shifted(news, rowCount)
    {
      var k := |fragments|;
      ghost var before := ValuesOf(fragments);
      for f := 0 to |news|
        invariant Valid() && |fragments| == k + f && fragments[..k] == old(fragments)
        invariant ValuesOf(fragments) == before + Shifted(news, rowCount)[..f]
        invariant forall g :: k <= g < |fragments| ==> fresh(fragments[g].metadata)
      {
        AddFragment(news[f].(offset := news[f].offset + rowCount));
      }
    }

    method AddFragment(frag: Fragment)
      requires Valid() && Counted(frag, |types|)
      modifies this`fragments
      ensures Valid() && |fragments| == |old(fragments)| + 1 && fragments[..|old(fragments)|] == old(fragments)
      ensures fresh(fragments[|old(fragments)|].metadata)
      ensures ValuesOf(fragments) == old(ValuesOf(fragments)) + [frag]
    {
      var metadata: seq<ChunkMetadata> := [];
      for c := 0 to |types|
        invariant Valid() && fragments == old(fragments) && |metadata| == c && fresh(metadata) && Distinct(metadata)
        invariant forall d :: 0 <= d < c ==> metadata[d].meta == frag.metadata[d]
      {
        var object' := new ChunkMetadata(frag.metadata[c]);
        metadata := metadata + [object'];
      }
      ghost var before := fragments;
      assert forall f :: 0 <= f < |before| ==> ValueOf(before[f]) == old(ValueOf(before[f]));
      fragments := fragments + [SharedFragment(frag.offset, frag.rowCount, metadata)];
      assert forall f :: 0 <= f < |before| ==> Apart(before[f].metadata, metadata);
      assert forall f :: 0 <= f < |before| ==> fragments[f] == before[f] && CountsRows(before[f]);
      assert ValueOf(fragments[|before|]) == frag;
    }

    // The objects an append may change.
    ghost function Touched(): seq<ChunkMetadata>
      reads this
    {
      if rowCount > 0 && fragments != [] then fragments[|fragments| - 1].metadata else []
    }

    /** appendArrowTable on shared metadata.  A table without rows takes over the new
        fragments, with objects of their own.  Otherwise the fragments become, as values,
        what the table of values computes, and of the objects only those of the last fragment
        change. */
    method AppendArrowTable(more: seq<seq<Cell>>)
      requires Valid() && Rectangular(|types|, more)
      modifies this`fragments, this`rowCount, Touched()
      ensures Valid() && rowCount == old(rowCount) + RowsIn(more)
      ensures old(rowCount) == 0 ==> forall f :: 0 <= f < |fragments| ==> fresh(fragments[f].metadata)
      ensures fresh(Touched()) || (old(rowCount) > 0 && Touched() == old(Touched()))
      ensures old(rowCount) > 0 ==> Kept(old(fragments), fragments)
      ensures old(rowCount) > 0 ==> forall f :: |old(fragments)| <= f < |fragments| ==> fresh(fragments[f].metadata)
      ensures var first := FirstFragSize(fragmentSize, old(Counts(fragments)), RowsIn(more));
              var news := NewFragments(types, more, fragmentSize, first);
              if old(rowCount) == 0 then ValuesOf(fragments) == news
              else && Grown(old(fragments), fragments, fragmentSize, first, |news|)
                   && AreJoined(ValuesOf(fragments), fragmentSize, types, old(ValuesOf(fragments)), news, old(rowCount))
    {
      var first := FirstFragSize(fragmentSize, Counts(fragments), RowsIn(more));
      var news := NewFragments(types, more, fragmentSize, first);
      if rowCount > 0 {
        assert IsPiece(fragmentSize, RowsIn(more), first, news[0], 0);
        AppendFragments(news, RowsIn(more));
        GrownKeeps(old(fragments), fragments, fragmentSize, first, |news|);
      } else {
        ReplaceFragments(news, RowsIn(more));
      }
    }

    method ReplaceFragments(news: seq<Fragment>, n: nat)
      requires Valid() && rowCount == 0 && news != [] && forall f :: 0 <= f < |news| ==> Counted(news[f], |types|)
      modifies this`fragments, this`rowCount
      ensures Valid() && rowCount == n && ValuesOf(fragments) == news
      ensures forall f :: 0 <= f < |fragments| ==> fresh(fragments[f].metadata)
    {
      fragments := [];
      ghost var none := ValuesOf(fragments);
      CopyFragments(news);
      ShiftedByNothing(none, news);
      rowCount := n;
    }

    method AppendFragments(news: seq<Fragment>, n: nat)
      requires Valid() && fragments != [] && news != [] && forall f :: 0 <= f < |news| ==> Counted(news[f], |types|)
      modifies this`fragments, this`rowCount, fragments[|fragments| - 1].metadata
      ensures Valid() && rowCount == old(rowCount) + n
      ensures Grown(old(fragments), fragments, fragmentSize, news[0].rowCount, |news|)
      ensures forall f :: |old(fragments)| <= f < |fragments| ==> fresh(fragments[f].metadata)
      ensures AreJoined(ValuesOf(fragments), fragmentSize, types, old(ValuesOf(fragments)), news, old(rowCount))
    {
      assert Counted(news[0], |types|);
      var startFrag := 0;
      if fragments[|fragments| - 1].rowCount < fragmentSize {
        MergeIntoLast(news[0]);
        startFrag := 1;
      }
      ghost var head := ValuesOf(fragments);
      CopyFragments(news[startFrag..]);
      ArePartsJoined(ValuesOf(fragments), fragmentSize, types, old(ValuesOf(fragments)), news, rowCount, head);
      rowCount := rowCount + n;
    }
  }

  ghost predicate AreJoined(after: seq<Fragment>, size: nat, types: seq<ColumnType>, before: seq<Fragment>,
                            news: seq<Fragment>, rows: nat)
  {
    && before != [] && news != []
    && |before[|before| - 1].metadata| == |news[0].metadata| == |types|
    && after == Joined(size, types, before, news, rows)
  }

  lemma ArePartsJoined(after: seq<Fragment>, size: nat, types: seq<ColumnType>, before: seq<Fragment>,
                       news: seq<Fragment>, rows: nat, head: seq<Fragment>)
    requires before != [] && news != [] && |before[|before| - 1].metadata| == |news[0].metadata| == |types|
    requires var last := before[|before| - 1];
             if last.rowCount < size
             then head == before[..|before| - 1] + [MergedFragment(types, last, news[0])]
                  && after == head + Shifted(news[1..], rows)
             else head == before && after == head + Shifted(news[0..], rows)
    ensures AreJoined(after, size, types, before, news, rows)
  {
    assert news[0..] == news;
  }

  // Fragments keep their metadata objects; only the last one, if it has room, takes rows, and
  // with them the first of `count` new fragments.
  ghost predicate Grown(before: seq<SharedFragment>, after: seq<SharedFragment>, size: nat, first: nat, count: nat) {
    && before != []
    && |after| == |before| + count - (if before[|before| - 1].rowCount < size then 1 else 0) >= |before|
    && forall f :: 0 <= f < |before| ==> GrownAt(before, after, size, first, f)
  }

  ghost predicate Kept(before: seq<SharedFragment>, after: seq<SharedFragment>) {
    |before| <= |after| && forall f :: 0 <= f < |before| ==> after[f].metadata == before[f].metadata
  }

  ghost predicate GrownAt(before: seq<SharedFragment>, after: seq<SharedFragment>, size: nat, first: nat, f: nat)
    requires f < |before| <= |after|
  {
    && after[f].metadata == before[f].metadata
    && after[f].rowCount == before[f].rowCount
                            + if f == |before| - 1 && before[f].rowCount < size then first else 0
  }

  lemma GrownKeeps(before: seq<SharedFragment>, after: seq<SharedFragment>, size: nat, first: nat, count: nat)
    requires Grown(before, after, size, first, count)
    ensures Kept(before, after)
  {
    forall f | 0 <= f < |before| ensures after[f].metadata == before[f].metadata {
      assert GrownAt(before, after, size, first, f);
    }
  }

  // ---------------------------------------------------------------------------
  // A reader that keeps metadata
  // ---------------------------------------------------------------------------

  // None of the first `k` appends has a row.
  predicate NoRows(appends: seq<seq<seq<Cell>>>, k: nat)
    requires k <= |appends|
  {
    forall i :: 0 <= i < k ==> RowsIn(appends[i]) == 0
  }

  // How the fragments stand to what the reader holds, when the last fragment it knows had
  // `size` rows or fewer and appends with or without rows followed.
  ghost predicate Follows(info: seq<FragmentInfo>, frags: seq<SharedFragment>, size: nat, none: bool) {
    && 1 <= |info| <= |frags|
    && (forall f :: 0 <= f < |info| ==> frags[f].metadata == info[f].metadata)
    && (forall f :: 0 <= f < |info| - 1 ==> frags[f].rowCount == info[f].numTuples)
    && var last := info[|info| - 1].numTuples;
       && last <= frags[|info| - 1].rowCount
       && (frags[|info| - 1].rowCount == last <==> last >= size || none)
       && (none && last < size ==> |frags| == |info|)
  }

  // One more append, of `n` rows.
  lemma FollowsNext(info: seq<FragmentInfo>, before: seq<SharedFragment>, after: seq<SharedFragment>, size: nat,
                    n: nat, none: bool)
    requires size > 0 && Follows(info, before, size, none)
    requires var first := FirstFragSize(size, Counts(before), n);
             Grown(before, after, size, first, FragCount(size, n, first))
    ensures Follows(info, after, size, none && n == 0)
  {
    var first := FirstFragSize(size, Counts(before), n);
    forall f | 0 <= f < |info|
      ensures after[f].metadata == before[f].metadata
      ensures after[f].rowCount == before[f].rowCount
                                   + if f == |before| - 1 && before[f].rowCount < size then first else 0
    {
      assert GrownAt(before, after, size, first, f);
    }
    OnePiece(size, n, first);
  }

  // An append to a table that has rows.
  method AppendOne(table: SharedTable, more: seq<seq<Cell>>, ghost info: seq<FragmentInfo>, ghost none: bool)
    requires table.Valid() && table.rowCount > 0 && Rectangular(|table.types|, more)
    requires Follows(info, table.fragments, table.fragmentSize, none)
    modifies table, table.Touched()
    ensures table.Valid() && table.rowCount > 0
    ensures Follows(info, table.fragments, table.fragmentSize, none && RowsIn(more) == 0)
    ensures table.Touched() == old(table.Touched()) || fresh(table.Touched())
  {
    ghost var before := table.fragments;
    table.AppendArrowTable(more);
    FollowsNext(info, before, table.fragments, table.fragmentSize, RowsIn(more), none);
  }

  // Appends to a table that has rows.
  method AppendAll(table: SharedTable, appends: seq<seq<seq<Cell>>>, ghost info: seq<FragmentInfo>)
    requires table.Valid() && table.rowCount > 0
    requires forall i :: 0 <= i < |appends| ==> Rectangular(|table.types|, appends[i])
    requires Follows(info, table.fragments, table.fragmentSize, true)
    modifies table, table.Touched()
    ensures table.Valid() && Follows(info, table.fragments, table.fragmentSize, NoRows(appends, |appends|))
  {
    for i := 0 to |appends|
      invariant table.Valid() && table.rowCount > 0
      invariant Follows(info, table.fragments, table.fragmentSize, NoRows(appends, i))
      invariant table.Touched() == old(table.Touched()) || fresh(table.Touched())
    {
      AppendOne(table, appends[i], info, NoRows(appends, i));
      NoRowsNext(appends, i);
    }
  }

  lemma NoRowsNext(appends: seq<seq<seq<Cell>>>, k: nat)
    requires k < |appends|
    ensures NoRows(appends, k + 1) <==> NoRows(appends, k) && RowsIn(appends[k]) == 0
  {
  }

  // Appends to a table without rows leave the objects alone that it had.
  method AppendAllToEmpty(table: SharedTable, appends: seq<seq<seq<Cell>>>)
    requires table.Valid() && table.rowCount == 0
    requires forall i :: 0 <= i < |appends| ==> Rectangular(|table.types|, appends[i])
    modifies table
    ensures table.Valid()
  {
    for i := 0 to |appends|
      invariant table.Valid() && fresh(table.Touched())
    {
      table.AppendArrowTable(appends[i]);
    }
  }

  // The objects still count the rows of their fragment.
  lemma CoherentExactly(table: SharedTable, info: FragmentInfo, f: nat)
    requires table.Valid() && f < |table.fragments| && info.metadata == table.fragments[f].metadata
    ensures Coherent(info) <==> table.fragments[f].rowCount == info.numTuples
  {
    assert CountsRows(table.fragments[f]) && |info.metadata| == |table.types|;
    assert info.metadata[0].meta.numElements == table.fragments[f].rowCount;
  }

  // What the reader holds for fragment `f` is of one moment.
  predicate OneMoment(info: seq<FragmentInfo>, size: nat, none: bool, f: nat)
    requires f < |info|
  {
    f < |info| - 1 || info[f].numTuples >= size || none
  }

  lemma FollowsCoherent(table: SharedTable, info: seq<FragmentInfo>, none: bool, f: nat)
    requires table.Valid() && Follows(info, table.fragments, table.fragmentSize, none) && f < |info|
    ensures Coherent(info[f]) <==> OneMoment(info, table.fragmentSize, none, f)
  {
    CoherentExactly(table, info[f], f);
  }

  /** A reader that keeps the result of getTableMetadata while others append: the row count and
      the metadata it holds for a fragment fit together if and only if the fragment was not
      the last, or was full, or the table had no rows at all, or none were appended. */
  method ReadAcrossAppends(table: SharedTable, appends: seq<seq<seq<Cell>>>) returns (info: seq<FragmentInfo>)
    requires table.Valid() && forall i :: 0 <= i < |appends| ==> Rectangular(|table.types|, appends[i])
    modifies table, table.Touched()
    ensures table.Valid()
    ensures old(table.fragments) != [] ==> |info| == |old(table.fragments)|
    ensures old(table.fragments) != [] ==>
      forall f :: 0 <= f < |info| ==> info[f].numTuples == old(table.fragments)[f].rowCount
    ensures forall f :: 0 <= f < |info| ==>
      (Coherent(info[f])
       <==> OneMoment(info, table.fragmentSize, old(table.rowCount) == 0 || NoRows(appends, |appends|), f))
  {
    info := table.GetTableMetadata();
    if table.rowCount == 0 {
      AppendAllToEmpty(table, appends);
    } else {
      AppendAll(table, appends, info);
      forall f | 0 <= f < |info|
        ensures Coherent(info[f]) <==> OneMoment(info, table.fragmentSize, NoRows(appends, |appends|), f)
      {
        FollowsCoherent(table, info, NoRows(appends, |appends|), f);
      }
    }
  }

  /** For example one row in a fragment with room for two: after an append of one row the
      caller still has the row count one, beside metadata for two rows. */
  method StaleExample(table: SharedTable, more: seq<seq<Cell>>) returns (info: seq<FragmentInfo>)
    requires table.Valid() && table.fragmentSize == 2 && table.rowCount == 1
    requires |table.fragments| == 1 && table.fragments[0].rowCount == 1
    requires Rectangular(|table.types|, more) && RowsIn(more) == 1
    modifies table, table.Touched()
    ensures |info| == 1 && info[0].numTuples == 1 && |info[0].metadata| == |table.types| > 0
    ensures info[0].metadata[0].meta.numElements == 2 && !Coherent(info[0])
  {
    info := table.GetTableMetadata();
    ghost var before := table.fragments;
    table.AppendArrowTable(more);
    assert GrownAt(before, table.fragments, 2, 1, 0);
    assert CountsRows(table.fragments[0]);
  }
}
