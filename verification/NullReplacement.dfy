/** Replacing the NULLs of a chunked array in parallel (ArrowStorageUtils.cpp). */
module NullReplacement {
  import opened Basics
  import opened Bitmaps

  predicate ValidChunks(chunks: seq<Array>) {
    forall c :: 0 <= c < |chunks| ==> ValidArray(chunks[c])
  }

  // Where the rows of chunk `c` go.
  function RowStart(chunks: seq<Array>, c: nat): nat
    requires c <= |chunks|
  {
    if c == 0 then 0 else RowStart(chunks, c - 1) + chunks[c - 1].length
  }

  function ReplacedChunk(a: Array, nullValue: int): (rows: seq<int>)
    requires ValidArray(a)
    ensures |rows| == a.length
  {
    seq(a.length, i requires 0 <= i < a.length => Replaced(a, nullValue, i))
  }

  /** The rows of the column one by one, NULLs replaced. */
  function ReplacedColumn(chunks: seq<Array>, nullValue: int): seq<int>
    requires ValidChunks(chunks)
  {
    Flatten(ReplacedChunks(chunks, nullValue))
  }

  function ReplacedChunks(chunks: seq<Array>, nullValue: int): (parts: seq<seq<int>>)
    requires ValidChunks(chunks)
    ensures |parts| == |chunks|
  {
    seq(|chunks|, c requires 0 <= c < |chunks| => ReplacedChunk(chunks[c], nullValue))
  }

  // ---------------------------------------------------------------------------
  // Ranges of the chunks
  // ---------------------------------------------------------------------------

  // The position of part `c` in a concatenation.
  function Start(parts: seq<seq<int>>, c: nat): nat
    requires c <= |parts|
  {
    if c == 0 then 0 else Start(parts, c - 1) + |parts[c - 1]|
  }

  lemma {:induction false} StartOfPrefix(parts: seq<seq<int>>, n: nat, c: nat)
    requires c <= n <= |parts|
    ensures Start(parts[..n], c) == Start(parts, c)
  {
    if c > 0 { StartOfPrefix(parts, n, c - 1); }
  }

  lemma {:induction false} FlattenLength(parts: seq<seq<int>>)
    ensures |Flatten(parts)| == Start(parts, |parts|)
  {
    if parts != [] {
      FlattenLength(parts[..|parts| - 1]);
      StartOfPrefix(parts, |parts| - 1, |parts| - 1);
    }
  }

  lemma {:induction false} FlattenAt(parts: seq<seq<int>>, c: nat, i: nat)
    requires c < |parts| && i < |parts[c]|
    ensures Start(parts, c) + i < |Flatten(parts)| && Flatten(parts)[Start(parts, c) + i] == parts[c][i]
  {
    var n := |parts| - 1;
    FlattenLength(parts[..n]);
    StartOfPrefix(parts, n, n);
    if c < n {
      FlattenAt(parts[..n], c, i);
      StartOfPrefix(parts, n, c);
    }
  }

  lemma {:induction false} StartOfChunk(chunks: seq<Array>, nullValue: int, c: nat)
    requires ValidChunks(chunks) && c <= |chunks|
    ensures Start(ReplacedChunks(chunks, nullValue), c) == RowStart(chunks, c)
  {
    if c > 0 { StartOfChunk(chunks, nullValue, c - 1); }
  }

  lemma {:induction false} ColumnLength(chunks: seq<Array>, nullValue: int)
    requires ValidChunks(chunks)
    ensures |ReplacedColumn(chunks, nullValue)| == RowStart(chunks, |chunks|)
  {
    FlattenLength(ReplacedChunks(chunks, nullValue));
    StartOfChunk(chunks, nullValue, |chunks|);
  }

  lemma {:induction false} RowStartMono(chunks: seq<Array>, b: nat, c: nat)
    requires b <= c <= |chunks|
    ensures RowStart(chunks, b) <= RowStart(chunks, c)
  {
    if b < c { RowStartMono(chunks, b, c - 1); }
  }

  /** Row `i` of chunk `c` is the row at its position in the column. */
  lemma {:induction false} RowOfColumn(chunks: seq<Array>, nullValue: int, c: nat, i: nat)
    requires ValidChunks(chunks) && c < |chunks| && i < chunks[c].length
    ensures RowStart(chunks, c) + i < |ReplacedColumn(chunks, nullValue)|
    ensures ReplacedColumn(chunks, nullValue)[RowStart(chunks, c) + i] == Replaced(chunks[c], nullValue, i)
  {
    FlattenAt(ReplacedChunks(chunks, nullValue), c, i);
    StartOfChunk(chunks, nullValue, c);
  }

  /** Every position of the buffer belongs to a row of some chunk. */
  lemma {:induction false} RangesCover(chunks: seq<Array>, p: nat) returns (c: nat, i: nat)
    requires p < RowStart(chunks, |chunks|)
    ensures c < |chunks| && i < chunks[c].length && RowStart(chunks, c) + i == p
  {
    c := |chunks| - 1;
    while p < RowStart(chunks, c)
      invariant c < |chunks| && p < RowStart(chunks, c + 1)
      decreases c
    {
      c := c - 1;
    }
    i := p - RowStart(chunks, c);
  }

  /** Rows of different chunks, and different rows of one chunk, have different positions. */
  lemma {:induction false} RangesDisjoint(chunks: seq<Array>, c: nat, i: nat, d: nat, j: nat)
    requires c < |chunks| && i < chunks[c].length && d < |chunks| && j < chunks[d].length
    ensures RowStart(chunks, c) + i == RowStart(chunks, d) + j <==> c == d && i == j
  {
    if c < d {
      RowStartMono(chunks, c + 1, d);
    } else if d < c {
      RowStartMono(chunks, d + 1, c);
    }
  }

  // ---------------------------------------------------------------------------
  // Chunks in any order
  // ---------------------------------------------------------------------------

  predicate AllTyped(chunks: seq<Array>) { forall c :: 0 <= c < |chunks| ==> chunks[c].Typed? }

  function TotalNulls(chunks: seq<Array>): nat
    requires ValidChunks(chunks)
  {
    if chunks == [] then 0
    else TotalNulls(chunks[..|chunks| - 1]) + NullCount(chunks[|chunks| - 1], chunks[|chunks| - 1].length)
  }

  // The rows of a column that is returned as it is.
  function PlainRows(chunks: seq<Array>): seq<int>
    requires ValidChunks(chunks) && AllTyped(chunks)
  {
    Flatten(seq(|chunks|, c requires 0 <= c < |chunks| => chunks[c].values[..chunks[c].length]))
  }

  lemma {:induction false} NoNullsInChunk(chunks: seq<Array>, c: nat)
    requires ValidChunks(chunks) && TotalNulls(chunks) == 0 && c < |chunks|
    ensures NullCount(chunks[c], chunks[c].length) == 0
  {
    if c < |chunks| - 1 { NoNullsInChunk(chunks[..|chunks| - 1], c); }
  }

  /** The early return: a column without NULLs already holds the replaced rows. */
  lemma {:induction false} NothingToReplace(chunks: seq<Array>, nullValue: int)
    requires ValidChunks(chunks) && AllTyped(chunks) && TotalNulls(chunks) == 0
    ensures PlainRows(chunks) == ReplacedColumn(chunks, nullValue)
  {
    var plain := seq(|chunks|, c requires 0 <= c < |chunks| => chunks[c].values[..chunks[c].length]);
    forall c | 0 <= c < |chunks|
      ensures plain[c] == ReplacedChunks(chunks, nullValue)[c]
    {
      NoNullsInChunk(chunks, c);
      PlainChunk(chunks[c], nullValue);
    }
    assert plain == ReplacedChunks(chunks, nullValue);
  }

  lemma PlainChunk(a: Array, nullValue: int)
    requires ValidArray(a) && a.Typed? && NullCount(a, a.length) == 0
    ensures a.values[..a.length] == ReplacedChunk(a, nullValue)
  {
    forall i | 0 <= i < a.length
      ensures a.values[i] == Replaced(a, nullValue, i)
    {
      NullCountExtremes(a, a.length, i);
    }
  }

  // The rows of chunk `c` are in place.
  ghost predicate Placed(out: seq<int>, chunks: seq<Array>, nullValue: int, c: nat)
    requires ValidChunks(chunks) && c < |chunks|
  {
    Copied(out, RowStart(chunks, c), 0, chunks[c], nullValue, 0, chunks[c].length)
  }

  // A write to the range of chunk `c` leaves the other chunks alone.
  lemma {:induction false} StillPlaced(out: seq<int>, before: seq<int>, chunks: seq<Array>, nullValue: int, c: nat,
                                       d: nat)
    requires ValidChunks(chunks) && c < |chunks| && d < |chunks| && c != d
    requires SameOutside(out, before, RowStart(chunks, c), RowStart(chunks, c) + chunks[c].length)
    requires Placed(before, chunks, nullValue, d)
    ensures Placed(out, chunks, nullValue, d)
  {
    forall p | 0 <= p < chunks[d].length
      ensures out[RowStart(chunks, d) + p - 0] == Replaced(chunks[d], nullValue, p)
    {
      if c < d { RowStartMono(chunks, c + 1, d); } else { RowStartMono(chunks, d + 1, c); }
    }
  }

  /** replaceNullValuesImpl: whatever the order in which the chunks are processed, the
      result is the row by row replacement of the whole column. */
  method ReplaceNullValues(chunks: seq<Array>, nullValue: int, order: seq<nat>) returns (rows: seq<int>)
    requires ValidChunks(chunks)
    requires (forall c :: 0 <= c < |chunks| ==> c in order) && (forall k :: 0 <= k < |order| ==> order[k] < |chunks|)
    ensures rows == ReplacedColumn(chunks, nullValue)
  {
    if AllTyped(chunks) && TotalNulls(chunks) == 0 {
      NothingToReplace(chunks, nullValue);
      return PlainRows(chunks);
    }
    ColumnLength(chunks, nullValue);
    var result := new int[RowStart(chunks, |chunks|)];
    for k := 0 to |order|
      invariant forall j :: 0 <= j < k ==> Placed(result[..], chunks, nullValue, order[j])
    {
      ProcessChunk(result, chunks, nullValue, order[k]);
    }
    AllPlaced(result[..], chunks, nullValue, order);
    return result[..];
  }

  // What is done for one chunk.
  method ProcessChunk(result: array<int>, chunks: seq<Array>, nullValue: int, c: nat)
    requires ValidChunks(chunks) && c < |chunks| && result.Length == RowStart(chunks, |chunks|)
    modifies result
    ensures Placed(result[..], chunks, nullValue, c)
    ensures forall d :: 0 <= d < |chunks| && Placed(old(result[..]), chunks, nullValue, d) ==>
      Placed(result[..], chunks, nullValue, d)
  {
    var offset := ChunkOffset(chunks, c);
    RowStartMono(chunks, c + 1, |chunks|);
    ghost var before := result[..];
    CopyReplacingNulls(result, offset, chunks[c], 0, chunks[c].length, nullValue);
    ghost var after := result[..];
    forall d | 0 <= d < |chunks| && d != c && Placed(before, chunks, nullValue, d)
      ensures Placed(after, chunks, nullValue, d)
    {
      StillPlaced(after, before, chunks, nullValue, c, d);
    }
  }

  method ChunkOffset(chunks: seq<Array>, c: nat) returns (offset: nat)
    requires c < |chunks|
    ensures offset == RowStart(chunks, c)
  {
    offset := 0;
    for i := 0 to c
      invariant offset == RowStart(chunks, i)
    {
      offset := offset + chunks[i].length;
    }
  }

  lemma {:induction false} AllPlaced(out: seq<int>, chunks: seq<Array>, nullValue: int, order: seq<nat>)
    requires ValidChunks(chunks) && |out| == RowStart(chunks, |chunks|)
    requires (forall c :: 0 <= c < |chunks| ==> c in order) && (forall k :: 0 <= k < |order| ==> order[k] < |chunks|)
    requires forall j :: 0 <= j < |order| ==> Placed(out, chunks, nullValue, order[j])
    ensures out == ReplacedColumn(chunks, nullValue)
  {
    ColumnLength(chunks, nullValue);
    forall p | 0 <= p < |out|
      ensures out[p] == ReplacedColumn(chunks, nullValue)[p]
    {
      var c, i := RangesCover(chunks, p);
      assert c in order;
      var j :| 0 <= j < |order| && order[j] == c;
      assert Placed(out, chunks, nullValue, order[j]);
      RowOfColumn(chunks, nullValue, c, i);
      assert out[RowStart(chunks, c) + i - 0] == Replaced(chunks[c], nullValue, i);
    }
  }

  // ---------------------------------------------------------------------------
  // Single writes in any interleaving
  // ---------------------------------------------------------------------------

  datatype Write = Write(chunk: nat, row: nat)

  predicate IsWrite(chunks: seq<Array>, w: Write) { w.chunk < |chunks| && w.row < chunks[w.chunk].length }

  // The buffer after the writes, in the order given.
  function AfterWrites(buf: seq<int>, chunks: seq<Array>, nullValue: int, writes: seq<Write>): (out: seq<int>)
    requires ValidChunks(chunks) && |buf| == RowStart(chunks, |chunks|)
    requires forall k :: 0 <= k < |writes| ==> IsWrite(chunks, writes[k])
    ensures |out| == |buf|
  {
    if writes == [] then buf
    else
      var w := writes[|writes| - 1];
      var out := AfterWrites(buf, chunks, nullValue, writes[..|writes| - 1]);
      assert IsWrite(chunks, w);
      RowStartMono(chunks, w.chunk + 1, |chunks|);
      out[RowStart(chunks, w.chunk) + w.row := Replaced(chunks[w.chunk], nullValue, w.row)]
  }

  lemma {:induction false} WrittenRow(buf: seq<int>, chunks: seq<Array>, nullValue: int, writes: seq<Write>, k: nat)
    requires ValidChunks(chunks) && |buf| == RowStart(chunks, |chunks|)
    requires forall j :: 0 <= j < |writes| ==> IsWrite(chunks, writes[j])
    requires k < |writes| && IsWrite(chunks, writes[k])
    ensures RowStart(chunks, writes[k].chunk) + writes[k].row < |buf|
    ensures AfterWrites(buf, chunks, nullValue, writes)[RowStart(chunks, writes[k].chunk) + writes[k].row]
         == Replaced(chunks[writes[k].chunk], nullValue, writes[k].row)
  {
    var n := |writes| - 1;
    assert IsWrite(chunks, writes[n]);
    RowStartMono(chunks, writes[k].chunk + 1, |chunks|);
    if k < n {
      WrittenRow(buf, chunks, nullValue, writes[..n], k);
      RangesDisjoint(chunks, writes[k].chunk, writes[k].row, writes[n].chunk, writes[n].row);
    }
  }

  /** Any interleaving of the single writes of all chunks gives the replaced column. */
  lemma {:induction false} AnyInterleaving(buf: seq<int>, chunks: seq<Array>, nullValue: int, writes: seq<Write>)
    requires ValidChunks(chunks) && |buf| == RowStart(chunks, |chunks|)
    requires forall k :: 0 <= k < |writes| ==> IsWrite(chunks, writes[k])
    requires forall c, i :: 0 <= c < |chunks| && 0 <= i < chunks[c].length ==> Write(c, i) in writes
    ensures AfterWrites(buf, chunks, nullValue, writes) == ReplacedColumn(chunks, nullValue)
  {
    ColumnLength(chunks, nullValue);
    forall p | 0 <= p < |buf|
      ensures AfterWrites(buf, chunks, nullValue, writes)[p] == ReplacedColumn(chunks, nullValue)[p]
    {
      var c, i := RangesCover(chunks, p);
      assert Write(c, i) in writes;
      var k :| 0 <= k < |writes| && writes[k] == Write(c, i);
      WrittenRow(buf, chunks, nullValue, writes, k);
      RowOfColumn(chunks, nullValue, c, i);
    }
  }
}
