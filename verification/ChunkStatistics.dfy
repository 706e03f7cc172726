/** Chunk statistics: the parallel scan of NoneEncoder.h and the merge of ChunkMetadata.h. */
module ChunkStatistics {
  import opened Basics

  // Signed integers of 1, 2, 4 or 8 bytes.  The least value stands for NULL, and inside a
  // fixed-length array the next one stands for a NULL array.
  datatype IntType = IntType(size: nat)

  function MaxOf(t: IntType): int {
    match t.size
    case 1 => 0x7F
    case 2 => 0x7FFF
    case 4 => 0x7FFF_FFFF
    case _ => 0x7FFF_FFFF_FFFF_FFFF
  }

  function MinOf(t: IntType): int { -MaxOf(t) - 1 }

  function NullOf(t: IntType): int { MinOf(t) }

  function NullArrayOf(t: IntType): int { MinOf(t) + 1 }

  predicate InRange(data: seq<int>, t: IntType) {
    forall i :: 0 <= i < |data| ==> MinOf(t) <= data[i] <= MaxOf(t)
  }

  datatype Stats = Stats(min: int, max: int, hasNulls: bool)

  // resetChunkStats.
  function Fresh(t: IntType): Stats { Stats(MaxOf(t), MinOf(t), false) }

  // A value that takes part in the minimum and maximum.
  predicate Counts(v: int, t: IntType, fixedArray: bool) {
    v != NullOf(t) && !(fixedArray && v == NullArrayOf(t))
  }

  function Step(acc: Stats, v: int, t: IntType, fixedArray: bool): Stats {
    if v == NullOf(t) then acc.(hasNulls := true)
    else if Counts(v, t, fixedArray) then Stats(Min(acc.min, v), Max(acc.max, v), acc.hasNulls)
    else acc
  }

  // The sequential fold.
  function Scan(acc: Stats, data: seq<int>, t: IntType, fixedArray: bool): Stats
    decreases |data|
  {
    if data == [] then acc else Scan(Step(acc, data[0], t, fixedArray), data[1..], t, fixedArray)
  }

  // mergeStats, and the join of two partial reductions.
  function Merge(a: Stats, b: Stats): Stats {
    Stats(Min(a.min, b.min), Max(a.max, b.max), a.hasNulls || b.hasNulls)
  }

  // `acc` already accounts for everything in `seed`.
  predicate Absorbs(acc: Stats, seed: Stats) { Merge(acc, seed) == acc }

  // ---------------------------------------------------------------------------
  // What a scan computes
  // ---------------------------------------------------------------------------

  /** The statistics of a list of values, without reference to an order of scanning: the
      extreme values that occur, or the fresh ones if none does, and whether NULL occurs. */
  ghost predicate Describes(st: Stats, data: seq<int>, t: IntType, fixedArray: bool) {
    && (st.hasNulls <==> NullOf(t) in data)
    && (forall v :: v in data && Counts(v, t, fixedArray) ==> st.min <= v <= st.max)
    && (st.min == MaxOf(t) || (st.min in data && Counts(st.min, t, fixedArray)))
    && (st.max == MinOf(t) || (st.max in data && Counts(st.max, t, fixedArray)))
  }

  lemma {:induction false} ScanAppend(acc: Stats, a: seq<int>, b: seq<int>, t: IntType, fixedArray: bool)
    ensures Scan(acc, a + b, t, fixedArray) == Scan(Scan(acc, a, t, fixedArray), b, t, fixedArray)
    decreases |a|
  {
    if a == [] {
      assert a + b == b;
    } else {
      assert (a + b)[1..] == a[1..] + b;
      ScanAppend(Step(acc, a[0], t, fixedArray), a[1..], b, t, fixedArray);
    }
  }

  /** A fresh scan yields exactly the described statistics. */
  lemma {:induction false} ScanDescribes(data: seq<int>, t: IntType, fixedArray: bool)
    requires InRange(data, t)
    ensures Describes(Scan(Fresh(t), data, t, fixedArray), data, t, fixedArray)
    decreases |data|
  {
    if data != [] {
      var k := |data| - 1;
      var init, last := data[..k], data[k];
      assert data == init + [last];
      ScanDescribes(init, t, fixedArray);
      ScanAppend(Fresh(t), init, [last], t, fixedArray);
      var st := Scan(Fresh(t), init, t, fixedArray);
      StepOne(st, last, t, fixedArray);
      StepDescribes(st, init, last, t, fixedArray);
    }
  }

  lemma StepDescribes(st: Stats, init: seq<int>, last: int, t: IntType, fixedArray: bool)
    requires Describes(st, init, t, fixedArray) && MinOf(t) <= last <= MaxOf(t)
    ensures Describes(Step(st, last, t, fixedArray), init + [last], t, fixedArray)
  {
    assert forall v :: v in init + [last] <==> v in init || v == last;
  }

  /** The description determines the statistics. */
  lemma DescribedOnce(st: Stats, st': Stats, data: seq<int>, t: IntType, fixedArray: bool)
    requires InRange(data, t)
    requires Describes(st, data, t, fixedArray) && Describes(st', data, t, fixedArray)
    ensures st == st'
  {
  }

  /** A scan from any accumulator that absorbs the seed is a scan from the seed, merged. */
  lemma {:induction false} ScanFromSeed(acc: Stats, seed: Stats, data: seq<int>, t: IntType, fixedArray: bool)
    requires Absorbs(acc, seed)
    ensures Scan(acc, data, t, fixedArray) == Merge(acc, Scan(seed, data, t, fixedArray))
    ensures Absorbs(Scan(acc, data, t, fixedArray), seed)
    decreases |data|
  {
    if data != [] {
      var k := |data| - 1;
      var init, last := data[..k], data[k];
      assert data == init + [last];
      ScanFromSeed(acc, seed, init, t, fixedArray);
      ScanAppend(acc, init, [last], t, fixedArray);
      ScanAppend(seed, init, [last], t, fixedArray);
      StepOne(Scan(acc, init, t, fixedArray), last, t, fixedArray);
      StepOne(Scan(seed, init, t, fixedArray), last, t, fixedArray);
    }
  }

  lemma StepOne(st: Stats, v: int, t: IntType, fixedArray: bool)
    ensures Scan(st, [v], t, fixedArray) == Step(st, v, t, fixedArray)
  {
  }

  /** mergeStats is a homomorphism from concatenation. */
  lemma {:induction false} MergeIsConcatenation(a: seq<int>, b: seq<int>, t: IntType, fixedArray: bool)
    requires InRange(a, t)
    ensures Scan(Fresh(t), a + b, t, fixedArray)
      == Merge(Scan(Fresh(t), a, t, fixedArray), Scan(Fresh(t), b, t, fixedArray))
  {
    ScanAppend(Fresh(t), a, b, t, fixedArray);
    ScanFromSeed(Fresh(t), Fresh(t), a, t, fixedArray);
    ScanFromSeed(Scan(Fresh(t), a, t, fixedArray), Fresh(t), b, t, fixedArray);
  }

  // ---------------------------------------------------------------------------
  // The parallel reduction
  // ---------------------------------------------------------------------------

  // How tbb::parallel_reduce may split a range: a right half is either taken by another
  // worker, which starts from the seed and is joined later, or continued with the
  // accumulator of the left half.
  datatype Plan = Whole | Split(mid: nat, stolen: bool, left: Plan, right: Plan)

  predicate Covers(p: Plan, lo: nat, hi: nat) {
    p.Split? ==> lo <= p.mid <= hi && Covers(p.left, lo, p.mid) && Covers(p.right, p.mid, hi)
  }

  /** The reduction over any plan, with any absorbing accumulator, is the sequential fold. */
  method ParallelReduce(p: Plan, data: seq<int>, lo: nat, hi: nat, seed: Stats, init: Stats,
                        t: IntType, fixedArray: bool) returns (r: Stats)
    requires lo <= hi <= |data| && Covers(p, lo, hi) && Absorbs(init, seed)
    ensures r == Scan(init, data[lo..hi], t, fixedArray)
    decreases p
  {
    match p
    case Whole =>
      r := init;
      for i := lo to hi
        invariant r == Scan(init, data[lo..i], t, fixedArray)
      {
        assert data[lo..i + 1] == data[lo..i] + [data[i]];
        ScanAppend(init, data[lo..i], [data[i]], t, fixedArray);
        StepOne(r, data[i], t, fixedArray);
        if data[i] != NullOf(t) {
          if !fixedArray || data[i] != NullArrayOf(t) {
            r := Stats(Min(r.min, data[i]), Max(r.max, data[i]), r.hasNulls);
          }
        } else {
          r := r.(hasNulls := true);
        }
      }
    case Split(mid, stolen, left, right) =>
      var first := ParallelReduce(left, data, lo, mid, seed, init, t, fixedArray);
      assert data[lo..hi] == data[lo..mid] + data[mid..hi];
      ScanAppend(init, data[lo..mid], data[mid..hi], t, fixedArray);
      ScanFromSeed(init, seed, data[lo..mid], t, fixedArray);
      ScanFromSeed(first, seed, data[mid..hi], t, fixedArray);
      if stolen {
        var second := ParallelReduce(right, data, mid, hi, seed, seed, t, fixedArray);
        r := Merge(first, second);
      } else {
        r := ParallelReduce(right, data, mid, hi, seed, first, t, fixedArray);
      }
  }

  class NoneEncoder {
    const t: IntType
    var dataMin: int
    var dataMax: int
    var hasNulls: bool

    ghost function Current(): Stats
      reads this
    {
      Stats(dataMin, dataMax, hasNulls)
    }

    constructor (t: IntType)
      ensures this.t == t && Current() == Fresh(t)
    {
      this.t := t;
      dataMin, dataMax, hasNulls := MaxOf(t), MinOf(t), false;
    }

    /** updateStatsEncoded: the reduction is seeded with the current statistics, and any
        plan gives the sequential fold over the buffer. */
    method UpdateStatsEncoded(data: seq<int>, fixedArray: bool, plan: Plan)
      requires Covers(plan, 0, |data|)
      modifies this
      ensures Current() == Scan(old(Current()), data, t, fixedArray)
    {
      var seed := Stats(dataMin, dataMax, hasNulls);
      var r := ParallelReduce(plan, data, 0, |data|, seed, seed, t, fixedArray);
      assert data[0..|data|] == data;
      dataMin, dataMax, hasNulls := r.min, r.max, r.hasNulls;
    }
  }

  /** ArrowStorage::computeStats on a column of scalars: chunk by chunk, each with a plan of
      its own, equals one scan of the concatenation. */
  method ComputeStats(chunks: seq<seq<int>>, t: IntType, plans: seq<Plan>) returns (st: Stats)
    requires |plans| == |chunks| && forall k :: 0 <= k < |chunks| ==> Covers(plans[k], 0, |chunks[k]|)
    ensures st == Scan(Fresh(t), Flatten(chunks), t, false)
  {
    var encoder := new NoneEncoder(t);
    for k := 0 to |chunks|
      invariant fresh(encoder) && encoder.t == t
      invariant encoder.Current() == Scan(Fresh(t), Flatten(chunks[..k]), t, false)
    {
      assert chunks[..k + 1][..k] == chunks[..k];
      ScanAppend(Fresh(t), Flatten(chunks[..k]), chunks[k], t, false);
      encoder.UpdateStatsEncoded(chunks[k], false, plans[k]);
    }
    assert chunks[..|chunks|] == chunks;
    st := Stats(encoder.dataMin, encoder.dataMax, encoder.hasNulls);
  }
}
