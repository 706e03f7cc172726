/** Flattening a left-deep join preserves its meaning. */
module JoinFlattening {
  import opened Basics
  import opened Expressions
  import opened LeftDeepJoin

  // ---------------------------------------------------------------------------
  // Well-formed trees
  // ---------------------------------------------------------------------------

  predicate IsNodeOf(t: Tree, n: NodeId) {
    match t
    case Leaf(input) => n == input.id
    case Node(j, l, r) => n == j.id || n == r.id || IsNodeOf(l, n)
  }

  // All nodes of the tree are pairwise distinct.
  predicate Distinct(t: Tree) {
    match t
    case Leaf(_) => true
    case Node(j, l, r) =>
      Distinct(l) && j.id != r.id && !IsNodeOf(l, j.id) && !IsNodeOf(l, r.id)
  }

  // A reference to a column that some node of the tree has.
  predicate InScope(t: Tree, n: NodeId, i: nat) {
    match t
    case Leaf(input) => n == input.id && i < input.width
    case Node(j, l, r) =>
      (n == j.id && i < Size(t)) || (n == r.id && i < r.width) || InScope(l, n, i)
  }

  function Scope(t: Tree): (NodeId, nat) -> bool {
    (n: NodeId, i: nat) => InScope(t, n, i)
  }

  // Every join condition refers to columns of its own join, or below.
  predicate WellScoped(t: Tree) {
    match t
    case Leaf(_) => true
    case Node(j, l, _) =>
      WellScoped(l) && (j.condition.Some? ==> RefsIn(j.condition.value, Scope(t)))
  }

  ghost predicate WellFormed(f: Option<Filter>, t: Tree) {
    && Distinct(t) && WellScoped(t)
    && (f.Some? ==> !IsNodeOf(t, f.value.id) && RefsIn(f.value.condition, Scope(t)))
  }

  ghost predicate RowsFit(t: Tree, db: Database) {
    forall input, k :: input in Inputs(t) && 0 <= k < |db(input.id)| ==>
      |db(input.id)[k]| == input.width
  }

  predicate IsSubtree(s: Tree, t: Tree) {
    s == t || (t.Node? && IsSubtree(s, t.left))
  }

  lemma SubtreeInputs(s: Tree, t: Tree)
    requires IsSubtree(s, t)
    ensures |Inputs(s)| <= |Inputs(t)| && Inputs(s) == Inputs(t)[..|Inputs(s)|]
  {
  }

  // ---------------------------------------------------------------------------
  // The prefix-sum lookup is the recursive descent
  // ---------------------------------------------------------------------------

  // getNodeColumnRef: descends to the operand that holds the column.
  function Descend(t: Tree, i: nat): (NodeId, nat) {
    match t
    case Leaf(input) => (input.id, i)
    case Node(_, l, r) => if i < Size(l) then Descend(l, i) else (r.id, i - Size(l))
  }

  lemma {:induction false} FirstGreaterAppend(ps: seq<nat>, last: nat, x: nat)
    ensures FirstGreater(ps + [last], x) ==
            if FirstGreater(ps, x) < |ps| then FirstGreater(ps, x)
            else if x < last then |ps| else |ps| + 1
  {
    if ps != [] {
      assert (ps + [last])[1..] == ps[1..] + [last];
      FirstGreaterAppend(ps[1..], last, x);
    }
  }

  /** For every column of the tree, also with inputs of width zero, the search over the
      prefix sums finds the input and local index that the descent reaches. */
  lemma {:induction false} LookupIsDescent(t: Tree, i: nat)
    requires i < Size(t)
    ensures FirstGreater(PrefixSums(Inputs(t)), i) < |Inputs(t)|
    ensures Locate(Inputs(t), i) == Descend(t, i)
    ensures Last(PrefixSums(Inputs(t))) == Size(t)
  {
    LastPrefixSum(t);
    match t
    case Leaf(input) =>
    case Node(_, l, r) =>
      var ps := PrefixSums(Inputs(l));
      LastPrefixSum(l);
      assert Inputs(t)[..|Inputs(t)| - 1] == Inputs(l);
      FirstGreaterAppend(ps, Size(t), i);
      if i < Size(l) {
        LookupIsDescent(l, i);
      } else {
        PrefixSumsBelow(l);
      }
  }

  function Last(ps: seq<nat>): nat
    requires ps != []
  {
    ps[|ps| - 1]
  }

  lemma LastPrefixSum(t: Tree)
    ensures PrefixSums(Inputs(t)) != [] && Last(PrefixSums(Inputs(t))) == Size(t)
  {
  }

  lemma {:induction false} PrefixSumsBelow(t: Tree)
    ensures forall k :: 0 <= k < |PrefixSums(Inputs(t))| ==> PrefixSums(Inputs(t))[k] <= Size(t)
  {
    LastPrefixSum(t);
    if t.Node? {
      PrefixSumsBelow(t.left);
      assert Inputs(t)[..|Inputs(t)| - 1] == Inputs(t.left);
    }
  }

  /** The found pair is the only one: an input and a local index below its width determine
      the flat index, and the descent inverts that. */
  lemma {:induction false} DescentInverse(t: Tree, k: nat, i: nat)
    requires k < |Inputs(t)| && i < Inputs(t)[k].width
    ensures (if k > 0 then PrefixSums(Inputs(t))[k - 1] else 0) + i < Size(t)
    ensures Descend(t, (if k > 0 then PrefixSums(Inputs(t))[k - 1] else 0) + i) == (Inputs(t)[k].id, i)
  {
    if t.Node? {
      LastPrefixSum(t.left);
      assert Inputs(t)[..|Inputs(t)| - 1] == Inputs(t.left);
      if k < |Inputs(t)| - 1 {
        DescentInverse(t.left, k, i);
      }
    }
  }

  lemma {:induction false} DescendSubtree(s: Tree, t: Tree, i: nat)
    requires IsSubtree(s, t) && i < Size(s)
    ensures i < Size(t) && Descend(t, i) == Descend(s, i)
  {
    if s != t {
      DescendSubtree(s, t.left, i);
    }
  }

  // ---------------------------------------------------------------------------
  // Rebound references read the same values
  // ---------------------------------------------------------------------------

  ghost predicate Shaped(t: Tree, tp: Tuple) {
    |tp| == |Inputs(t)| && forall k :: 0 <= k < |tp| ==> |tp[k]| == Inputs(t)[k].width
  }

  lemma IdsOfInputs(t: Tree)
    ensures forall k :: 0 <= k < |Inputs(t)| ==> IsNodeOf(t, Inputs(t)[k].id)
  {
  }

  lemma {:induction false} InputIdsDistinct(t: Tree)
    requires Distinct(t)
    ensures forall j, k :: 0 <= j < k < |Inputs(t)| ==> Inputs(t)[j].id != Inputs(t)[k].id
  {
    if t.Node? {
      InputIdsDistinct(t.left);
      IdsOfInputs(t.left);
    }
  }

  lemma {:induction false} ReadBoundInput(ins: seq<Input>, tp: Tuple, k: nat, i: nat)
    requires k < |tp| <= |ins|
    requires forall j, l :: 0 <= j < l < |ins| ==> ins[j].id != ins[l].id
    ensures ReadInput(ins, tp, ins[k].id, i) == At(tp[k], i)
    decreases |tp|
  {
    if k < |tp| - 1 {
      ReadBoundInput(ins, tp[..|tp| - 1], k, i);
    }
  }

  lemma {:induction false} FlattenLength(t: Tree, tp: Tuple)
    requires Shaped(t, tp)
    ensures |Flatten(tp)| == Size(t)
  {
    if t.Node? {
      FlattenLength(t.left, tp[..|tp| - 1]);
    } else {
      assert tp[..0] == [];
    }
  }

  /** Column `i` of a join is, on the bound rows, the column the descent leads to. */
  lemma {:induction false} DescentReads(t: Tree, ins: seq<Input>, tp: Tuple, full: Tuple, i: nat)
    requires Shaped(t, tp) && i < Size(t) && tp <= full && |full| <= |ins|
    requires Inputs(t) <= ins
    requires forall j, l :: 0 <= j < l < |ins| ==> ins[j].id != ins[l].id
    ensures ReadInput(ins, full, Descend(t, i).0, Descend(t, i).1) == At(Flatten(tp), i)
  {
    match t
    case Leaf(input) =>
      assert tp[..0] == [];
      ReadBoundInput(ins, full, 0, i);
    case Node(_, l, r) =>
      var k := |tp| - 1;
      FlattenLength(l, tp[..k]);
      if i < Size(l) {
        DescentReads(l, ins, tp[..k], full, i);
      } else {
        ReadBoundInput(ins, full, k, i - Size(l));
      }
  }

  lemma CoversJoins(f: Option<Filter>, s: Tree, t: Tree)
    requires IsSubtree(s, t) && s.Node?
    ensures Covers(f, Joins(t), s.join.id)
  {
    JoinIsListed(s, t);
  }

  lemma {:induction false} JoinIsListed(s: Tree, t: Tree)
    requires IsSubtree(s, t) && s.Node?
    ensures exists k :: 0 <= k < |Joins(t)| && Joins(t)[k].id == s.join.id
  {
    if s == t {
      assert Joins(t)[0].id == s.join.id;
    } else {
      JoinIsListed(s, t.left);
      var k :| 0 <= k < |Joins(t.left)| && Joins(t.left)[k].id == s.join.id;
      assert Joins(t)[k + 1] == Joins(t.left)[k];
    }
  }

  lemma {:induction false} InputsAreNotCovered(f: Option<Filter>, t: Tree, k: nat)
    requires Distinct(t) && k < |Inputs(t)|
    requires f.Some? ==> !IsNodeOf(t, f.value.id)
    ensures !Covers(f, Joins(t), Inputs(t)[k].id)
  {
    IdsOfInputs(t);
    InputsAreNotJoins(t, k);
  }

  lemma {:induction false} InputsAreNotJoins(t: Tree, k: nat)
    requires Distinct(t) && k < |Inputs(t)|
    ensures forall j :: 0 <= j < |Joins(t)| ==> Joins(t)[j].id != Inputs(t)[k].id
  {
    if t.Node? {
      IdsOfInputs(t.left);
      IdsOfJoins(t.left);
      if k < |Inputs(t)| - 1 {
        InputsAreNotJoins(t.left, k);
      }
    }
  }

  lemma {:induction false} IdsOfJoins(t: Tree)
    ensures forall j :: 0 <= j < |Joins(t)| ==> IsNodeOf(t, Joins(t)[j].id)
  {
    if t.Node? { IdsOfJoins(t.left); }
  }

  lemma {:induction false} RebindingReadsJoin(f: Option<Filter>, s: Tree, t: Tree, full: Tuple, i: nat)
    requires IsSubtree(s, t) && Distinct(t) && s.Node? && i < Size(s)
    requires |Inputs(s)| <= |full| <= |Inputs(t)| && Shaped(s, full[..|Inputs(s)|])
    ensures var r := Resolver(f, Inputs(t), Joins(t))(s.join.id, i);
            ReadInput(Inputs(t), full, r.0, r.1) == At(Flatten(full[..|Inputs(s)|]), i)
  {
    SubtreeInputs(s, t);
    InputIdsDistinct(t);
    CoversJoins(f, s, t);
    DescendSubtree(s, t, i);
    LookupIsDescent(t, i);
    DescentReads(s, Inputs(t), full[..|Inputs(s)|], full, i);
  }

  /** A reference in scope of a subtree, once rebound, reads from the bound input rows what
      it meant on the tuple of the subtree.  `full` may bind more inputs. */
  lemma {:induction false} RebindingReads(f: Option<Filter>, s: Tree, t: Tree, full: Tuple, n: NodeId, i: nat)
    requires IsSubtree(s, t) && Distinct(t) && (f.Some? ==> !IsNodeOf(t, f.value.id))
    requires |Inputs(s)| <= |full| <= |Inputs(t)| && Shaped(s, full[..|Inputs(s)|])
    requires InScope(s, n, i)
    ensures var r := Resolver(f, Inputs(t), Joins(t))(n, i);
            ReadInput(Inputs(t), full, r.0, r.1) == ReadRef(s, full[..|Inputs(s)|], n, i)
    decreases s
  {
    var ins := Inputs(t);
    var k := |Inputs(s)|;
    SubtreeInputs(s, t);
    if s.Node? && n == s.join.id {
      DistinctSubtree(s, t);
      if InScope(s.left, n, i) { ScopeIsNode(s.left, n, i); }
      RebindingReadsJoin(f, s, t, full, i);
    } else if s.Leaf? || n == s.right.id {
      InputIdsDistinct(t);
      assert n == ins[k - 1].id;
      InputsAreNotCovered(f, t, k - 1);
      ReadBoundInput(ins, full, k - 1, i);
    } else {
      SubtreeTransitive(s, t);
      assert full[..k][..k - 1] == full[..k - 1];
      RebindingReads(f, s.left, t, full, n, i);
    }
  }

  lemma DistinctSubtree(s: Tree, t: Tree)
    requires IsSubtree(s, t) && Distinct(t)
    ensures Distinct(s)
  {
  }

  lemma ScopeIsNode(t: Tree, n: NodeId, i: nat)
    requires InScope(t, n, i)
    ensures IsNodeOf(t, n)
  {
  }

  lemma {:induction false} SubtreeTransitive(s: Tree, t: Tree)
    requires IsSubtree(s, t) && s.Node?
    ensures IsSubtree(s.left, t)
  {
    if s != t { SubtreeTransitive(s, t.left); }
  }

  /** A condition in scope of a subtree has, once rebound, its original value. */
  lemma {:induction false} RebindingPreservesValue(
    f: Option<Filter>, s: Tree, t: Tree, full: Tuple, e: Expr, m: Meaning)
    requires IsSubtree(s, t) && Distinct(t) && (f.Some? ==> !IsNodeOf(t, f.value.id))
    requires |Inputs(s)| <= |full| <= |Inputs(t)| && Shaped(s, full[..|Inputs(s)|])
    requires RefsIn(e, Scope(s))
    ensures Eval(Rebind(e, f, Inputs(t), Joins(t)), m, FlatEnv(Inputs(t), full))
            == Eval(e, m, TreeEnv(s, full[..|Inputs(s)|]))
  {
    var g := Resolver(f, Inputs(t), Joins(t));
    var env, env' := TreeEnv(s, full[..|Inputs(s)|]), FlatEnv(Inputs(t), full);
    forall n: NodeId, i: nat | Scope(s)(n, i)
      ensures env'(g(n, i).0, g(n, i).1) == env(n, i)
    {
      RebindingReads(f, s, t, full, n, i);
    }
    MapRefsPreservesValue(e, g, Scope(s), m, env, env');
  }

  // ---------------------------------------------------------------------------
  // Selections and extensions of tuple lists
  // ---------------------------------------------------------------------------

  lemma {:induction false} SelectAppend(a: seq<Tuple>, b: seq<Tuple>, p: Tuple -> bool)
    ensures Select(a + b, p) == Select(a, p) + Select(b, p)
  {
    if a == [] {
      assert a + b == b;
    } else {
      assert (a + b)[0] == a[0] && (a + b)[1..] == a[1..] + b;
      SelectAppend(a[1..], b, p);
      var head := if p(a[0]) then [a[0]] else [];
      assert Select(a + b, p) == head + Select(a[1..] + b, p);
      assert head + (Select(a[1..], p) + Select(b, p)) == (head + Select(a[1..], p)) + Select(b, p);
    }
  }

  lemma {:induction false} SelectTwice(a: seq<Tuple>, p: Tuple -> bool, q: Tuple -> bool, r: Tuple -> bool)
    requires forall k :: 0 <= k < |a| ==> (r(a[k]) <==> p(a[k]) && q(a[k]))
    ensures Select(Select(a, p), q) == Select(a, r)
  {
    if a != [] {
      SelectTwice(a[1..], p, q, r);
      SelectAppend(if p(a[0]) then [a[0]] else [], Select(a[1..], p), q);
      assert Select([a[0]], q) == if q(a[0]) then [a[0]] else [];
    }
  }

  lemma {:induction false} SelectAgrees(a: seq<Tuple>, p: Tuple -> bool, q: Tuple -> bool)
    requires forall k :: 0 <= k < |a| ==> p(a[k]) == q(a[k])
    ensures Select(a, p) == Select(a, q)
  {
    if a != [] { SelectAgrees(a[1..], p, q); }
  }

  lemma {:induction false} MatchingAgrees(tp: Tuple, rows: seq<Row>, p: Row -> bool, q: Row -> bool)
    requires forall k :: 0 <= k < |rows| ==> p(rows[k]) == q(rows[k])
    ensures Matching(tp, rows, p) == Matching(tp, rows, q)
  {
    if rows != [] { MatchingAgrees(tp, rows[1..], p, q); }
  }

  lemma {:induction false} MatchingMembers(tp: Tuple, rows: seq<Row>, p: Row -> bool, k: nat)
    requires k < |Matching(tp, rows, p)|
    ensures exists r :: 0 <= r < |rows| && p(rows[r]) && Matching(tp, rows, p)[k] == tp + [rows[r]]
  {
    var skip := if p(rows[0]) then 1 else 0;
    if k < skip {
      assert Matching(tp, rows, p)[k] == tp + [rows[0]];
    } else {
      MatchingMembers(tp, rows[1..], p, k - skip);
      var r :| 0 <= r < |rows[1..]| && p(rows[1..][r]) && Matching(tp, rows[1..], p)[k - skip] == tp + [rows[1..][r]];
      assert rows[r + 1] == rows[1..][r];
    }
  }

  // Keeping all rows and selecting afterwards is keeping the rows that pass.
  lemma {:induction false} MatchingThenSelect(tp: Tuple, rows: seq<Row>, all: Row -> bool, p: Row -> bool,
                                              q: Tuple -> bool)
    requires forall k :: 0 <= k < |rows| ==> all(rows[k]) && p(rows[k]) == q(tp + [rows[k]])
    ensures Select(Matching(tp, rows, all), q) == Matching(tp, rows, p)
  {
    if rows != [] {
      MatchingThenSelect(tp, rows[1..], all, p, q);
      SelectAppend([tp + [rows[0]]], Matching(tp, rows[1..], all), q);
    }
  }

  lemma {:induction false} SelectAll(a: seq<Tuple>, p: Tuple -> bool, b: bool)
    requires forall k :: 0 <= k < |a| ==> p(a[k]) == b
    ensures Select(a, p) == if b then a else []
  {
    if a != [] { SelectAll(a[1..], p, b); }
  }

  // ---------------------------------------------------------------------------
  // Nested evaluation as one selection over the spread of all levels
  // ---------------------------------------------------------------------------

  // A condition as the constructor reads it: the literal TRUE, and by the payload it reads
  // also the boolean NULL, stand for no condition.
  function AsRead(c: Option<Expr>): Option<Expr> {
    if SkipsCondition(c) then None else c
  }

  // The nested evaluation with every join condition taken as read.
  function NestedAsRead(t: Tree, m: Meaning, db: Database): seq<Tuple> {
    match t
    case Leaf(input) => Singles(db(input.id))
    case Node(j, l, _) => ExtendAll(t, AsRead(j.condition), j.joinType, m, db, NestedAsRead(l, m, db))
  }

  function SpreadCondition(j: Join): Option<Expr> {
    if j.joinType == LEFT then AsRead(j.condition) else None
  }

  // All levels extended without the inner conditions.
  function Spread(t: Tree, m: Meaning, db: Database): seq<Tuple> {
    match t
    case Leaf(input) => Singles(db(input.id))
    case Node(j, l, _) => ExtendAll(t, SpreadCondition(j), j.joinType, m, db, Spread(l, m, db))
  }

  predicate InnerHolds(t: Tree, m: Meaning, tp: Tuple)
    requires |tp| == |Inputs(t)|
  {
    t.Node? ==>
      && (t.join.joinType == INNER ==> Holds(AsRead(t.join.condition), m, TreeEnv(t, tp)))
      && InnerHolds(t.left, m, tp[..|tp| - 1])
  }

  function InnerTest(t: Tree, m: Meaning): Tuple -> bool {
    tp => |tp| == |Inputs(t)| && InnerHolds(t, m, tp)
  }

  ghost predicate AllShaped(t: Tree, tps: seq<Tuple>) {
    forall k :: 0 <= k < |tps| ==> Shaped(t, tps[k])
  }

  lemma {:induction false} SinglesShaped(input: Input, rows: seq<Row>)
    requires forall k :: 0 <= k < |rows| ==> |rows[k]| == input.width
    ensures AllShaped(Leaf(input), Singles(rows))
  {
    if rows != [] { SinglesShaped(input, rows[1..]); }
  }

  lemma {:induction false} ExtendShaped(t: Tree, tp: Tuple, rows: seq<Row>, keep: Row -> bool, jt: JoinType)
    requires t.Node? && Shaped(t.left, tp)
    requires forall k :: 0 <= k < |rows| ==> |rows[k]| == t.right.width
    ensures AllShaped(t, Extend(tp, rows, keep, jt, t.right.width))
  {
    var ms := Matching(tp, rows, keep);
    forall k | 0 <= k < |ms| ensures Shaped(t, ms[k]) {
      MatchingMembers(tp, rows, keep, k);
    }
  }

  lemma {:induction false} ExtendAllShaped(t: Tree, c: Option<Expr>, jt: JoinType, m: Meaning, db: Database,
                                           tps: seq<Tuple>)
    requires t.Node? && AllShaped(t.left, tps) && RowsFit(t, db)
    ensures AllShaped(t, ExtendAll(t, c, jt, m, db, tps))
  {
    if tps != [] {
      assert Inputs(t)[|Inputs(t)| - 1] == t.right;
      ExtendShaped(t, tps[0], db(t.right.id), JoinTest(t, c, m, tps[0]), jt);
      ExtendAllShaped(t, c, jt, m, db, tps[1..]);
    }
  }

  lemma {:induction false} SpreadShaped(t: Tree, m: Meaning, db: Database)
    requires RowsFit(t, db)
    ensures AllShaped(t, Spread(t, m, db))
  {
    match t
    case Leaf(input) =>
      assert input in Inputs(t);
      SinglesShaped(input, db(input.id));
    case Node(j, l, _) =>
      RowsFitLeft(t, db);
      SpreadShaped(l, m, db);
      ExtendAllShaped(t, SpreadCondition(j), j.joinType, m, db, Spread(l, m, db));
  }

  lemma RowsFitLeft(t: Tree, db: Database)
    requires t.Node? && RowsFit(t, db)
    ensures RowsFit(t.left, db)
  {
  }

  // Selecting the extensions of a tuple is extending it by the rows that pass, if the tuple
  // passes: an inner level takes all rows before, an outer one applies its condition already.
  lemma {:induction false} ExtendThenSelect(tp: Tuple, rows: seq<Row>, spread: Row -> bool, keep: Row -> bool,
                                            jt: JoinType, w: nat, test: Tuple -> bool, ok: bool)
    requires forall row: Row :: test(tp + [row]) <==> ok && (jt == INNER ==> keep(row))
    requires forall row: Row :: spread(row) <==> jt == INNER || keep(row)
    ensures Select(Extend(tp, rows, spread, jt, w), test) == if ok then Extend(tp, rows, keep, jt, w) else []
  {
    var all := Extend(tp, rows, spread, jt, w);
    if jt == INNER && ok {
      MatchingThenSelect(tp, rows, spread, keep, test);
    } else {
      forall k | 0 <= k < |all| ensures test(all[k]) == ok {
        ExtendMembers(tp, rows, spread, jt, w, k);
      }
      SelectAll(all, test, ok);
      if jt == LEFT { MatchingAgrees(tp, rows, spread, keep); }
    }
  }

  // One tuple: selecting after the spread is extending after the selection.
  lemma {:induction false} SelectExtended(t: Tree, m: Meaning, tp: Tuple, rows: seq<Row>)
    requires t.Node? && |tp| == |Inputs(t.left)|
    ensures
      var j, w := t.join, t.right.width;
      Select(Extend(tp, rows, JoinTest(t, SpreadCondition(j), m, tp), j.joinType, w), InnerTest(t, m))
      == if InnerHolds(t.left, m, tp) then Extend(tp, rows, JoinTest(t, AsRead(j.condition), m, tp), j.joinType, w)
         else []
  {
    var j := t.join;
    var spread, keep := JoinTest(t, SpreadCondition(j), m, tp), JoinTest(t, AsRead(j.condition), m, tp);
    var test, ok := InnerTest(t, m), InnerHolds(t.left, m, tp);
    forall row: Row
      ensures test(tp + [row]) <==> ok && (j.joinType == INNER ==> keep(row))
    {
      assert (tp + [row])[..|tp|] == tp;
    }
    ExtendThenSelect(tp, rows, spread, keep, j.joinType, t.right.width, test, ok);
  }

  lemma {:induction false} ExtendMembers(tp: Tuple, rows: seq<Row>, keep: Row -> bool, jt: JoinType, w: nat, k: nat)
    requires k < |Extend(tp, rows, keep, jt, w)|
    ensures exists row: Row :: Extend(tp, rows, keep, jt, w)[k] == tp + [row]
  {
    if Matching(tp, rows, keep) != [] {
      MatchingMembers(tp, rows, keep, k);
    }
  }

  lemma {:induction false} SelectExtendedAll(t: Tree, m: Meaning, db: Database, tps: seq<Tuple>)
    requires t.Node? && forall k :: 0 <= k < |tps| ==> |tps[k]| == |Inputs(t.left)|
    ensures Select(ExtendAll(t, SpreadCondition(t.join), t.join.joinType, m, db, tps), InnerTest(t, m))
      == ExtendAll(t, AsRead(t.join.condition), t.join.joinType, m, db, Select(tps, InnerTest(t.left, m)))
  {
    if tps != [] {
      var j, tp, test := t.join, tps[0], InnerTest(t, m);
      var head := Extend(tp, db(t.right.id), JoinTest(t, SpreadCondition(j), m, tp), j.joinType, t.right.width);
      var tail := ExtendAll(t, SpreadCondition(j), j.joinType, m, db, tps[1..]);
      var passed := Select(tps[1..], InnerTest(t.left, m));
      assert ExtendAll(t, SpreadCondition(j), j.joinType, m, db, tps) == head + tail;
      SelectAppend(head, tail, test);
      SelectExtendedAll(t, m, db, tps[1..]);
      SelectExtended(t, m, tp, db(t.right.id));
      if InnerHolds(t.left, m, tp) {
        assert Select(tps, InnerTest(t.left, m)) == [tp] + passed;
        ExtendAllCons(t, AsRead(j.condition), j.joinType, m, db, tp, passed);
      } else {
        assert Select(tps, InnerTest(t.left, m)) == passed;
      }
    }
  }

  lemma ExtendAllCons(t: Tree, c: Option<Expr>, jt: JoinType, m: Meaning, db: Database, tp: Tuple, rest: seq<Tuple>)
    requires t.Node?
    ensures ExtendAll(t, c, jt, m, db, [tp] + rest)
      == Extend(tp, db(t.right.id), JoinTest(t, c, m, tp), jt, t.right.width) + ExtendAll(t, c, jt, m, db, rest)
  {
  }

  /** The nested evaluation is the spread of all levels, filtered once by all inner
      conditions: a LEFT join keeps every tuple of its left operand, so the conditions
      below it can wait. */
  lemma {:induction false} NestedIsSelectedSpread(t: Tree, m: Meaning, db: Database)
    requires RowsFit(t, db)
    ensures NestedAsRead(t, m, db) == Select(Spread(t, m, db), InnerTest(t, m))
  {
    SpreadShaped(t, m, db);
    match t
    case Leaf(input) =>
      SelectAll(Spread(t, m, db), InnerTest(t, m), true);
    case Node(_, l, _) =>
      RowsFitLeft(t, db);
      NestedIsSelectedSpread(l, m, db);
      SpreadShaped(l, m, db);
      SelectExtendedAll(t, m, db, Spread(l, m, db));
  }

  // ---------------------------------------------------------------------------
  // The levels of the flattened node are the spread
  // ---------------------------------------------------------------------------

  lemma {:induction false} JoinAtLevel(s: Tree, t: Tree)
    requires IsSubtree(s, t) && s.Node?
    ensures |Joins(s)| <= |Joins(t)|
    ensures Joins(t)[|Joins(t)| - |Joins(s)|] == s.join
    ensures Inputs(t)[|Joins(s)|] == s.right
  {
    SubtreeInputs(s, t);
    if s != t { JoinAtLevel(s, t.left); }
  }

  lemma {:induction false} WellScopedSubtree(s: Tree, t: Tree)
    requires IsSubtree(s, t) && WellScoped(t)
    ensures WellScoped(s)
  {
    if s != t { WellScopedSubtree(s, t.left); }
  }

  lemma {:induction false} LevelTestAgrees(f: Option<Filter>, s: Tree, t: Tree, m: Meaning, tp: Tuple, row: Row)
    requires IsSubtree(s, t) && s.Node? && WellFormed(f, t)
    requires Shaped(s, tp + [row])
    ensures var c := OuterOf(f, Inputs(t), Joins(t), s.join);
            LevelTest(Inputs(t), c, m, tp)(row) == JoinTest(s, SpreadCondition(s.join), m, tp)(row)
  {
    SubtreeInputs(s, t);
    WellScopedSubtree(s, t);
    var full := tp + [row];
    assert full[..|Inputs(s)|] == full;
    var c := SpreadCondition(s.join);
    if c.Some? {
      RebindingPreservesValue(f, s, t, full, c.value, m);
    }
  }

  lemma {:induction false} ExtendLevelAgrees(f: Option<Filter>, s: Tree, t: Tree, m: Meaning, db: Database,
                                             tps: seq<Tuple>)
    requires IsSubtree(s, t) && s.Node? && WellFormed(f, t) && RowsFit(t, db)
    requires AllShaped(s.left, tps)
    ensures |Joins(s)| < |Inputs(t)|
    ensures ExtendLevel(Inputs(t), |Joins(s)|, OuterOf(f, Inputs(t), Joins(t), s.join), s.join.joinType, m, db, tps)
            == ExtendAll(s, SpreadCondition(s.join), s.join.joinType, m, db, tps)
  {
    JoinAtLevel(s, t);
    if tps != [] {
      var rows := db(s.right.id);
      assert Inputs(t)[|Joins(s)|] in Inputs(t);
      forall k | 0 <= k < |rows|
        ensures LevelTest(Inputs(t), OuterOf(f, Inputs(t), Joins(t), s.join), m, tps[0])(rows[k])
                == JoinTest(s, SpreadCondition(s.join), m, tps[0])(rows[k])
      {
        LevelTestAgrees(f, s, t, m, tps[0], rows[k]);
      }
      MatchingAgrees(tps[0], rows, LevelTest(Inputs(t), OuterOf(f, Inputs(t), Joins(t), s.join), m, tps[0]),
                     JoinTest(s, SpreadCondition(s.join), m, tps[0]));
      ExtendLevelAgrees(f, s, t, m, db, tps[1..]);
    }
  }

  lemma {:induction false} RowsFitSubtree(s: Tree, t: Tree, db: Database)
    requires IsSubtree(s, t) && RowsFit(t, db)
    ensures RowsFit(s, db)
  {
    if s != t {
      RowsFitLeft(t, db);
      RowsFitSubtree(s, t.left, db);
    }
  }

  lemma {:induction false} LevelsStep(f: Option<Filter>, s: Tree, t: Tree, m: Meaning, db: Database)
    requires IsSubtree(s, t) && s.Node?
    ensures |Joins(s)| <= |Joins(t)| && |Joins(s)| == |Joins(s.left)| + 1
    ensures var ins, js := Inputs(t), Joins(t);
            var types, os := LevelTypes(js), OuterConditions(f, ins, js);
            Levels(ins, types, os, |Joins(s)|, m, db)
            == ExtendLevel(ins, |Joins(s)|, OuterOf(f, ins, js, s.join), s.join.joinType, m, db,
                           Levels(ins, types, os, |Joins(s.left)|, m, db))
  {
    JoinAtLevel(s, t);
    var ins, js, k := Inputs(t), Joins(t), |Joins(s)|;
    assert OuterCondition(OuterConditions(f, ins, js), k) == OuterOf(f, ins, js, s.join);
    assert LevelTypes(js)[k - 1] == s.join.joinType;
  }

  /** Level `k` of the flattened node, with the join type and outer condition the node
      reports for that level, computes the spread of the tree's first `k` joins. */
  lemma {:induction false} LevelsAreSpread(f: Option<Filter>, s: Tree, t: Tree, m: Meaning, db: Database)
    requires IsSubtree(s, t) && WellFormed(f, t) && RowsFit(t, db)
    ensures |Joins(s)| <= |Joins(t)|
    ensures Levels(Inputs(t), LevelTypes(Joins(t)), OuterConditions(f, Inputs(t), Joins(t)), |Joins(s)|, m, db)
            == Spread(s, m, db)
    decreases s
  {
    SubtreeInputs(s, t);
    if s.Node? {
      SubtreeTransitive(s, t);
      LevelsAreSpread(f, s.left, t, m, db);
      RowsFitSubtree(s.left, t, db);
      SpreadShaped(s.left, m, db);
      LevelsStep(f, s, t, m, db);
      ExtendLevelAgrees(f, s, t, m, db, Spread(s.left, m, db));
    }
  }

  // ---------------------------------------------------------------------------
  // The collected condition
  // ---------------------------------------------------------------------------

  // The collected conjunction is true exactly when the accumulated condition and every
  // collected join condition are.
  ghost predicate AllInnerHold(js: seq<Join>, m: Meaning, env: Env) {
    forall k :: 0 <= k < |js| && js[k].joinType == INNER ==> Holds(AsRead(js[k].condition), m, env)
  }

  lemma {:induction false} CollectedHolds(acc: Option<Expr>, js: seq<Join>, m: Meaning, env: Env)
    ensures Holds(Collected(acc, js), m, env) <==> Holds(acc, m, env) && AllInnerHold(js, m, env)
    decreases |js|
  {
    if js != [] {
      CollectedHolds(Conjoin(acc, js[0]), js[1..], m, env);
      assert Holds(Conjoin(acc, js[0]), m, env)
        <==> Holds(acc, m, env) && (js[0].joinType == INNER ==> Holds(AsRead(js[0].condition), m, env));
      AllInnerSplit(js, m, env);
    }
  }

  // Reading a reference of the original conditions directly on the flat tuple.
  function ThroughEnv(f: Option<Filter>, t: Tree, tp: Tuple): Env
    requires |tp| <= |Inputs(t)|
  {
    (n: NodeId, i: nat) =>
      var r := Resolver(f, Inputs(t), Joins(t))(n, i); ReadInput(Inputs(t), tp, r.0, r.1)
  }

  function Anything(): (NodeId, nat) -> bool {
    (n: NodeId, i: nat) => true
  }

  lemma {:induction false} AnythingGoes(e: Expr)
    ensures RefsIn(e, Anything())
    decreases e, 1
  {
    match e
    case ColumnRef(_, _) =>
    case Constant(_) =>
    case UOper(_, x) => AnythingGoes(x);
    case BinOper(_, x, y) => AnythingGoes(x); AnythingGoes(y);
    case InValues(x, vs) => AnythingGoes(x); AnythingGoesAll(vs);
    case CaseExpr(ws, ts, es) => AnythingGoesAll(ws); AnythingGoesAll(ts); AnythingGoesAll(es);
    case FunctionOper(_, args) => AnythingGoesAll(args);
  }

  lemma {:induction false} AnythingGoesAll(es: seq<Expr>)
    ensures RefsInAll(es, Anything())
    decreases es, 0
  {
    if es != [] { AnythingGoes(es[0]); AnythingGoesAll(es[1..]); }
  }

  lemma {:induction false} RebindIsThrough(f: Option<Filter>, t: Tree, tp: Tuple, e: Expr, m: Meaning)
    requires |tp| <= |Inputs(t)|
    ensures Eval(Rebind(e, f, Inputs(t), Joins(t)), m, FlatEnv(Inputs(t), tp)) == Eval(e, m, ThroughEnv(f, t, tp))
  {
    AnythingGoes(e);
    var through, flat := ThroughEnv(f, t, tp), FlatEnv(Inputs(t), tp);
    MapRefsPreservesValue(e, Resolver(f, Inputs(t), Joins(t)), Anything(), m, through, flat);
  }

  lemma {:induction false} InnerHoldsThrough(f: Option<Filter>, s: Tree, t: Tree, m: Meaning, full: Tuple)
    requires IsSubtree(s, t) && WellFormed(f, t)
    requires |full| == |Inputs(t)| && Shaped(t, full)
    ensures |Inputs(s)| <= |full|
    ensures InnerHolds(s, m, full[..|Inputs(s)|]) <==> AllInnerHold(Joins(s), m, ThroughEnv(f, t, full))
    decreases s
  {
    SubtreeInputs(s, t);
    if s.Node? {
      var k := |Inputs(s)|;
      var env := ThroughEnv(f, t, full);
      SubtreeTransitive(s, t);
      WellScopedSubtree(s, t);
      assert full[..k][..k - 1] == full[..k - 1];
      InnerHoldsThrough(f, s.left, t, m, full);
      var c := AsRead(s.join.condition);
      if c.Some? {
        RebindIsThrough(f, t, full, c.value, m);
        RebindingPreservesValue(f, s, t, full, c.value, m);
      }
      assert Joins(s)[1..] == Joins(s.left);
      AllInnerSplit(Joins(s), m, env);
    }
  }

  lemma AllInnerSplit(js: seq<Join>, m: Meaning, env: Env)
    requires js != []
    ensures AllInnerHold(js, m, env)
      <==> (js[0].joinType == INNER ==> Holds(AsRead(js[0].condition), m, env)) && AllInnerHold(js[1..], m, env)
  {
  }

  /** The rebound condition of the node is true on a tuple exactly when the filter and all
      inner join conditions are true on it, each in its own scope. */
  lemma {:induction false} CollectedConditionMeaning(f: Option<Filter>, t: Tree, m: Meaning, tp: Tuple)
    requires WellFormed(f, t) && Shaped(t, tp)
    ensures FlatTest(Inputs(t), InnerCondition(f, Inputs(t), Joins(t)), m)(tp)
      <==> InnerTest(t, m)(tp) && FilterTest(t, FilterCondition(f), m)(tp)
  {
    var env := ThroughEnv(f, t, tp);
    var c := Collected(FilterCondition(f), Joins(t));
    assert tp[..|Inputs(t)|] == tp;
    CollectedHolds(FilterCondition(f), Joins(t), m, env);
    InnerHoldsThrough(f, t, t, m, tp);
    if c.Some? { RebindIsThrough(f, t, tp, c.value, m); }
    if f.Some? {
      RebindIsThrough(f, t, tp, f.value.condition, m);
      RebindingPreservesValue(f, t, t, tp, f.value.condition, m);
    }
  }

  // ---------------------------------------------------------------------------
  // Main results
  // ---------------------------------------------------------------------------

  /** For every well-formed tree and filter, the flattened node yields exactly the tuples,
      in the same order, that the nested joins and the filter yield when every join
      condition is taken as the constructor reads it. */
  lemma {:induction false} FlatteningTheorem(f: Option<Filter>, t: Tree, m: Meaning, db: Database)
    requires WellFormed(f, t) && RowsFit(t, db)
    ensures FlatQuery(f, t, m, db) == Select(NestedAsRead(t, m, db), FilterTest(t, FilterCondition(f), m))
  {
    var spread := Spread(t, m, db);
    LevelsAreSpread(f, t, t, m, db);
    NestedIsSelectedSpread(t, m, db);
    SpreadShaped(t, m, db);
    var flat := FlatTest(Inputs(t), InnerCondition(f, Inputs(t), Joins(t)), m);
    forall k | 0 <= k < |spread|
      ensures flat(spread[k]) <==> InnerTest(t, m)(spread[k]) && FilterTest(t, FilterCondition(f), m)(spread[k])
    {
      CollectedConditionMeaning(f, t, m, spread[k]);
    }
    SelectTwice(spread, InnerTest(t, m), FilterTest(t, FilterCondition(f), m), flat);
  }

  // No join condition is the NULL literal of boolean type.
  predicate NoNullCondition(t: Tree) {
    t.Node? ==> t.join.condition != Some(Constant(NullBool)) && NoNullCondition(t.left)
  }

  lemma {:induction false} ExtendAllAsRead(t: Tree, m: Meaning, db: Database, tps: seq<Tuple>)
    requires t.Node? && t.join.condition != Some(Constant(NullBool))
    ensures ExtendAll(t, AsRead(t.join.condition), t.join.joinType, m, db, tps)
            == ExtendAll(t, t.join.condition, t.join.joinType, m, db, tps)
  {
    if tps != [] {
      var c := t.join.condition;
      MatchingAgrees(tps[0], db(t.right.id), JoinTest(t, AsRead(c), m, tps[0]), JoinTest(t, c, m, tps[0]));
      ExtendAllAsRead(t, m, db, tps[1..]);
    }
  }

  // A join on NULL that yields what the join without a condition does: a LEFT join with
  // nothing to join with, or only with the row that stands for nothing.
  predicate HarmlessNull(j: Join, rows: seq<Row>, width: nat) {
    j.condition == Some(Constant(NullBool)) ==> j.joinType == LEFT && (rows == [] || rows == [NullRow(width)])
  }

  predicate HarmlessNulls(t: Tree, db: Database) {
    t.Node? ==> HarmlessNull(t.join, db(t.right.id), t.right.width) && HarmlessNulls(t.left, db)
  }

  lemma {:induction false} HarmlessExtend(t: Tree, m: Meaning, db: Database, tps: seq<Tuple>)
    requires t.Node? && AllLong(t.left, tps) && HarmlessNull(t.join, db(t.right.id), t.right.width)
    ensures ExtendAll(t, AsRead(t.join.condition), t.join.joinType, m, db, tps)
         == ExtendAll(t, t.join.condition, t.join.joinType, m, db, tps)
  {
    if t.join.condition != Some(Constant(NullBool)) {
      ExtendAllAsRead(t, m, db, tps);
    } else if tps != [] {
      var tp, rows := tps[0], db(t.right.id);
      MatchingCount(tp, rows, JoinTest(t, t.join.condition, m, tp), false);
      assert rows != [] ==> rows[1..] == [] && Matching(tp, rows, JoinTest(t, None, m, tp)) == [tp + [rows[0]]];
      HarmlessExtend(t, m, db, tps[1..]);
    }
  }

  lemma {:induction false} ExtendAllLong(t: Tree, c: Option<Expr>, m: Meaning, db: Database, tps: seq<Tuple>)
    requires t.Node? && AllLong(t.left, tps)
    ensures AllLong(t, ExtendAll(t, c, t.join.joinType, m, db, tps))
  {
    if tps != [] {
      var rows, keep, jt, w := db(t.right.id), JoinTest(t, c, m, tps[0]), t.join.joinType, t.right.width;
      var head := Extend(tps[0], rows, keep, jt, w);
      forall k | 0 <= k < |head| ensures |head[k]| == |Inputs(t)| {
        ExtendMembers(tps[0], rows, keep, jt, w, k);
      }
      ExtendAllLong(t, c, m, db, tps[1..]);
    }
  }

  lemma {:induction false} NestedLong(t: Tree, m: Meaning, db: Database)
    ensures AllLong(t, Nested(t, m, db))
  {
    match t
    case Leaf(input) => SinglesCount(db(input.id));
    case Node(j, l, _) =>
      NestedLong(l, m, db);
      ExtendAllLong(t, j.condition, m, db, Nested(l, m, db));
  }

  lemma {:induction false} HarmlessAgrees(t: Tree, m: Meaning, db: Database)
    requires HarmlessNulls(t, db)
    ensures NestedAsRead(t, m, db) == Nested(t, m, db)
  {
    if t.Node? {
      NestedLong(t.left, m, db);
      HarmlessAgrees(t.left, m, db);
      HarmlessExtend(t, m, db, Nested(t.left, m, db));
    }
  }

  lemma {:induction false} NoNullIsHarmless(t: Tree, db: Database)
    requires NoNullCondition(t)
    ensures HarmlessNulls(t, db)
  {
    if t.Node? { NoNullIsHarmless(t.left, db); }
  }

  /** Flattening preserves meaning under three-valued logic: for every left-deep tree of
      INNER and LEFT joins with an optional filter on top, the flattened node and the
      nested query yield the same tuples, in the same order, unless a join on the NULL literal
      has rows to join with. */
  lemma {:induction false} FlatteningPreservesMeaning(f: Option<Filter>, t: Tree, m: Meaning, db: Database)
    requires WellFormed(f, t) && RowsFit(t, db) && HarmlessNulls(t, db)
    ensures FlatQuery(f, t, m, db) == Query(f, t, m, db)
  {
    FlatteningTheorem(f, t, m, db);
    HarmlessAgrees(t, m, db);
  }

  // ---------------------------------------------------------------------------
  // The NULL literal as a join condition
  // ---------------------------------------------------------------------------

  // Absent or a boolean literal.
  predicate Plain(c: Option<Expr>) {
    c.Some? ==> c.value.Constant? && (c.value.literal.BoolLit? || c.value.literal.NullBool?)
  }

  predicate PlainConditions(t: Tree) {
    t.Node? ==> Plain(t.join.condition) && PlainConditions(t.left)
  }

  // The literal FALSE or NULL, on which no rows match.
  predicate NeverTrue(c: Option<Expr>) {
    c == Some(Constant(BoolLit(false))) || c == Some(Constant(NullBool))
  }

  function WidthOf(ins: seq<Input>, n: NodeId): nat {
    if ins == [] then 0
    else
      var k := |ins| - 1;
      if ins[k].id == n then ins[k].width else WidthOf(ins[..k], n)
  }

  // `rows(n)` rows of zeros for every input.
  function Zeros(ins: seq<Input>, rows: NodeId -> nat): Database {
    (n: NodeId) => seq(rows(n), _ => seq(WidthOf(ins, n), _ => Int(0)))
  }

  lemma {:induction false} WidthOfInput(ins: seq<Input>, k: nat)
    requires k < |ins| && forall i, j :: 0 <= i < j < |ins| ==> ins[i].id != ins[j].id
    ensures WidthOf(ins, ins[k].id) == ins[k].width
  {
    if k < |ins| - 1 { WidthOfInput(ins[..|ins| - 1], k); }
  }

  lemma {:induction false} ZerosFit(t: Tree, rows: NodeId -> nat)
    requires Distinct(t)
    ensures RowsFit(t, Zeros(Inputs(t), rows))
  {
    InputIdsDistinct(t);
    forall input | input in Inputs(t)
      ensures WidthOf(Inputs(t), input.id) == input.width
    {
      var k :| 0 <= k < |Inputs(t)| && Inputs(t)[k] == input;
      WidthOfInput(Inputs(t), k);
    }
  }

  ghost predicate AllLong(t: Tree, tps: seq<Tuple>) { forall k :: 0 <= k < |tps| ==> |tps[k]| == |Inputs(t)| }

  lemma {:induction false} MatchingCount(tp: Tuple, rows: seq<Row>, keep: Row -> bool, b: bool)
    requires forall k :: 0 <= k < |rows| ==> keep(rows[k]) == b
    ensures |Matching(tp, rows, keep)| == if b then |rows| else 0
  {
    if rows != [] { MatchingCount(tp, rows[1..], keep, b); }
  }

  // How many tuples a join with a plain condition makes of each tuple.
  function Fanout(c: Option<Expr>, jt: JoinType, rows: nat): nat {
    if NeverTrue(c) || rows == 0 then (if jt == LEFT then 1 else 0) else rows
  }

  lemma {:induction false} ExtendCount(t: Tree, c: Option<Expr>, m: Meaning, db: Database, tp: Tuple)
    requires t.Node? && |tp| == |Inputs(t.left)|
    requires Plain(c)
    ensures var all := Extend(tp, db(t.right.id), JoinTest(t, c, m, tp), t.join.joinType, t.right.width);
            |all| == Fanout(c, t.join.joinType, |db(t.right.id)|) && AllLong(t, all)
  {
    var rows, keep, jt, w := db(t.right.id), JoinTest(t, c, m, tp), t.join.joinType, t.right.width;
    MatchingCount(tp, rows, keep, !NeverTrue(c));
    forall k | 0 <= k < |Extend(tp, rows, keep, jt, w)|
      ensures |Extend(tp, rows, keep, jt, w)[k]| == |Inputs(t)|
    {
      ExtendMembers(tp, rows, keep, jt, w, k);
    }
  }

  lemma {:induction false} ExtendAllCount(t: Tree, c: Option<Expr>, m: Meaning, db: Database, tps: seq<Tuple>)
    requires t.Node? && AllLong(t.left, tps)
    requires Plain(c)
    ensures AllLong(t, ExtendAll(t, c, t.join.joinType, m, db, tps))
    ensures |ExtendAll(t, c, t.join.joinType, m, db, tps)| == |tps| * Fanout(c, t.join.joinType, |db(t.right.id)|)
  {
    if tps != [] {
      ExtendCount(t, c, m, db, tps[0]);
      ExtendAllCount(t, c, m, db, tps[1..]);
      OneMore(|tps| - 1, Fanout(c, t.join.joinType, |db(t.right.id)|));
    }
  }

  lemma OneMore(a: nat, b: nat)
    ensures (a + 1) * b == b + a * b
  {
  }

  lemma {:induction false} SinglesCount(rows: seq<Row>)
    ensures |Singles(rows)| == |rows| && forall k :: 0 <= k < |rows| ==> |Singles(rows)[k]| == 1
  {
    if rows != [] { SinglesCount(rows[1..]); }
  }

  lemma SelectEverything(t: Tree, tps: seq<Tuple>, m: Meaning)
    requires AllLong(t, tps)
    ensures Select(tps, FilterTest(t, None, m)) == tps
  {
    SelectAll(tps, FilterTest(t, None, m), true);
  }

  predicate FalseInner(j: Join) {
    j.joinType == INNER && j.condition == Some(Constant(BoolLit(false)))
  }

  predicate SomeFalseInner(t: Tree) {
    t.Node? && (FalseInner(t.join) || SomeFalseInner(t.left))
  }

  // The leftmost input or one that an inner join adds is empty, or an inner join is on FALSE.
  predicate EmptyInput(t: Tree, db: Database) {
    match t
    case Leaf(input) => db(input.id) == []
    case Node(j, l, r) => FalseInner(j) || (j.joinType == INNER && db(r.id) == []) || EmptyInput(l, db)
  }

  lemma {:induction false} FalseInnerIsEmpty(t: Tree, db: Database)
    requires SomeFalseInner(t)
    ensures EmptyInput(t, db)
  {
    if !FalseInner(t.join) { FalseInnerIsEmpty(t.left, db); }
  }

  // With conditions as read the joins yield nothing exactly then, and NULL only takes away.
  lemma {:induction false} PlainCounts(t: Tree, m: Meaning, db: Database)
    requires PlainConditions(t)
    ensures AllLong(t, NestedAsRead(t, m, db)) && AllLong(t, Nested(t, m, db))
    ensures |Nested(t, m, db)| <= |NestedAsRead(t, m, db)|
    ensures NestedAsRead(t, m, db) == [] <==> EmptyInput(t, db)
  {
    match t
    case Leaf(input) => SinglesCount(db(input.id));
    case Node(j, l, r) =>
      PlainCounts(l, m, db);
      var tps, read, rows := Nested(l, m, db), NestedAsRead(l, m, db), |db(r.id)|;
      ExtendAllCount(t, j.condition, m, db, tps);
      ExtendAllCount(t, AsRead(j.condition), m, db, read);
      Products(|tps|, |read|, Fanout(j.condition, j.joinType, rows), Fanout(AsRead(j.condition), j.joinType, rows));
  }

  lemma Products(a: nat, b: nat, c: nat, d: nat)
    requires a <= b && c <= d
    ensures a * c <= b * d && (b * d == 0 <==> b == 0 || d == 0)
  {
    MulMono(a, b, c);
    MulMono(c, d, b);
    ZeroProduct(b, d);
  }

  lemma ZeroProduct(a: nat, b: nat)
    ensures a * b == 0 <==> a == 0 || b == 0
  {
  }

  // Joins that keep every tuple keep different tuples apart.
  lemma {:induction false} ExtendAllInjective(t: Tree, c: Option<Expr>, m: Meaning, db: Database,
                                              a: seq<Tuple>, b: seq<Tuple>)
    requires t.Node? && AllLong(t.left, a) && AllLong(t.left, b)
    requires Plain(c)
    requires Fanout(c, t.join.joinType, |db(t.right.id)|) >= 1
    requires ExtendAll(t, c, t.join.joinType, m, db, a) == ExtendAll(t, c, t.join.joinType, m, db, b)
    ensures a == b
  {
    var jt, rows, w := t.join.joinType, db(t.right.id), t.right.width;
    ExtendAllCount(t, c, m, db, a);
    ExtendAllCount(t, c, m, db, b);
    ZeroProduct(|a|, Fanout(c, jt, |rows|));
    ZeroProduct(|b|, Fanout(c, jt, |rows|));
    if a != [] {
      var x := Extend(a[0], rows, JoinTest(t, c, m, a[0]), jt, w);
      var y := Extend(b[0], rows, JoinTest(t, c, m, b[0]), jt, w);
      var xs, ys := ExtendAll(t, c, jt, m, db, a[1..]), ExtendAll(t, c, jt, m, db, b[1..]);
      ExtendCount(t, c, m, db, a[0]);
      ExtendCount(t, c, m, db, b[0]);
      ExtendMembers(a[0], rows, JoinTest(t, c, m, a[0]), jt, w, 0);
      ExtendMembers(b[0], rows, JoinTest(t, c, m, b[0]), jt, w, 0);
      SameParts(x, xs, y, ys);
      SamePrefix(a[0], b[0], x[0]);
      ExtendAllInjective(t, c, m, db, a[1..], b[1..]);
    }
  }

  lemma SameParts(x: seq<Tuple>, xs: seq<Tuple>, y: seq<Tuple>, ys: seq<Tuple>)
    requires x + xs == y + ys && |x| == |y|
    ensures x == y && xs == ys
  {
    assert x == (x + xs)[..|x|] == (y + ys)[..|y|] == y;
    assert xs == (x + xs)[|x|..] == (y + ys)[|y|..] == ys;
  }

  lemma SamePrefix(a: Tuple, b: Tuple, x: Tuple)
    requires |a| == |b| && (exists r: Row :: x == a + [r]) && (exists r: Row :: x == b + [r])
    ensures a == b
  {
    assert a == x[..|a|] == b;
  }

  // A LEFT join on NULL pads every tuple.
  lemma {:induction false} NullPads(t: Tree, m: Meaning, db: Database, tps: seq<Tuple>, k: nat)
    requires t.Node? && t.join == Join(t.join.id, Some(Constant(NullBool)), LEFT)
    requires k < |ExtendAll(t, t.join.condition, LEFT, m, db, tps)|
    ensures ExtendAll(t, t.join.condition, LEFT, m, db, tps)[k] != []
    ensures var tp := ExtendAll(t, t.join.condition, LEFT, m, db, tps)[k]; tp[|tp| - 1] == NullRow(t.right.width)
  {
    MatchingCount(tps[0], db(t.right.id), JoinTest(t, t.join.condition, m, tps[0]), false);
    if k > 0 { NullPads(t, m, db, tps[1..], k - 1); }
  }

  lemma FirstRowAppears(t: Tree, m: Meaning, db: Database, tps: seq<Tuple>)
    requires t.Node? && tps != [] && |tps[0]| == |Inputs(t.left)| && db(t.right.id) != []
    ensures ExtendAll(t, None, LEFT, m, db, tps) != []
    ensures ExtendAll(t, None, LEFT, m, db, tps)[0] == tps[0] + [db(t.right.id)[0]]
  {
    var rows, keep := db(t.right.id), JoinTest(t, None, m, tps[0]);
    assert Matching(tps[0], rows, keep) == [tps[0] + [rows[0]]] + Matching(tps[0], rows[1..], keep);
  }

  // One join on NULL, read as a join without a condition.
  lemma {:induction false} HarmfulExtend(t: Tree, m: Meaning, db: Database, tps: seq<Tuple>, read: seq<Tuple>)
    requires t.Node? && AllLong(t.left, tps) && AllLong(t.left, read) && |tps| <= |read|
    requires t.join.condition == Some(Constant(NullBool)) && !HarmlessNull(t.join, db(t.right.id), t.right.width)
    requires ExtendAll(t, None, t.join.joinType, m, db, read) != []
    ensures ExtendAll(t, t.join.condition, t.join.joinType, m, db, tps)
         != ExtendAll(t, None, t.join.joinType, m, db, read)
  {
    var jt, rows, c := t.join.joinType, db(t.right.id), t.join.condition;
    var all, allRead := ExtendAll(t, c, jt, m, db, tps), ExtendAll(t, None, jt, m, db, read);
    ExtendAllCount(t, c, m, db, tps);
    ExtendAllCount(t, None, m, db, read);
    if jt == LEFT && all == allRead {
      if |rows| == 1 {
        NullPads(t, m, db, tps, 0);
        FirstRowAppears(t, m, db, read);
      } else {
        TwiceAsMany(|tps|, |read|, |rows|);
      }
    }
  }

  lemma TwiceAsMany(a: nat, b: nat, f: nat)
    requires a <= b && 1 <= b && 2 <= f
    ensures a < b * f
  {
    MulMono(2, f, b);
  }

  lemma {:induction false} HarmfulDiffers(t: Tree, m: Meaning, db: Database)
    requires PlainConditions(t) && !HarmlessNulls(t, db) && !EmptyInput(t, db)
    ensures NestedAsRead(t, m, db) != Nested(t, m, db)
  {
    var j, tps, read := t.join, Nested(t.left, m, db), NestedAsRead(t.left, m, db);
    PlainCounts(t, m, db);
    PlainCounts(t.left, m, db);
    if !HarmlessNull(j, db(t.right.id), t.right.width) {
      HarmfulExtend(t, m, db, tps, read);
    } else {
      HarmfulDiffers(t.left, m, db);
      HarmlessExtend(t, m, db, tps);
      if NestedAsRead(t, m, db) == Nested(t, m, db) {
        ExtendAllInjective(t, AsRead(j.condition), m, db, read, tps);
      }
    }
  }

  /** Where the NULL literal changes the result: for a chain of any length and any join types
      whose conditions are absent or boolean literals, and every database, the flattened node
      is right if and only if every join on NULL is a LEFT join that has nothing to join with
      but the row of NULLs, or the result is empty on other grounds. */
  lemma {:induction false} NullResultExactly(t: Tree, m: Meaning, db: Database)
    requires WellFormed(None, t) && PlainConditions(t) && RowsFit(t, db)
    ensures FlatQuery(None, t, m, db) == Query(None, t, m, db) <==> HarmlessNulls(t, db) || EmptyInput(t, db)
  {
    FlatteningTheorem(None, t, m, db);
    PlainCounts(t, m, db);
    SelectEverything(t, NestedAsRead(t, m, db), m);
    SelectEverything(t, Nested(t, m, db), m);
    if HarmlessNulls(t, db) {
      HarmlessAgrees(t, m, db);
    } else if !EmptyInput(t, db) {
      HarmfulDiffers(t, m, db);
    }
  }

  lemma {:induction false} TwoRowsTell(t: Tree, db: Database)
    requires forall input :: input in Inputs(t) ==> |db(input.id)| == 2
    ensures (EmptyInput(t, db) <==> SomeFalseInner(t)) && (NoNullCondition(t) <==> HarmlessNulls(t, db))
  {
    match t
    case Leaf(input) => assert input in Inputs(t);
    case Node(_, l, r) =>
      assert Inputs(t)[|Inputs(l)|] == r && r in Inputs(t);
      assert forall input :: input in Inputs(l) ==> input in Inputs(t);
      TwoRowsTell(l, db);
  }

  /** So it is right for every database if and only if no condition is the NULL literal, or an
      inner join is on FALSE. */
  lemma {:induction false} NullConditionExactly(t: Tree, m: Meaning)
    requires WellFormed(None, t) && PlainConditions(t)
    ensures (forall db: Database :: RowsFit(t, db) ==> FlatQuery(None, t, m, db) == Query(None, t, m, db))
      <==> NoNullCondition(t) || SomeFalseInner(t)
  {
    if NoNullCondition(t) || SomeFalseInner(t) {
      forall db: Database | RowsFit(t, db) ensures FlatQuery(None, t, m, db) == Query(None, t, m, db) {
        if NoNullCondition(t) { NoNullIsHarmless(t, db); } else { FalseInnerIsEmpty(t, db); }
        NullResultExactly(t, m, db);
      }
    } else {
      var db := Zeros(Inputs(t), (n: NodeId) => 2);
      ZerosFit(t, (n: NodeId) => 2);
      TwoRowsTell(t, db);
      NullResultExactly(t, m, db);
    }
  }
}
