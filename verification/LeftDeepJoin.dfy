/** Flattening of a left-deep tree of joins, with an optional filter on top, into one
    n-ary join (LeftDeepInnerJoin.cpp): the node it builds and what that node means. */
module LeftDeepJoin {
  import opened Basics
  import opened Expressions

  datatype JoinType = INNER | LEFT

  // A node joined as a whole, known by its identity and its number of columns.
  datatype Input = Input(id: NodeId, width: nat)

  datatype Join = Join(id: NodeId, condition: Option<Expr>, joinType: JoinType)

  datatype Filter = Filter(id: NodeId, condition: Expr)

  // A left-deep join tree: the left operand of a join is a tree, the right one a node.
  datatype Tree = Leaf(input: Input) | Node(join: Join, left: Tree, right: Input)

  // ---------------------------------------------------------------------------
  // The nested tree and its meaning
  // ---------------------------------------------------------------------------

  type Row = seq<Value>

  // One row of every input joined so far, leftmost first.
  type Tuple = seq<Row>

  type Database = NodeId -> seq<Row>

  function Inputs(t: Tree): (ins: seq<Input>)
    ensures ins != []
  {
    match t
    case Leaf(input) => [input]
    case Node(_, l, r) => Inputs(l) + [r]
  }

  // The joins of the tree, outermost first, which is the order they are collected in.
  function Joins(t: Tree): (js: seq<Join>)
    ensures |js| == |Inputs(t)| - 1
  {
    match t
    case Leaf(_) => []
    case Node(j, l, _) => [j] + Joins(l)
  }

  function Size(t: Tree): nat {
    match t
    case Leaf(input) => input.width
    case Node(_, l, r) => Size(l) + r.width
  }

  function At(row: Row, i: nat): Value {
    if i < |row| then row[i] else Null
  }

  // What a reference means on a tuple of the tree: a join's columns are those of its
  // inputs put side by side.
  function ReadRef(t: Tree, tp: Tuple, n: NodeId, i: nat): Value
    requires |tp| == |Inputs(t)|
  {
    match t
    case Leaf(input) => if n == input.id then At(tp[0], i) else Null
    case Node(j, l, r) =>
      var k := |tp| - 1;
      if n == j.id then At(Flatten(tp), i)
      else if n == r.id then At(tp[k], i)
      else ReadRef(l, tp[..k], n, i)
  }

  function TreeEnv(t: Tree, tp: Tuple): Env
    requires |tp| == |Inputs(t)|
  {
    (n: NodeId, i: nat) => ReadRef(t, tp, n, i)
  }

  predicate Holds(c: Option<Expr>, m: Meaning, env: Env) {
    c.Some? ==> IsTrue(Eval(c.value, m, env))
  }

  function NullRow(width: nat): Row {
    seq(width, _ => Null)
  }

  // `tp` extended by every row that `keep` accepts, in order.
  function Matching(tp: Tuple, rows: seq<Row>, keep: Row -> bool): seq<Tuple> {
    if rows == [] then []
    else if keep(rows[0]) then [tp + [rows[0]]] + Matching(tp, rows[1..], keep)
    else Matching(tp, rows[1..], keep)
  }

  // A LEFT join keeps a tuple without a match, padded with NULLs.
  function Extend(tp: Tuple, rows: seq<Row>, keep: Row -> bool, jt: JoinType, width: nat): seq<Tuple> {
    var ms := Matching(tp, rows, keep);
    if jt == LEFT && ms == [] then [tp + [NullRow(width)]] else ms
  }

  function Singles(rows: seq<Row>): seq<Tuple> {
    if rows == [] then [] else [[rows[0]]] + Singles(rows[1..])
  }

  function Select(tps: seq<Tuple>, p: Tuple -> bool): seq<Tuple> {
    if tps == [] then []
    else if p(tps[0]) then [tps[0]] + Select(tps[1..], p)
    else Select(tps[1..], p)
  }

  // The row test a join of the tree applies on top of the tuple `tp` of its left operand.
  function JoinTest(t: Tree, c: Option<Expr>, m: Meaning, tp: Tuple): Row -> bool
    requires t.Node?
  {
    row => JoinHolds(t, c, m, tp, row)
  }

  predicate JoinHolds(t: Tree, c: Option<Expr>, m: Meaning, tp: Tuple, row: Row)
    requires t.Node?
  {
    |tp| == |Inputs(t)| - 1 && Holds(c, m, TreeEnv(t, tp + [row]))
  }

  function ExtendAll(t: Tree, c: Option<Expr>, jt: JoinType, m: Meaning, db: Database,
                     tps: seq<Tuple>): seq<Tuple>
    requires t.Node?
  {
    if tps == [] then []
    else Extend(tps[0], db(t.right.id), JoinTest(t, c, m, tps[0]), jt, t.right.width)
         + ExtendAll(t, c, jt, m, db, tps[1..])
  }

  // The nested evaluation: every join is computed from the result of its left operand.
  function Nested(t: Tree, m: Meaning, db: Database): seq<Tuple> {
    match t
    case Leaf(input) => Singles(db(input.id))
    case Node(j, l, _) => ExtendAll(t, j.condition, j.joinType, m, db, Nested(l, m, db))
  }

  function FilterTest(t: Tree, c: Option<Expr>, m: Meaning): Tuple -> bool {
    tp => |tp| == |Inputs(t)| && Holds(c, m, TreeEnv(t, tp))
  }

  function FilterCondition(f: Option<Filter>): Option<Expr> {
    if f.Some? then Some(f.value.condition) else None
  }

  // The filter on top of the tree applied to the nested evaluation.
  function Query(f: Option<Filter>, t: Tree, m: Meaning, db: Database): seq<Tuple> {
    Select(Nested(t, m, db), FilterTest(t, FilterCondition(f), m))
  }

  // ---------------------------------------------------------------------------
  // The flattened node
  // ---------------------------------------------------------------------------

  // std::partial_sum over the input widths.
  function PrefixSums(ins: seq<Input>): (ps: seq<nat>)
    ensures |ps| == |ins|
  {
    if ins == [] then []
    else
      var ps := PrefixSums(ins[..|ins| - 1]);
      ps + [(if ps == [] then 0 else ps[|ps| - 1]) + ins[|ins| - 1].width]
  }

  // The first position whose element is greater than `x`: std::lower_bound with less_equal.
  function FirstGreater(ps: seq<nat>, x: nat): (k: nat)
    ensures k <= |ps|
    ensures forall j :: 0 <= j < k ==> ps[j] <= x
    ensures k < |ps| ==> x < ps[k]
  {
    if ps == [] || x < ps[0] then 0 else 1 + FirstGreater(ps[1..], x)
  }

  lemma FirstGreaterUnique(ps: seq<nat>, x: nat, k: nat)
    requires k <= |ps|
    requires forall j :: 0 <= j < k ==> ps[j] <= x
    requires k < |ps| ==> x < ps[k]
    ensures k == FirstGreater(ps, x)
  {
  }

  // The input and local index a flat column index stands for.
  function Locate(ins: seq<Input>, i: nat): (NodeId, nat)
    requires FirstGreater(PrefixSums(ins), i) < |ins|
  {
    var ps := PrefixSums(ins);
    var k := FirstGreater(ps, i);
    (ins[k].id, if k > 0 then i - ps[k - 1] else i)
  }

  predicate Covers(f: Option<Filter>, js: seq<Join>, n: NodeId) {
    (f.Some? && f.value.id == n) || exists j :: 0 <= j < |js| && js[j].id == n
  }

  // RebindInputsFromLeftDeepJoinVisitor::visitColumnRef.  An index past the last column
  // fails a CHECK in the program; no well-scoped reference has one.
  function Resolver(f: Option<Filter>, ins: seq<Input>, js: seq<Join>): RefMap {
    (n: NodeId, i: nat) => if Covers(f, js, n) && FirstGreater(PrefixSums(ins), i) < |ins| then Locate(ins, i)
              else (n, i)
  }

  function Rebind(e: Expr, f: Option<Filter>, ins: seq<Input>, js: seq<Join>): Expr {
    MapRefs(e, Resolver(f, ins, js))
  }

  // The literal's Datum is read as a C++ boolean: the NULL of boolean type is stored as
  // -128, which reads as true.
  predicate SkipsCondition(c: Option<Expr>) {
    c.Some? && c.value.Constant? && (c.value.literal == BoolLit(true) || c.value.literal == NullBool)
  }

  function Conjoin(acc: Option<Expr>, j: Join): Option<Expr> {
    if SkipsCondition(j.condition) || j.joinType == LEFT || j.condition.None? then acc
    else if acc.None? then j.condition
    else Some(BinOper(And, acc.value, j.condition.value))
  }

  function Collected(acc: Option<Expr>, js: seq<Join>): Option<Expr>
    decreases |js|
  {
    if js == [] then acc else Collected(Conjoin(acc, js[0]), js[1..])
  }

  // condition_ of the flattened node.
  function InnerCondition(f: Option<Filter>, ins: seq<Input>, js: seq<Join>): Expr {
    var c := Collected(FilterCondition(f), js);
    if c.Some? then Rebind(c.value, f, ins, js) else Constant(BoolLit(true))
  }

  function OuterOf(f: Option<Filter>, ins: seq<Input>, js: seq<Join>, j: Join): Option<Expr> {
    if SkipsCondition(j.condition) || j.joinType == INNER || j.condition.None? then None
    else Some(Rebind(j.condition.value, f, ins, js))
  }

  // outer_conditions_per_level_ of the flattened node.
  function OuterConditions(f: Option<Filter>, ins: seq<Input>, js: seq<Join>): (os: seq<Option<Expr>>)
    ensures |os| == |js|
  {
    seq(|js|, k requires 0 <= k < |js| => OuterOf(f, ins, js, js[k]))
  }

  // getOuterCondition and getJoinType count levels from the innermost join, starting at 1.
  function OuterCondition(os: seq<Option<Expr>>, level: nat): Option<Expr>
    requires 1 <= level <= |os|
  {
    os[|os| - level]
  }

  function LevelType(js: seq<Join>, level: nat): JoinType
    requires 1 <= level <= |js|
  {
    js[|js| - level].joinType
  }

  // A reference to an input, on the rows bound so far.
  function ReadInput(ins: seq<Input>, tp: Tuple, n: NodeId, i: nat): Value
    requires |tp| <= |ins|
  {
    if tp == [] then Null
    else
      var k := |tp| - 1;
      if ins[k].id == n then At(tp[k], i) else ReadInput(ins, tp[..k], n, i)
  }

  function FlatEnv(ins: seq<Input>, tp: Tuple): Env
    requires |tp| <= |ins|
  {
    (n: NodeId, i: nat) => ReadInput(ins, tp, n, i)
  }

  function LevelTest(ins: seq<Input>, c: Option<Expr>, m: Meaning, tp: Tuple): Row -> bool {
    row => LevelHolds(ins, c, m, tp, row)
  }

  predicate LevelHolds(ins: seq<Input>, c: Option<Expr>, m: Meaning, tp: Tuple, row: Row) {
    |tp| < |ins| && Holds(c, m, FlatEnv(ins, tp + [row]))
  }

  function ExtendLevel(ins: seq<Input>, level: nat, c: Option<Expr>, jt: JoinType, m: Meaning,
                       db: Database, tps: seq<Tuple>): seq<Tuple>
    requires level < |ins|
  {
    if tps == [] then []
    else
      var head := Extend(tps[0], db(ins[level].id), LevelTest(ins, c, m, tps[0]), jt, ins[level].width);
      var tail := ExtendLevel(ins, level, c, jt, m, db, tps[1..]);
      if head == [] then tail else head + tail  // an empty head leaves no trace, which keeps proofs short
  }

  // getJoinType of every level, innermost first.
  function LevelTypes(js: seq<Join>): (ts: seq<JoinType>)
    ensures |ts| == |js|
  {
    seq(|js|, k requires 0 <= k < |js| => LevelType(js, k + 1))
  }

  // The loop nest: level `k` extends the tuples of level `k - 1`.
  function Levels(ins: seq<Input>, types: seq<JoinType>, os: seq<Option<Expr>>, k: nat, m: Meaning,
                  db: Database): seq<Tuple>
    requires |ins| == |types| + 1 && |os| == |types| && k <= |types|
  {
    if k == 0 then Singles(db(ins[0].id))
    else ExtendLevel(ins, k, OuterCondition(os, k), types[k - 1], m, db,
                     Levels(ins, types, os, k - 1, m, db))
  }

  function FlatTest(ins: seq<Input>, c: Expr, m: Meaning): Tuple -> bool {
    tp => |tp| == |ins| && IsTrue(Eval(c, m, FlatEnv(ins, tp)))
  }

  // The flattened node, run with the join types and conditions it reports.
  function FlatQuery(f: Option<Filter>, t: Tree, m: Meaning, db: Database): seq<Tuple> {
    var ins, js := Inputs(t), Joins(t);
    Select(Levels(ins, LevelTypes(js), OuterConditions(f, ins, js), |js|, m, db),
           FlatTest(ins, InnerCondition(f, ins, js), m))
  }

  // ---------------------------------------------------------------------------
  // The code that builds the node
  // ---------------------------------------------------------------------------

  /** std::lower_bound with std::less_equal over the prefix sums. */
  method LowerBound(ps: seq<nat>, x: nat) returns (k: nat)
    requires forall i, j :: 0 <= i <= j < |ps| ==> ps[i] <= ps[j]
    ensures k == FirstGreater(ps, x)
  {
    k := 0;
    var len := |ps|;
    while len > 0
      invariant 0 <= len && k + len <= |ps|
      invariant forall j :: 0 <= j < k ==> ps[j] <= x
      invariant forall j :: k + len <= j < |ps| ==> x < ps[j]
    {
      var half := len / 2;
      if ps[k + half] <= x {
        k, len := k + half + 1, len - half - 1;
      } else {
        len := half;
      }
    }
    FirstGreaterUnique(ps, x, k);
  }

  /** collect_left_deep_join_inputs: walks down the left spine, pushing inputs in front. */
  method CollectInputs(t: Tree, inputs: seq<Input>, joins: seq<Join>)
    returns (allInputs: seq<Input>, allJoins: seq<Join>)
    requires t.Node?
    ensures allInputs == Inputs(t) + inputs
    ensures allJoins == joins + Joins(t)
    decreases t
  {
    var joins' := joins + [t.join];
    if t.left.Node? {
      allInputs, allJoins := CollectInputs(t.left, [t.right] + inputs, joins');
    } else {
      allInputs, allJoins := [t.left.input] + ([t.right] + inputs), joins';
    }
  }

  class LeftDeepInnerJoin {
    const inputs: seq<Input>
    const originalFilter: Option<Filter>
    const originalJoins: seq<Join>
    var condition: Expr
    var outerConditions: seq<Option<Expr>>

    constructor (filter: Option<Filter>, inputs: seq<Input>, joins: seq<Join>)
      ensures this.inputs == inputs && originalFilter == filter && originalJoins == joins
      ensures condition == InnerCondition(filter, inputs, joins)
      ensures outerConditions == OuterConditions(filter, inputs, joins)
    {
      this.inputs, originalFilter, originalJoins := inputs, filter, joins;
      var acc := FilterCondition(filter);
      var outer: seq<Option<Expr>> := seq(|joins|, _ => None);
      for level := 0 to |joins|
        invariant Collected(FilterCondition(filter), joins) == Collected(acc, joins[level..])
        invariant |outer| == |joins|
        invariant forall k :: 0 <= k < level ==> outer[k] == OuterOf(filter, inputs, joins, joins[k])
        invariant forall k :: level <= k < |joins| ==> outer[k] == None
      {
        var j := joins[level];
        if !SkipsCondition(j.condition) && j.condition.Some? {
          match j.joinType
          case INNER =>
            acc := if acc.None? then j.condition else Some(BinOper(And, acc.value, j.condition.value));
          case LEFT =>
            outer := outer[level := Some(Rebind(j.condition.value, filter, inputs, joins))];
        }
      }
      outerConditions := outer;
      condition := if acc.Some? then Rebind(acc.value, filter, inputs, joins)
                   else Constant(BoolLit(true));
    }
  }
}
