/** How the executor runs a flattened join: the join types it derives, and the level at which
    it applies each part of the condition (RelAlgExecutor.cpp). */
module JoinExecution {
  import opened Basics
  import opened Expressions
  import opened JoinFlattening
  import opened LeftDeepJoin

  // left_deep_join_types: the executor takes a level as LEFT when it has an outer condition.
  function ExecutorTypes(os: seq<Option<Expr>>): (ts: seq<JoinType>)
    ensures |ts| == |os|
  {
    seq(|os|, k requires 0 <= k < |os| => if OuterCondition(os, k + 1).Some? then LEFT else INNER)
  }

  // ---------------------------------------------------------------------------
  // Placement of the conjuncts
  // ---------------------------------------------------------------------------

  // The condition split at AND.
  function Conjuncts(e: Expr): seq<Expr> {
    if e.BinOper? && e.bop == And then Conjuncts(e.lhs) + Conjuncts(e.rhs) else [e]
  }

  // The nesting level of an input.
  function NestLevel(ins: seq<Input>, n: NodeId): nat {
    if ins == [] then 0
    else
      var k := |ins| - 1;
      if ins[k].id == n then k else NestLevel(ins[..k], n)
  }

  // MaxRangeTableIndexCollector: the deepest input an expression refers to, else zero.
  function Highest(e: Expr, ins: seq<Input>): nat
    decreases e, 1
  {
    match e
    case ColumnRef(node, _) => NestLevel(ins, node)
    case Constant(_) => 0
    case UOper(_, x) => Highest(x, ins)
    case BinOper(_, x, y) => Max(Highest(x, ins), Highest(y, ins))
    case InValues(x, vs) => Max(Highest(x, ins), HighestAll(vs, ins))
    case CaseExpr(ws, ts, es) => Max(HighestAll(ws, ins), Max(HighestAll(ts, ins), HighestAll(es, ins)))
    case FunctionOper(_, args) => HighestAll(args, ins)
  }

  function HighestAll(es: seq<Expr>, ins: seq<Input>): nat
    decreases es, 0
  {
    if es == [] then 0 else Max(Highest(es[0], ins), HighestAll(es[1..], ins))
  }

  // The first level from `level` on without an outer condition; one past the last if none.
  function FirstFree(os: seq<Option<Expr>>, level: nat): (l: nat)
    requires 1 <= level
    ensures level <= l
    decreases |os| - level
  {
    if level > |os| || OuterCondition(os, level).None? then level else FirstFree(os, level + 1)
  }

  // Where a conjunct is applied; past the last level, it is dropped.
  function Place(c: Expr, ins: seq<Input>, os: seq<Option<Expr>>): (l: nat)
    ensures 1 <= l && Highest(c, ins) <= l
  {
    FirstFree(os, Max(1, Highest(c, ins)))
  }

  // The conjuncts applied at a level.
  function LevelQuals(cs: seq<Expr>, ins: seq<Input>, os: seq<Option<Expr>>, level: nat): seq<Expr> {
    if cs == [] then []
    else
      var init := LevelQuals(cs[..|cs| - 1], ins, os, level);
      if Place(cs[|cs| - 1], ins, os) == level then init + [cs[|cs| - 1]] else init
  }

  datatype LevelPlan = LevelPlan(quals: seq<Expr>, joinType: JoinType)

  ghost predicate PlannedAt(plans: seq<LevelPlan>, cs: seq<Expr>, ins: seq<Input>, os: seq<Option<Expr>>, level: nat)
    requires 1 <= level <= |os| && level <= |plans|
  {
    plans[level - 1] == if OuterCondition(os, level).Some? then LevelPlan([OuterCondition(os, level).value], LEFT)
            else LevelPlan(LevelQuals(cs, ins, os, level), INNER)
  }

  /** translateLeftDeepJoinFilter: level by level, each conjunct not used before goes to the
      first level without an outer condition that binds all its inputs. */
  method TranslateLeftDeepJoinFilter(cs: seq<Expr>, ins: seq<Input>, os: seq<Option<Expr>>)
    returns (plans: seq<LevelPlan>)
    ensures |plans| == |os|
    ensures forall level :: 1 <= level <= |os| ==> PlannedAt(plans, cs, ins, os, level)
    ensures PlanTypes(plans) == ExecutorTypes(os) && PlanConditions(plans) == PlannedConditions(cs, ins, os)
  {
    plans := [];
    var visited: set<nat> := {};
    for level := 1 to |os| + 1
      invariant |plans| == level - 1
      invariant forall l :: 1 <= l < level ==> PlannedAt(plans, cs, ins, os, l)
      invariant forall k: nat :: k in visited <==> k < |cs| && Place(cs[k], ins, os) < level
    {
      ghost var before := plans;
      if OuterCondition(os, level).Some? {
        forall k | 0 <= k < |cs| ensures Place(cs[k], ins, os) != level {
          NotPlacedAtOuter(cs[k], ins, os, level);
        }
        plans := plans + [LevelPlan([OuterCondition(os, level).value], LEFT)];
      } else {
        var quals;
        quals, visited := PlaceAtLevel(cs, ins, os, level, visited);
        plans := plans + [LevelPlan(quals, INNER)];
      }
      forall l | 1 <= l <= level ensures PlannedAt(plans, cs, ins, os, l) {
        if l < level { assert PlannedAt(before, cs, ins, os, l); }
      }
    }
    PlansAreRun(plans, cs, ins, os);
  }

  // The loop over the conjuncts at a level without an outer condition.
  method PlaceAtLevel(cs: seq<Expr>, ins: seq<Input>, os: seq<Option<Expr>>, level: nat, visited: set<nat>)
    returns (quals: seq<Expr>, visited': set<nat>)
    requires 1 <= level <= |os| && OuterCondition(os, level).None?
    requires forall k: nat :: k in visited <==> k < |cs| && Place(cs[k], ins, os) < level
    ensures quals == LevelQuals(cs, ins, os, level)
    ensures forall k: nat :: k in visited' <==> k < |cs| && Place(cs[k], ins, os) <= level
  {
    quals, visited' := [], visited;
    for k := 0 to |cs|
      invariant quals == LevelQuals(cs[..k], ins, os, level)
      invariant forall j: nat :: j in visited' <==>
        j < |cs| && (Place(cs[j], ins, os) < level || (j < k && Place(cs[j], ins, os) == level))
    {
      PlacedWhenBound(cs[k], ins, os, level);
      assert cs[..k + 1][..k] == cs[..k];
      if k !in visited' && Highest(cs[k], ins) <= level {
        visited' := visited' + {k};
        quals := quals + [cs[k]];
      }
    }
    assert cs[..|cs|] == cs;
  }

  lemma {:induction false} FirstFreeExactly(os: seq<Option<Expr>>, from: nat, level: nat)
    requires 1 <= from && 1 <= level <= |os|
    ensures FirstFree(os, from) == level ==> from <= level && OuterCondition(os, level).None?
    ensures FirstFree(os, from) <= level && from <= level
      <==> exists l :: from <= l <= level && OuterCondition(os, l).None?
    decreases |os| - from
  {
    if from <= |os| && OuterCondition(os, from).Some? {
      FirstFreeExactly(os, from + 1, level);
    }
  }

  lemma NotPlacedAtOuter(c: Expr, ins: seq<Input>, os: seq<Option<Expr>>, level: nat)
    requires 1 <= level <= |os| && OuterCondition(os, level).Some?
    ensures Place(c, ins, os) != level
  {
    FirstFreeExactly(os, Max(1, Highest(c, ins)), level);
  }

  lemma PlacedWhenBound(c: Expr, ins: seq<Input>, os: seq<Option<Expr>>, level: nat)
    requires 1 <= level <= |os| && OuterCondition(os, level).None?
    ensures Place(c, ins, os) <= level <==> Highest(c, ins) <= level
  {
    FirstFreeExactly(os, Max(1, Highest(c, ins)), level);
  }

  /** A conjunct is dropped exactly when every level from its deepest input up has an outer
      condition. */
  lemma {:induction false} DroppedExactly(c: Expr, ins: seq<Input>, os: seq<Option<Expr>>)
    requires Highest(c, ins) <= |os|
    ensures Place(c, ins, os) > |os|
      <==> forall l :: Max(1, Highest(c, ins)) <= l <= |os| ==> OuterCondition(os, l).Some?
  {
    if os != [] {
      FirstFreeExactly(os, Max(1, Highest(c, ins)), |os|);
    }
  }

  // ---------------------------------------------------------------------------
  // Running the plan
  // ---------------------------------------------------------------------------

  function ConjoinAll(cs: seq<Expr>): Option<Expr> {
    if cs == [] then None
    else
      var init, last := ConjoinAll(cs[..|cs| - 1]), cs[|cs| - 1];
      Some(if init.None? then last else BinOper(And, init.value, last))
  }

  lemma ConjoinOne(e: Expr)
    ensures ConjoinAll([e]) == Some(e)
  {
    assert [e][..0] == [];
  }

  // The condition a level applies to the rows it binds.
  function LevelCondition(cs: seq<Expr>, ins: seq<Input>, os: seq<Option<Expr>>, level: nat): Option<Expr>
    requires 1 <= level <= |os|
  {
    if OuterCondition(os, level).Some? then OuterCondition(os, level)
    else ConjoinAll(LevelQuals(cs, ins, os, level))
  }

  // The conditions of all levels, in the order of the outer conditions.
  function PlannedConditions(cs: seq<Expr>, ins: seq<Input>, os: seq<Option<Expr>>): (pcs: seq<Option<Expr>>)
    ensures |pcs| == |os|
  {
    seq(|os|, j requires 0 <= j < |os| => LevelCondition(cs, ins, os, |os| - j))
  }

  // The join types and conditions that plans stand for, in the orders the levels take them.
  function PlanTypes(plans: seq<LevelPlan>): seq<JoinType> {
    seq(|plans|, k requires 0 <= k < |plans| => plans[k].joinType)
  }

  function PlanConditions(plans: seq<LevelPlan>): seq<Option<Expr>> {
    seq(|plans|, j requires 0 <= j < |plans| => ConjoinAll(plans[|plans| - 1 - j].quals))
  }

  /** The plans made level by level are what is run. */
  lemma {:induction false} PlansAreRun(plans: seq<LevelPlan>, cs: seq<Expr>, ins: seq<Input>, os: seq<Option<Expr>>)
    requires |plans| == |os| && forall level :: 1 <= level <= |os| ==> PlannedAt(plans, cs, ins, os, level)
    ensures PlanTypes(plans) == ExecutorTypes(os) && PlanConditions(plans) == PlannedConditions(cs, ins, os)
  {
    forall k | 0 <= k < |os| ensures PlanTypes(plans)[k] == ExecutorTypes(os)[k] {
      assert PlannedAt(plans, cs, ins, os, k + 1);
    }
    forall j | 0 <= j < |os| ensures PlanConditions(plans)[j] == LevelCondition(cs, ins, os, |os| - j) {
      assert PlannedAt(plans, cs, ins, os, |os| - j);
      if OuterCondition(os, |os| - j).Some? { ConjoinOne(OuterCondition(os, |os| - j).value); }
    }
  }

  // The flattened node as the executor runs it: no condition is applied but those of the levels.
  function ExecutedQuery(f: Option<Filter>, t: Tree, m: Meaning, db: Database): seq<Tuple> {
    var ins, js := Inputs(t), Joins(t);
    var os := OuterConditions(f, ins, js);
    Levels(ins, ExecutorTypes(os), PlannedConditions(Conjuncts(InnerCondition(f, ins, js)), ins, os), |js|, m, db)
  }

  // ---------------------------------------------------------------------------
  // Applying conjuncts early is selecting by them at the end
  // ---------------------------------------------------------------------------

  ghost predicate AllTrue(cs: seq<Expr>, m: Meaning, env: Env) {
    forall k :: 0 <= k < |cs| ==> IsTrue(Eval(cs[k], m, env))
  }

  lemma {:induction false} AllTrueAppend(a: seq<Expr>, b: seq<Expr>, m: Meaning, env: Env)
    ensures AllTrue(a + b, m, env) <==> AllTrue(a, m, env) && AllTrue(b, m, env)
  {
    if AllTrue(a + b, m, env) {
      assert forall k :: 0 <= k < |a| ==> (a + b)[k] == a[k];
      assert forall k :: 0 <= k < |b| ==> (a + b)[|a| + k] == b[k];
    }
  }

  /** A condition is true exactly when all its conjuncts are, also with NULLs. */
  lemma {:induction false} ConjunctsTrue(e: Expr, m: Meaning, env: Env)
    ensures AllTrue(Conjuncts(e), m, env) <==> IsTrue(Eval(e, m, env))
  {
    if e.BinOper? && e.bop == And {
      ConjunctsTrue(e.lhs, m, env);
      ConjunctsTrue(e.rhs, m, env);
      AllTrueAppend(Conjuncts(e.lhs), Conjuncts(e.rhs), m, env);
    } else {
      assert Conjuncts(e)[0] == e;
    }
  }

  lemma {:induction false} ConjoinAllTrue(cs: seq<Expr>, m: Meaning, env: Env)
    ensures Holds(ConjoinAll(cs), m, env) <==> AllTrue(cs, m, env)
  {
    if cs != [] {
      var n := |cs| - 1;
      ConjoinAllTrue(cs[..n], m, env);
      AllTrueAppend(cs[..n], [cs[n]], m, env);
      assert cs[..n] + [cs[n]] == cs;
    }
  }

  function WithinLevel(ins: seq<Input>, level: nat): (NodeId, nat) -> bool {
    (n: NodeId, i: nat) => NestLevel(ins, n) <= level
  }

  lemma {:induction false} HighestExactly(e: Expr, ins: seq<Input>, level: nat)
    ensures Highest(e, ins) <= level <==> RefsIn(e, WithinLevel(ins, level))
    decreases e, 1
  {
    match e
    case ColumnRef(_, _) =>
    case Constant(_) =>
    case UOper(_, x) => HighestExactly(x, ins, level);
    case BinOper(_, x, y) => HighestExactly(x, ins, level); HighestExactly(y, ins, level);
    case InValues(x, vs) => HighestExactly(x, ins, level); HighestAllExactly(vs, ins, level);
    case CaseExpr(ws, ts, es) =>
      HighestAllExactly(ws, ins, level);
      HighestAllExactly(ts, ins, level);
      HighestAllExactly(es, ins, level);
    case FunctionOper(_, args) => HighestAllExactly(args, ins, level);
  }

  lemma {:induction false} HighestAllExactly(es: seq<Expr>, ins: seq<Input>, level: nat)
    ensures HighestAll(es, ins) <= level <==> RefsInAll(es, WithinLevel(ins, level))
    decreases es, 0
  {
    if es != [] { HighestExactly(es[0], ins, level); HighestAllExactly(es[1..], ins, level); }
  }

  lemma {:induction false} NestLevelLast(ins: seq<Input>, n: NodeId, k: nat)
    requires k < |ins| && ins[k].id == n
    ensures k <= NestLevel(ins, n) < |ins|
  {
    if ins[|ins| - 1].id != n { NestLevelLast(ins[..|ins| - 1], n, k); }
  }

  // A row bound at a deeper level does not matter to an expression.
  lemma {:induction false} DeeperRowsDoNotMatter(e: Expr, ins: seq<Input>, tp: Tuple, row: Row, m: Meaning)
    requires 1 <= |tp| < |ins| && Highest(e, ins) < |tp|
    ensures Eval(e, m, FlatEnv(ins, tp + [row])) == Eval(e, m, FlatEnv(ins, tp))
  {
    var p, id := WithinLevel(ins, |tp| - 1), (n: NodeId, i: nat) => (n, i);
    HighestExactly(e, ins, |tp| - 1);
    forall n: NodeId, i: nat | p(n, i)
      ensures ReadInput(ins, tp + [row], n, i) == ReadInput(ins, tp, n, i)
    {
      if ins[|tp|].id == n { NestLevelLast(ins, n, |tp|); }
      assert (tp + [row])[..|tp|] == tp;
    }
    MapRefsPreservesValue(e, id, p, m, FlatEnv(ins, tp), FlatEnv(ins, tp + [row]));
    MapRefsIdentity(e, id, p);
  }

  // All conjuncts placed up to level `k` are true.
  predicate PlacedTrue(cs: seq<Expr>, ins: seq<Input>, os: seq<Option<Expr>>, k: nat, m: Meaning, tp: Tuple)
    requires |tp| <= |ins|
  {
    forall j :: 0 <= j < |cs| && Place(cs[j], ins, os) <= k ==> IsTrue(Eval(cs[j], m, FlatEnv(ins, tp)))
  }

  function PlacedTest(cs: seq<Expr>, ins: seq<Input>, os: seq<Option<Expr>>, k: nat, m: Meaning): Tuple -> bool {
    tp => |tp| == k + 1 <= |ins| && PlacedTrue(cs, ins, os, k, m, tp)
  }

  lemma {:induction false} LevelQualsTrue(cs: seq<Expr>, ins: seq<Input>, os: seq<Option<Expr>>, level: nat,
                                          m: Meaning, env: Env)
    ensures AllTrue(LevelQuals(cs, ins, os, level), m, env)
      <==> forall j :: 0 <= j < |cs| && Place(cs[j], ins, os) == level ==> IsTrue(Eval(cs[j], m, env))
  {
    if cs != [] {
      var n := |cs| - 1;
      var init := cs[..n];
      LevelQualsTrue(init, ins, os, level, m, env);
      AllTrueAppend(LevelQuals(init, ins, os, level), [cs[n]], m, env);
      assert [cs[n]][0] == cs[n];
      assert forall j :: 0 <= j < n ==> init[j] == cs[j];
    }
  }

  lemma {:induction false} PlacedStep(cs: seq<Expr>, ins: seq<Input>, os: seq<Option<Expr>>, k: nat, m: Meaning,
                                      tp: Tuple, row: Row)
    requires |ins| == |os| + 1 && 1 <= k <= |os| && |tp| == k
    ensures PlacedTest(cs, ins, os, k, m)(tp + [row])
      <==> && PlacedTest(cs, ins, os, k - 1, m)(tp)
           && (ExecutorTypes(os)[k - 1] == INNER ==> LevelTest(ins, LevelCondition(cs, ins, os, k), m, tp)(row))
  {
    var tp', env := tp + [row], FlatEnv(ins, tp + [row]);
    forall j | 0 <= j < |cs| && Place(cs[j], ins, os) <= k - 1
      ensures Eval(cs[j], m, env) == Eval(cs[j], m, FlatEnv(ins, tp))
    {
      DeeperRowsDoNotMatter(cs[j], ins, tp, row, m);
    }
    if OuterCondition(os, k).Some? {
      forall j | 0 <= j < |cs| ensures Place(cs[j], ins, os) != k {
        NotPlacedAtOuter(cs[j], ins, os, k);
      }
    } else {
      ConjoinAllTrue(LevelQuals(cs, ins, os, k), m, env);
      LevelQualsTrue(cs, ins, os, k, m, env);
    }
  }

  ghost predicate AllOfLength(tps: seq<Tuple>, n: nat) {
    forall k {:trigger OfLength(tps[k], n)} :: 0 <= k < |tps| ==> OfLength(tps[k], n)
  }

  predicate OfLength(tp: Tuple, n: nat) { |tp| == n }

  lemma TailLength(tps: seq<Tuple>, n: nat)
    requires AllOfLength(tps, n) && tps != []
    ensures AllOfLength(tps[1..], n)
  {
    var rest := tps[1..];
    forall k | 0 <= k < |rest| ensures OfLength(rest[k], n) {
      assert OfLength(tps[k + 1], n);
    }
  }

  lemma SumLength(a: seq<Tuple>, b: seq<Tuple>, n: nat)
    requires AllOfLength(a, n) && AllOfLength(b, n)
    ensures AllOfLength(a + b, n)
  {
    var all := a + b;
    forall k | 0 <= k < |all| ensures OfLength(all[k], n) {
      assert if k < |a| then OfLength(a[k], n) else OfLength(b[k - |a|], n);
    }
  }

  lemma ExtendLength(tp: Tuple, rows: seq<Row>, keep: Row -> bool, jt: JoinType, width: nat)
    ensures AllOfLength(Extend(tp, rows, keep, jt, width), |tp| + 1)
  {
    var all := Extend(tp, rows, keep, jt, width);
    forall i | 0 <= i < |all| ensures OfLength(all[i], |tp| + 1) {
      ExtendMembers(tp, rows, keep, jt, width, i);
    }
  }

  lemma {:induction false} ExtendLevelLength(ins: seq<Input>, k: nat, c: Option<Expr>, jt: JoinType, m: Meaning,
                                             db: Database, tps: seq<Tuple>)
    requires k < |ins| && AllOfLength(tps, k)
    ensures AllOfLength(ExtendLevel(ins, k, c, jt, m, db, tps), k + 1)
  {
    if tps != [] {
      var rows, keep := db(ins[k].id), LevelTest(ins, c, m, tps[0]);
      assert OfLength(tps[0], k);
      ExtendLength(tps[0], rows, keep, jt, ins[k].width);
      TailLength(tps, k);
      ExtendLevelLength(ins, k, c, jt, m, db, tps[1..]);
      var all, rest := Extend(tps[0], rows, keep, jt, ins[k].width), ExtendLevel(ins, k, c, jt, m, db, tps[1..]);
      SumLength(all, rest, k + 1);
    }
  }

  lemma SinglesLength(rows: seq<Row>)
    ensures AllOfLength(Singles(rows), 1)
  {
    SinglesCount(rows);
    var singles := Singles(rows);
    forall k | 0 <= k < |singles| ensures OfLength(singles[k], 1) {
    }
  }

  // At a level of type `jt`, applying `after` where `before` was applied is selecting by
  // `test` in place of `tested`.
  ghost predicate Pushes(ins: seq<Input>, k: nat, jt: JoinType, before: Option<Expr>, after: Option<Expr>, m: Meaning,
                         tested: Tuple -> bool, test: Tuple -> bool)
  {
    && k < |ins| && before == (if jt == LEFT then after else None)
    && forall tp: Tuple {:trigger PushesRows(ins, jt, after, m, tested, test, tp)} :: |tp| == k ==>
         PushesRows(ins, jt, after, m, tested, test, tp)
  }

  ghost predicate PushesRows(ins: seq<Input>, jt: JoinType, after: Option<Expr>, m: Meaning,
                             tested: Tuple -> bool, test: Tuple -> bool, tp: Tuple)
  {
    forall row: Row :: test(tp + [row]) <==> tested(tp) && (jt == INNER ==> LevelTest(ins, after, m, tp)(row))
  }

  lemma {:induction false} PushedLevel(ins: seq<Input>, k: nat, jt: JoinType, before: Option<Expr>, after: Option<Expr>,
                                       m: Meaning, tested: Tuple -> bool, test: Tuple -> bool, db: Database,
                                       tps: seq<Tuple>)
    requires Pushes(ins, k, jt, before, after, m, tested, test) && AllOfLength(tps, k)
    ensures ExtendLevel(ins, k, after, jt, m, db, Select(tps, tested))
         == Select(ExtendLevel(ins, k, before, jt, m, db, tps), test)
  {
    if tps != [] {
      var tp, rows := tps[0], db(ins[k].id);
      assert OfLength(tp, k);
      TailLength(tps, k);
      var head := PushedTuple(ins, k, jt, before, after, m, tested, test, rows, tp);
      PushedLevel(ins, k, jt, before, after, m, tested, test, db, tps[1..]);
      SelectAppend(head, ExtendLevel(ins, k, before, jt, m, db, tps[1..]), test);
      var passed := Select(tps[1..], tested);
      assert Select(tps, tested) == if tested(tp) then [tp] + passed else passed;
      assert ([tp] + passed)[1..] == passed;
    }
  }

  lemma {:induction false} PushedTuple(ins: seq<Input>, k: nat, jt: JoinType, before: Option<Expr>, after: Option<Expr>,
                                       m: Meaning, tested: Tuple -> bool, test: Tuple -> bool, rows: seq<Row>,
                                       tp: Tuple)
    returns (head: seq<Tuple>)
    requires Pushes(ins, k, jt, before, after, m, tested, test) && |tp| == k
    ensures head == Extend(tp, rows, LevelTest(ins, before, m, tp), jt, ins[k].width)
    ensures Select(head, test)
         == if tested(tp) then Extend(tp, rows, LevelTest(ins, after, m, tp), jt, ins[k].width) else []
  {
    var spread, keep := LevelTest(ins, before, m, tp), LevelTest(ins, after, m, tp);
    head := Extend(tp, rows, spread, jt, ins[k].width);
    assert PushesRows(ins, jt, after, m, tested, test, tp);
    ExtendThenSelect(tp, rows, spread, keep, jt, ins[k].width, test, tested(tp));
  }

  // The levels of a join with the conditions they had and have, and the tests that take
  // over the difference.
  datatype Pushing = Pushing(ins: seq<Input>, types: seq<JoinType>, before: seq<Option<Expr>>,
                             after: seq<Option<Expr>>, m: Meaning, tests: nat -> Tuple -> bool)
  {
    ghost predicate Sized() { |ins| == |types| + 1 && |before| == |after| == |types| }

    // The tuples of level `k`, with the conditions as they are, and as they were with the test.
    ghost function Now(k: nat, db: Database): seq<Tuple>
      requires Sized() && k <= |types|
    {
      Levels(ins, types, after, k, m, db)
    }

    ghost function Selected(k: nat, db: Database): seq<Tuple>
      requires Sized() && k <= |types|
    {
      Select(Levels(ins, types, before, k, m, db), tests(k))
    }

    ghost predicate Valid() {
      && Sized() && TrueOfSingles(tests(0))
      && forall k :: 1 <= k <= |types| ==> PushesAt(k)
    }

    ghost predicate PushesAt(k: nat) {
      && |before| == |after| == |types| && 1 <= k <= |types|
      && Pushes(ins, k, types[k - 1], OuterCondition(before, k), OuterCondition(after, k), m, tests(k - 1), tests(k))
    }
  }

  ghost predicate TrueOfSingles(test: Tuple -> bool) { forall tp: Tuple {:trigger test(tp)} :: |tp| == 1 ==> test(tp) }

  lemma {:induction false} LevelsLength(ins: seq<Input>, types: seq<JoinType>, os: seq<Option<Expr>>, k: nat,
                                        m: Meaning, db: Database)
    requires |ins| == |types| + 1 && |os| == |types| && k <= |types|
    ensures AllOfLength(Levels(ins, types, os, k, m, db), k + 1)
  {
    if k == 0 {
      SinglesLength(db(ins[0].id));
    } else {
      LevelsLength(ins, types, os, k - 1, m, db);
      ExtendLevelLength(ins, k, OuterCondition(os, k), types[k - 1], m, db, Levels(ins, types, os, k - 1, m, db));
    }
  }

  // The same for all levels up to `k`.
  lemma {:induction false} PushedLevels(p: Pushing, k: nat, db: Database)
    requires p.Valid() && k <= |p.types|
    ensures p.Now(k, db) == p.Selected(k, db)
    decreases k
  {
    if k == 0 {
      PushedFirst(p, db);
    } else {
      PushedLevels(p, k - 1, db);
      PushedNext(p, k, db);
    }
  }

  lemma PushedFirst(p: Pushing, db: Database)
    requires p.Valid()
    ensures p.Now(0, db) == p.Selected(0, db)
  {
    FirstLevel(db(p.ins[0].id), p.tests(0));
  }

  lemma {:induction false} PushedNext(p: Pushing, k: nat, db: Database)
    requires p.Valid() && 1 <= k <= |p.types|
    ensures p.Now(k - 1, db) == p.Selected(k - 1, db) ==> p.Now(k, db) == p.Selected(k, db)
  {
    assert p.PushesAt(k);
    LevelsLength(p.ins, p.types, p.before, k - 1, p.m, db);
    PushedLevel(p.ins, k, p.types[k - 1], OuterCondition(p.before, k), OuterCondition(p.after, k), p.m,
                p.tests(k - 1), p.tests(k), db, Levels(p.ins, p.types, p.before, k - 1, p.m, db));
  }

  lemma FirstLevel(rows: seq<Row>, test: Tuple -> bool)
    requires TrueOfSingles(test)
    ensures Singles(rows) == Select(Singles(rows), test)
  {
    SinglesLength(rows);
    forall k | 0 <= k < |Singles(rows)| ensures test(Singles(rows)[k]) {
      assert OfLength(Singles(rows)[k], 1);
    }
    SelectAll(Singles(rows), test, true);
  }

  function PlacedTests(cs: seq<Expr>, ins: seq<Input>, os: seq<Option<Expr>>, m: Meaning): nat -> Tuple -> bool {
    (k: nat) => PlacedTest(cs, ins, os, k, m)
  }

  lemma {:induction false} PlacementPushes(cs: seq<Expr>, ins: seq<Input>, os: seq<Option<Expr>>, k: nat, m: Meaning)
    requires |ins| == |os| + 1 && 1 <= k <= |os|
    ensures Pushes(ins, k, ExecutorTypes(os)[k - 1], OuterCondition(os, k),
                   OuterCondition(PlannedConditions(cs, ins, os), k),
                   m, PlacedTests(cs, ins, os, m)(k - 1), PlacedTests(cs, ins, os, m)(k))
  {
    var c, tests := LevelCondition(cs, ins, os, k), PlacedTests(cs, ins, os, m);
    assert OuterCondition(PlannedConditions(cs, ins, os), k) == c;
    forall tp: Tuple | |tp| == k
      ensures PushesRows(ins, ExecutorTypes(os)[k - 1], c, m, tests(k - 1), tests(k), tp)
    {
      forall row: Row
        ensures tests(k)(tp + [row])
          <==> tests(k - 1)(tp) && (ExecutorTypes(os)[k - 1] == INNER ==> LevelTest(ins, c, m, tp)(row))
      {
        PlacedStep(cs, ins, os, k, m, tp, row);
      }
    }
  }

  /** Running the plan is running the levels with the executor's join types and then keeping
      the tuples on which every placed conjunct is true. */
  lemma {:induction false} PlanSelects(cs: seq<Expr>, ins: seq<Input>, os: seq<Option<Expr>>, m: Meaning, db: Database)
    requires |ins| == |os| + 1
    ensures Levels(ins, ExecutorTypes(os), PlannedConditions(cs, ins, os), |os|, m, db)
         == Select(Levels(ins, ExecutorTypes(os), os, |os|, m, db), PlacedTest(cs, ins, os, |os|, m))
  {
    var types, pcs, tests := ExecutorTypes(os), PlannedConditions(cs, ins, os), PlacedTests(cs, ins, os, m);
    var p := Pushing(ins, types, os, pcs, m, tests);
    forall k | 1 <= k <= |os| ensures p.PushesAt(k) {
      PlacementPushes(cs, ins, os, k, m);
    }
    PushedLevels(p, |os|, db);
  }

  // ---------------------------------------------------------------------------
  // What is dropped
  // ---------------------------------------------------------------------------

  // `q` is a conjunct of an inner join's condition, rebound.
  predicate FromJoin(f: Option<Filter>, t: Tree, j: Join, q: Expr) {
    && j.joinType == INNER && j.condition.Some?
    && q in Conjuncts(Rebind(j.condition.value, f, Inputs(t), Joins(t)))
  }

  predicate FromFilter(f: Option<Filter>, t: Tree, q: Expr) {
    f.Some? && q in Conjuncts(Rebind(f.value.condition, f, Inputs(t), Joins(t)))
  }

  // A conjunct of what was collected comes from the accumulated condition or from a join.
  lemma {:induction false} CollectedFrom(f: Option<Filter>, t: Tree, acc: Option<Expr>, js: seq<Join>, q: Expr)
    requires Collected(acc, js).Some?
    requires q in Conjuncts(Rebind(Collected(acc, js).value, f, Inputs(t), Joins(t)))
    ensures || (acc.Some? && q in Conjuncts(Rebind(acc.value, f, Inputs(t), Joins(t))))
            || exists k :: 0 <= k < |js| && FromJoin(f, t, js[k], q)
    decreases |js|
  {
    if js != [] {
      CollectedFrom(f, t, Conjoin(acc, js[0]), js[1..], q);
      if exists k :: 0 <= k < |js[1..]| && FromJoin(f, t, js[1..][k], q) {
        var k :| 0 <= k < |js[1..]| && FromJoin(f, t, js[1..][k], q);
        assert FromJoin(f, t, js[k + 1], q);
      }
    }
  }

  lemma {:induction false} DescendsToInput(t: Tree, i: nat) returns (k: nat)
    requires i < Size(t)
    ensures k < |Inputs(t)| && Inputs(t)[k].id == Descend(t, i).0
  {
    match t
    case Leaf(_) => k := 0;
    case Node(_, l, r) =>
      if i < Size(l) { k := DescendsToInput(l, i); } else { k := |Inputs(l)|; }
  }

  lemma {:induction false} NestLevelOfInput(ins: seq<Input>, k: nat)
    requires k < |ins| && forall i, j :: 0 <= i < j < |ins| ==> ins[i].id != ins[j].id
    ensures NestLevel(ins, ins[k].id) == k
  {
    if k < |ins| - 1 { NestLevelOfInput(ins[..|ins| - 1], k); }
  }

  // A reference in scope of a subtree is rebound to an input of the subtree.
  lemma {:induction false} JoinReboundWithin(f: Option<Filter>, s: Tree, t: Tree, i: nat)
    requires IsSubtree(s, t) && Distinct(t) && (f.Some? ==> !IsNodeOf(t, f.value.id))
    requires s.Node? && InScope(s, s.join.id, i)
    ensures NestLevel(Inputs(t), Resolver(f, Inputs(t), Joins(t))(s.join.id, i).0) <= |Joins(s)|
  {
    SubtreeInputs(s, t);
    DistinctSubtree(s, t);
    if InScope(s.left, s.join.id, i) { ScopeIsNode(s.left, s.join.id, i); }
    CoversJoins(f, s, t);
    DescendSubtree(s, t, i);
    LookupIsDescent(t, i);
    var k := DescendsToInput(s, i);
    assert Inputs(t)[k] == Inputs(s)[k];
    InputIdsDistinct(t);
    NestLevelOfInput(Inputs(t), k);
  }

  lemma {:induction false} ReboundWithin(f: Option<Filter>, s: Tree, t: Tree, n: NodeId, i: nat)
    requires IsSubtree(s, t) && Distinct(t) && (f.Some? ==> !IsNodeOf(t, f.value.id)) && InScope(s, n, i)
    ensures NestLevel(Inputs(t), Resolver(f, Inputs(t), Joins(t))(n, i).0) <= |Joins(s)|
    decreases s
  {
    var ins := Inputs(t);
    SubtreeInputs(s, t);
    InputIdsDistinct(t);
    if s.Node? && n == s.join.id {
      JoinReboundWithin(f, s, t, i);
    } else if s.Leaf? || n == s.right.id {
      var k := |Inputs(s)| - 1;
      assert n == ins[k].id;
      InputsAreNotCovered(f, t, k);
      NestLevelOfInput(ins, k);
    } else {
      SubtreeTransitive(s, t);
      ReboundWithin(f, s.left, t, n, i);
    }
  }

  lemma {:induction false} ConjunctRefs(e: Expr, p: (NodeId, nat) -> bool, q: Expr)
    requires RefsIn(e, p) && q in Conjuncts(e)
    ensures RefsIn(q, p)
  {
    if e.BinOper? && e.bop == And {
      if q in Conjuncts(e.lhs) { ConjunctRefs(e.lhs, p, q); } else { ConjunctRefs(e.rhs, p, q); }
    }
  }

  // A conjunct of a condition in scope of a subtree needs no input above the subtree.
  lemma {:induction false} ConjunctWithin(f: Option<Filter>, s: Tree, t: Tree, e: Expr, q: Expr)
    requires IsSubtree(s, t) && Distinct(t) && (f.Some? ==> !IsNodeOf(t, f.value.id)) && RefsIn(e, Scope(s))
    requires q in Conjuncts(Rebind(e, f, Inputs(t), Joins(t)))
    ensures Highest(q, Inputs(t)) <= |Joins(s)|
  {
    var within := WithinLevel(Inputs(t), |Joins(s)|);
    forall n: NodeId, i: nat | Scope(s)(n, i)
      ensures within(Resolver(f, Inputs(t), Joins(t))(n, i).0, Resolver(f, Inputs(t), Joins(t))(n, i).1)
    {
      ReboundWithin(f, s, t, n, i);
    }
    MapRefsTargets(e, Resolver(f, Inputs(t), Joins(t)), Scope(s), within);
    ConjunctRefs(Rebind(e, f, Inputs(t), Joins(t)), within, q);
    HighestExactly(q, Inputs(t), |Joins(s)|);
  }

  // A conjunct of an inner join is applied at the level of the join at the latest.
  lemma {:induction false} JoinConjunctPlaced(f: Option<Filter>, s: Tree, t: Tree, k: nat, q: Expr)
    requires IsSubtree(s, t) && WellFormed(f, t) && k < |Joins(s)| && FromJoin(f, t, Joins(s)[k], q)
    ensures Place(q, Inputs(t), OuterConditions(f, Inputs(t), Joins(t))) <= |Joins(t)|
    decreases s
  {
    var os, level := OuterConditions(f, Inputs(t), Joins(t)), |Joins(s)|;
    if k == 0 {
      WellScopedSubtree(s, t);
      JoinAtLevel(s, t);
      ConjunctWithin(f, s, t, s.join.condition.value, q);
      assert OuterCondition(os, level) == OuterOf(f, Inputs(t), Joins(t), s.join);
      PlacedWhenBound(q, Inputs(t), os, level);
    } else {
      SubtreeTransitive(s, t);
      JoinConjunctPlaced(f, s.left, t, k - 1, q);
    }
  }

  /** On a well-formed tree a conjunct that is dropped comes from the filter, or is the literal
      TRUE that stands for no condition; and from its deepest input up every join is LEFT
      with a condition. */
  lemma {:induction false} DroppedFromFilter(f: Option<Filter>, t: Tree, q: Expr)
    requires WellFormed(f, t)
    requires q in Conjuncts(InnerCondition(f, Inputs(t), Joins(t)))
    requires Place(q, Inputs(t), OuterConditions(f, Inputs(t), Joins(t))) > |Joins(t)|
    ensures FromFilter(f, t, q) || q == Constant(BoolLit(true))
    ensures Highest(q, Inputs(t)) <= |Joins(t)|
    ensures forall l :: Max(1, Highest(q, Inputs(t))) <= l <= |Joins(t)| ==>
      OuterCondition(OuterConditions(f, Inputs(t), Joins(t)), l).Some? && LevelType(Joins(t), l) == LEFT
  {
    var js, os := Joins(t), OuterConditions(f, Inputs(t), Joins(t));
    var c := Collected(FilterCondition(f), js);
    if c.Some? {
      CollectedFrom(f, t, FilterCondition(f), js, q);
      if !FromFilter(f, t, q) {
        var k :| 0 <= k < |js| && FromJoin(f, t, js[k], q);
        JoinConjunctPlaced(f, t, t, k, q);
      } else {
        ConjunctWithin(f, t, t, f.value.condition, q);
      }
    }
    DroppedBelowLeft(f, Inputs(t), js, q);
  }

  lemma {:induction false} DroppedBelowLeft(f: Option<Filter>, ins: seq<Input>, js: seq<Join>, q: Expr)
    requires Highest(q, ins) <= |js| && Place(q, ins, OuterConditions(f, ins, js)) > |js|
    ensures forall l :: Max(1, Highest(q, ins)) <= l <= |js| ==>
      OuterCondition(OuterConditions(f, ins, js), l).Some? && LevelType(js, l) == LEFT
  {
    var os := OuterConditions(f, ins, js);
    DroppedExactly(q, ins, os);
    forall l | Max(1, Highest(q, ins)) <= l <= |js|
      ensures OuterCondition(os, l).Some? && LevelType(js, l) == LEFT
    {
      assert OuterCondition(os, l) == OuterOf(f, ins, js, js[|js| - l]);
    }
  }

  // ---------------------------------------------------------------------------
  // Main results
  // ---------------------------------------------------------------------------

  // A LEFT join whose condition the constructor drops.
  predicate DropsLeft(j: Join) {
    j.joinType == LEFT && AsRead(j.condition).None?
  }

  predicate NoDroppedLeft(t: Tree) {
    t.Node? ==> !DropsLeft(t.join) && NoDroppedLeft(t.left)
  }

  // Every input that such a join adds has a row.
  predicate NoEmptyDropped(t: Tree, db: Database) {
    t.Node? ==> (DropsLeft(t.join) ==> db(t.right.id) != []) && NoEmptyDropped(t.left, db)
  }

  // Level `k` as it is, or a LEFT one without a condition taken as an inner one.
  predicate Taken(types: seq<JoinType>, taken: seq<JoinType>, os: seq<Option<Expr>>, k: nat)
    requires |types| == |taken| == |os| && 1 <= k <= |os|
  {
    taken[k - 1] == types[k - 1] || (types[k - 1] == LEFT && taken[k - 1] == INNER && OuterCondition(os, k).None?)
  }

  predicate NoneEmptied(ins: seq<Input>, types: seq<JoinType>, taken: seq<JoinType>, k: nat, db: Database)
    requires |ins| == |types| + 1 && |types| == |taken| && k <= |types|
  {
    k > 0 ==> (types[k - 1] != taken[k - 1] ==> db(ins[k].id) != []) && NoneEmptied(ins, types, taken, k - 1, db)
  }

  // Without a condition a LEFT join is an inner one, unless there is nothing to join with.
  lemma {:induction false} LevelTaken(ins: seq<Input>, k: nat, c: Option<Expr>, jt: JoinType, taken: JoinType,
                                      m: Meaning, db: Database, tps: seq<Tuple>)
    requires k < |ins| && AllOfLength(tps, k) && (taken == jt || (jt == LEFT && taken == INNER && c.None?))
    ensures ExtendLevel(ins, k, c, taken, m, db, tps)
         == if taken != jt && db(ins[k].id) == [] then [] else ExtendLevel(ins, k, c, jt, m, db, tps)
  {
    if tps != [] && taken != jt {
      assert OfLength(tps[0], k);
      TailLength(tps, k);
      LevelTaken(ins, k, c, jt, taken, m, db, tps[1..]);
    }
  }

  // So the levels yield what they did, or nothing.
  lemma {:induction false} LevelsTaken(ins: seq<Input>, types: seq<JoinType>, taken: seq<JoinType>,
                                       os: seq<Option<Expr>>, k: nat, m: Meaning, db: Database)
    requires |ins| == |types| + 1 && |types| == |taken| == |os| && k <= |os|
    requires forall l :: 1 <= l <= |os| ==> Taken(types, taken, os, l)
    ensures Levels(ins, taken, os, k, m, db)
         == if NoneEmptied(ins, types, taken, k, db) then Levels(ins, types, os, k, m, db) else []
    decreases k
  {
    if k > 0 {
      LevelsTaken(ins, types, taken, os, k - 1, m, db);
      LevelsLength(ins, types, os, k - 1, m, db);
      assert Taken(types, taken, os, k);
      LevelTaken(ins, k, OuterCondition(os, k), types[k - 1], taken[k - 1], m, db,
                 Levels(ins, types, os, k - 1, m, db));
    }
  }

  lemma {:induction false} ExecutorTakes(f: Option<Filter>, s: Tree, t: Tree, db: Database)
    requires IsSubtree(s, t)
    ensures |Joins(s)| <= |Joins(t)|
    ensures var js := Joins(t);
            var types, taken := LevelTypes(js), ExecutorTypes(OuterConditions(f, Inputs(t), js));
            NoneEmptied(Inputs(t), types, taken, |Joins(s)|, db) <==> NoEmptyDropped(s, db)
    decreases s
  {
    SubtreeInputs(s, t);
    if s.Node? {
      SubtreeTransitive(s, t);
      ExecutorTakes(f, s.left, t, db);
      JoinAtLevel(s, t);
      var js, k := Joins(t), |Joins(s)|;
      ExecutorTakesLevel(f, Inputs(t), js, k);
      NoneEmptiedNext(Inputs(t), LevelTypes(js), ExecutorTypes(OuterConditions(f, Inputs(t), js)), k, db, s);
    }
  }

  lemma NoneEmptiedNext(ins: seq<Input>, types: seq<JoinType>, taken: seq<JoinType>, k: nat, db: Database, s: Tree)
    requires |ins| == |types| + 1 && |types| == |taken| && 1 <= k <= |types| && s.Node? && ins[k] == s.right
    requires types[k - 1] != taken[k - 1] <==> DropsLeft(s.join)
    requires NoneEmptied(ins, types, taken, k - 1, db) <==> NoEmptyDropped(s.left, db)
    ensures NoneEmptied(ins, types, taken, k, db) <==> NoEmptyDropped(s, db)
  {
  }

  lemma ExecutorTakesLevel(f: Option<Filter>, ins: seq<Input>, js: seq<Join>, k: nat)
    requires 1 <= k <= |js|
    ensures var os := OuterConditions(f, ins, js);
            && Taken(LevelTypes(js), ExecutorTypes(os), os, k)
            && (LevelTypes(js)[k - 1] != ExecutorTypes(os)[k - 1] <==> DropsLeft(js[|js| - k]))
  {
    assert OuterCondition(OuterConditions(f, ins, js), k) == OuterOf(f, ins, js, js[|js| - k]);
  }

  // With the executor's join types the levels yield what they do with the original ones, or
  // nothing.
  lemma {:induction false} LevelsExecuted(f: Option<Filter>, t: Tree, m: Meaning, db: Database)
    ensures var ins, js := Inputs(t), Joins(t);
            var os := OuterConditions(f, ins, js);
            Levels(ins, ExecutorTypes(os), os, |js|, m, db)
            == if NoEmptyDropped(t, db) then Levels(ins, LevelTypes(js), os, |js|, m, db) else []
  {
    var ins, js := Inputs(t), Joins(t);
    var os := OuterConditions(f, ins, js);
    forall l | 1 <= l <= |os| ensures Taken(LevelTypes(js), ExecutorTypes(os), os, l) {
      ExecutorTakesLevel(f, ins, js, l);
    }
    LevelsTaken(ins, LevelTypes(js), ExecutorTypes(os), os, |js|, m, db);
    ExecutorTakes(f, t, t, db);
  }

  // On a tuple of the tree: the placed conjuncts and the filter together are the condition
  // of the node.
  lemma {:induction false} PlacedAndFilter(f: Option<Filter>, t: Tree, m: Meaning, tp: Tuple)
    requires WellFormed(f, t) && |tp| == |Inputs(t)|
    ensures var ins, js := Inputs(t), Joins(t);
            var c := InnerCondition(f, ins, js);
            var again := f.Some? ==> FlatTest(ins, Rebind(f.value.condition, f, ins, js), m)(tp);
            && (FlatTest(ins, c, m)(tp) ==> PlacedTest(Conjuncts(c), ins, OuterConditions(f, ins, js), |js|, m)(tp))
            && (PlacedTest(Conjuncts(c), ins, OuterConditions(f, ins, js), |js|, m)(tp) && again ==>
                  FlatTest(ins, c, m)(tp))
  {
    var ins, js := Inputs(t), Joins(t);
    var c, os, env := InnerCondition(f, ins, js), OuterConditions(f, ins, js), FlatEnv(ins, tp);
    var cs := Conjuncts(c);
    ConjunctsTrue(c, m, env);
    if f.Some? { ConjunctsTrue(Rebind(f.value.condition, f, ins, js), m, env); }
    if PlacedTest(cs, ins, os, |js|, m)(tp)
       && (f.Some? ==> FlatTest(ins, Rebind(f.value.condition, f, ins, js), m)(tp)) {
      forall j | 0 <= j < |cs| ensures IsTrue(Eval(cs[j], m, env)) {
        if Place(cs[j], ins, os) > |js| { DroppedFromFilter(f, t, cs[j]); }
      }
    }
  }

  // The condition of the node implies the rebound filter.
  lemma {:induction false} ConditionImpliesFilter(f: Filter, t: Tree, m: Meaning, tp: Tuple)
    requires WellFormed(Some(f), t) && Shaped(t, tp)
    ensures var ins, js := Inputs(t), Joins(t);
            FlatTest(ins, InnerCondition(Some(f), ins, js), m)(tp)
            ==> FlatTest(ins, Rebind(f.condition, Some(f), ins, js), m)(tp)
  {
    CollectedConditionMeaning(Some(f), t, m, tp);
    assert tp[..|Inputs(t)|] == tp;
    RebindingPreservesValue(Some(f), t, t, tp, f.condition, m);
  }

  // The tuples that the placed conjuncts select from.
  lemma {:induction false} ExecutedSelects(f: Option<Filter>, t: Tree, m: Meaning, db: Database)
    requires WellFormed(f, t) && RowsFit(t, db)
    ensures var ins, js := Inputs(t), Joins(t);
            ExecutedQuery(f, t, m, db)
            == Select(if NoEmptyDropped(t, db) then Spread(t, m, db) else [],
                      PlacedTest(Conjuncts(InnerCondition(f, ins, js)), ins, OuterConditions(f, ins, js), |js|, m))
  {
    var ins, js := Inputs(t), Joins(t);
    PlanSelects(Conjuncts(InnerCondition(f, ins, js)), ins, OuterConditions(f, ins, js), m, db);
    LevelsExecuted(f, t, m, db);
    LevelsAreSpread(f, t, t, m, db);
  }

  /** The executed node, with the filter applied again above it, is the flattened node: what
      part of the condition the plan drops, the filter makes up for.  Only if an input of a
      LEFT join without a condition is empty, nothing is left. */
  lemma {:induction false} RetainedFilterCompletes(f: Filter, t: Tree, m: Meaning, db: Database)
    requires WellFormed(Some(f), t) && RowsFit(t, db)
    ensures var ins := Inputs(t);
            Select(ExecutedQuery(Some(f), t, m, db), FlatTest(ins, Rebind(f.condition, Some(f), ins, Joins(t)), m))
            == if NoEmptyDropped(t, db) then FlatQuery(Some(f), t, m, db) else []
  {
    var ins, js := Inputs(t), Joins(t);
    var c, os := InnerCondition(Some(f), ins, js), OuterConditions(Some(f), ins, js);
    var spread := Spread(t, m, db);
    ExecutedSelects(Some(f), t, m, db);
    LevelsAreSpread(Some(f), t, t, m, db);
    SpreadShaped(t, m, db);
    var placed, again, flat := PlacedTest(Conjuncts(c), ins, os, |js|, m),
      FlatTest(ins, Rebind(f.condition, Some(f), ins, js), m), FlatTest(ins, c, m);
    forall k | 0 <= k < |spread| ensures flat(spread[k]) <==> placed(spread[k]) && again(spread[k]) {
      PlacedAndFilter(Some(f), t, m, spread[k]);
      ConditionImpliesFilter(f, t, m, spread[k]);
    }
    SelectTwice(spread, placed, again, flat);
  }

  // Every part of the condition has a level.
  ghost predicate AllPlaced(f: Option<Filter>, t: Tree) {
    var ins, js := Inputs(t), Joins(t);
    forall q :: q in Conjuncts(InnerCondition(f, ins, js)) ==> Place(q, ins, OuterConditions(f, ins, js)) <= |js|
  }

  /** If the plan drops no part of the condition, the executed node alone is the flattened
      one, with the same exception. */
  lemma {:induction false} ExecutionPreservesMeaning(f: Option<Filter>, t: Tree, m: Meaning, db: Database)
    requires WellFormed(f, t) && RowsFit(t, db) && (AllPlaced(f, t) || f.None?)
    ensures ExecutedQuery(f, t, m, db) == if NoEmptyDropped(t, db) then FlatQuery(f, t, m, db) else []
  {
    var ins, js := Inputs(t), Joins(t);
    var c, os := InnerCondition(f, ins, js), OuterConditions(f, ins, js);
    var spread := Spread(t, m, db);
    ExecutedSelects(f, t, m, db);
    LevelsAreSpread(f, t, t, m, db);
    SpreadShaped(t, m, db);
    var placed, flat := PlacedTest(Conjuncts(c), ins, os, |js|, m), FlatTest(ins, c, m);
    forall k | 0 <= k < |spread| ensures flat(spread[k]) == placed(spread[k]) {
      PlacedAndFilter(f, t, m, spread[k]);
      if AllPlaced(f, t) { ConjunctsTrue(c, m, FlatEnv(ins, spread[k])); }
    }
    SelectAgrees(spread, flat, placed);
  }

  /** Under an outermost inner join nothing is dropped. */
  lemma {:induction false} InnerRootPlacesAll(f: Option<Filter>, t: Tree)
    requires WellFormed(f, t) && t.Node? && t.join.joinType == INNER
    ensures AllPlaced(f, t)
  {
    var ins, js := Inputs(t), Joins(t);
    var os := OuterConditions(f, ins, js);
    assert OuterCondition(os, |js|) == OuterOf(f, ins, js, js[0]) == None;
    forall q | q in Conjuncts(InnerCondition(f, ins, js)) ensures Place(q, ins, os) <= |js| {
      if Place(q, ins, os) > |js| { DroppedFromFilter(f, t, q); }
    }
  }

  // What runs in place of the query: get_left_deep_join_root takes the filter away only above
  // an inner join; above a LEFT join it stays, rebound.
  function PlanRows(f: Option<Filter>, t: Tree, m: Meaning, db: Database): seq<Tuple>
    requires t.Node?
  {
    var rows := ExecutedQuery(f, t, m, db);
    if f.Some? && t.join.joinType == LEFT
    then Select(rows, FlatTest(Inputs(t), Rebind(f.value.condition, f, Inputs(t), Joins(t)), m))
    else rows
  }

  /** The executed plan, for every tree of joins with an optional filter and every database:
      it yields what the flattened node does, and nothing if an input of a LEFT join that lost
      its condition is empty.  So, up to joins on the NULL literal, it is right if and only if
      no such input is empty or the query has no rows anyway. */
  lemma {:induction false} PlanExactly(f: Option<Filter>, t: Tree, m: Meaning, db: Database)
    requires t.Node? && WellFormed(f, t) && RowsFit(t, db)
    ensures PlanRows(f, t, m, db) == if NoEmptyDropped(t, db) then FlatQuery(f, t, m, db) else []
    ensures HarmlessNulls(t, db) ==>
      (PlanRows(f, t, m, db) == Query(f, t, m, db) <==> NoEmptyDropped(t, db) || Query(f, t, m, db) == [])
  {
    if f.Some? && t.join.joinType == LEFT {
      RetainedFilterCompletes(f.value, t, m, db);
    } else {
      if f.Some? { InnerRootPlacesAll(f, t); }
      ExecutionPreservesMeaning(f, t, m, db);
    }
    if HarmlessNulls(t, db) { FlatteningPreservesMeaning(f, t, m, db); }
  }

  // Every join is LEFT with a condition.
  predicate AllOuter(t: Tree) {
    t.Node? ==> t.join.joinType == LEFT && !DropsLeft(t.join) && AllOuter(t.left)
  }

  lemma {:induction false} AllOuterListed(t: Tree)
    requires AllOuter(t)
    ensures forall k :: 0 <= k < |Joins(t)| ==> Joins(t)[k].joinType == LEFT && !DropsLeft(Joins(t)[k])
    ensures forall db: Database :: NoEmptyDropped(t, db)
  {
    if t.Node? { AllOuterListed(t.left); }
  }

  lemma {:induction false} NothingPlaced(f: Option<Filter>, t: Tree, q: Expr)
    requires AllOuter(t)
    ensures Place(q, Inputs(t), OuterConditions(f, Inputs(t), Joins(t))) > |Joins(t)|
  {
    var ins, js := Inputs(t), Joins(t);
    var os, place := OuterConditions(f, ins, js), Place(q, ins, OuterConditions(f, ins, js));
    AllOuterListed(t);
    if place <= |js| {
      assert OuterCondition(os, place) == OuterOf(f, ins, js, js[|js| - place]);
      NotPlacedAtOuter(q, ins, os, place);
    }
  }

  /** The retained filter is needed: when every join is LEFT with a condition, the executed node
      ignores the filter altogether and yields the tuples of the joins alone. */
  lemma {:induction false} FilterNotApplied(f: Filter, t: Tree, m: Meaning, db: Database)
    requires WellFormed(Some(f), t) && RowsFit(t, db) && HarmlessNulls(t, db) && AllOuter(t)
    ensures ExecutedQuery(Some(f), t, m, db) == Nested(t, m, db)
  {
    var ins, js := Inputs(t), Joins(t);
    var cs, os := Conjuncts(InnerCondition(Some(f), ins, js)), OuterConditions(Some(f), ins, js);
    var spread, placed := Spread(t, m, db), PlacedTest(cs, ins, os, |js|, m);
    AllOuterListed(t);
    ExecutedSelects(Some(f), t, m, db);
    SpreadShaped(t, m, db);
    forall k | 0 <= k < |spread| ensures placed(spread[k]) && InnerTest(t, m)(spread[k]) {
      forall j | 0 <= j < |cs| ensures Place(cs[j], ins, os) > |js| { NothingPlaced(Some(f), t, cs[j]); }
      NoInnerConditions(t, m, spread[k]);
    }
    SelectAll(spread, placed, true);
    SelectAll(spread, InnerTest(t, m), true);
    NestedIsSelectedSpread(t, m, db);
    HarmlessAgrees(t, m, db);
  }

  lemma {:induction false} NoInnerConditions(t: Tree, m: Meaning, tp: Tuple)
    requires AllOuter(t) && |tp| == |Inputs(t)|
    ensures InnerHolds(t, m, tp)
  {
    if t.Node? { NoInnerConditions(t.left, m, tp[..|tp| - 1]); }
  }

  // ---------------------------------------------------------------------------
  // LEFT joins that lost their condition
  // ---------------------------------------------------------------------------

  // Only LEFT joins add input `r`.
  predicate AddedByLeft(t: Tree, r: NodeId) {
    match t
    case Leaf(input) => input.id != r
    case Node(j, l, right) => (right.id == r ==> j.joinType == LEFT) && AddedByLeft(l, r)
  }

  lemma {:induction false} AbsentInput(t: Tree, r: NodeId)
    requires !IsNodeOf(t, r)
    ensures AddedByLeft(t, r)
  {
    if t.Node? { AbsentInput(t.left, r); }
  }

  lemma {:induction false} FindDropped(t: Tree) returns (s: Tree)
    requires Distinct(t) && !NoDroppedLeft(t)
    ensures IsSubtree(s, t) && s.Node? && DropsLeft(s.join) && IsNodeOf(t, s.right.id) && AddedByLeft(t, s.right.id)
  {
    if DropsLeft(t.join) {
      s := t;
      AbsentInput(t.left, t.right.id);
    } else {
      s := FindDropped(t.left);
    }
  }

  // One row everywhere but in `r`, which is empty: the nested joins yield one tuple.
  lemma {:induction false} NestedYieldsOne(t: Tree, m: Meaning, db: Database, r: NodeId)
    requires PlainConditions(t) && NoNullCondition(t) && !SomeFalseInner(t) && AddedByLeft(t, r)
    requires forall input :: input in Inputs(t) ==> |db(input.id)| == if input.id == r then 0 else 1
    ensures AllLong(t, Nested(t, m, db)) && |Nested(t, m, db)| == 1
  {
    match t
    case Leaf(input) =>
      assert input in Inputs(t);
      SinglesCount(db(input.id));
    case Node(j, l, right) =>
      assert Inputs(t)[|Inputs(l)|] == right && right in Inputs(t);
      assert forall input :: input in Inputs(l) ==> input in Inputs(t);
      NestedYieldsOne(l, m, db, r);
      ExtendAllCount(t, j.condition, m, db, Nested(l, m, db));
  }

  lemma {:induction false} NoneDropped(t: Tree, db: Database)
    requires NoDroppedLeft(t)
    ensures NoEmptyDropped(t, db)
  {
    if t.Node? { NoneDropped(t.left, db); }
  }

  lemma {:induction false} EmptyDropped(s: Tree, t: Tree, db: Database)
    requires IsSubtree(s, t) && s.Node? && DropsLeft(s.join) && db(s.right.id) == []
    ensures !NoEmptyDropped(t, db)
  {
    if s != t { EmptyDropped(s, t.left, db); }
  }

  lemma {:induction false} NothingEmpty(t: Tree, db: Database)
    requires forall input :: input in Inputs(t) ==> db(input.id) != []
    ensures NoEmptyDropped(t, db)
  {
    if t.Node? {
      assert Inputs(t)[|Inputs(t.left)|] == t.right && t.right in Inputs(t);
      assert forall input :: input in Inputs(t.left) ==> input in Inputs(t);
      NothingEmpty(t.left, db);
    }
  }

  lemma {:induction false} FalseInnerYieldsNothing(t: Tree, m: Meaning, db: Database)
    requires WellFormed(None, t) && RowsFit(t, db) && PlainConditions(t) && SomeFalseInner(t)
    ensures ExecutedQuery(None, t, m, db) == [] == Query(None, t, m, db)
  {
    FalseInnerIsEmpty(t, db);
    PlainCounts(t, m, db);
    FlatteningTheorem(None, t, m, db);
    ExecutionPreservesMeaning(None, t, m, db);
  }

  // A database on which a LEFT join without a condition loses rows.
  lemma {:induction false} DroppedLoses(t: Tree, m: Meaning) returns (db: Database)
    requires WellFormed(None, t) && PlainConditions(t) && NoNullCondition(t) && !SomeFalseInner(t) && !NoDroppedLeft(t)
    ensures RowsFit(t, db) && ExecutedQuery(None, t, m, db) != Query(None, t, m, db)
  {
    var s := FindDropped(t);
    var rows := (n: NodeId) => if n == s.right.id then 0 else 1;
    db := Zeros(Inputs(t), rows);
    ZerosFit(t, rows);
    NestedYieldsOne(t, m, db, s.right.id);
    SelectEverything(t, Nested(t, m, db), m);
    EmptyDropped(s, t, db);
    ExecutionPreservesMeaning(None, t, m, db);
  }

  // A database on which a join on NULL changes the result.
  lemma {:induction false} NullTells(t: Tree, m: Meaning) returns (db: Database)
    requires WellFormed(None, t) && PlainConditions(t) && !NoNullCondition(t) && !SomeFalseInner(t)
    ensures RowsFit(t, db) && ExecutedQuery(None, t, m, db) != Query(None, t, m, db)
  {
    db := Zeros(Inputs(t), (n: NodeId) => 2);
    ZerosFit(t, (n: NodeId) => 2);
    TwoRowsTell(t, db);
    NullResultExactly(t, m, db);
    NothingEmpty(t, db);
    ExecutionPreservesMeaning(None, t, m, db);
  }

  /** For a chain of any length and any join types whose conditions are absent or boolean
      literals, execution is right for every database if and only if no condition is the NULL
      literal and no LEFT join has lost its condition, or an inner join is on FALSE. */
  lemma {:induction false} DroppedLeftExactly(t: Tree, m: Meaning)
    requires WellFormed(None, t) && PlainConditions(t)
    ensures (forall db: Database :: RowsFit(t, db) ==> ExecutedQuery(None, t, m, db) == Query(None, t, m, db))
      <==> (NoNullCondition(t) && NoDroppedLeft(t)) || SomeFalseInner(t)
  {
    if SomeFalseInner(t) {
      forall db: Database | RowsFit(t, db) ensures ExecutedQuery(None, t, m, db) == Query(None, t, m, db) {
        FalseInnerYieldsNothing(t, m, db);
      }
    } else if NoNullCondition(t) && NoDroppedLeft(t) {
      forall db: Database | RowsFit(t, db) ensures ExecutedQuery(None, t, m, db) == Query(None, t, m, db) {
        NoneDropped(t, db);
        NoNullIsHarmless(t, db);
        ExecutionPreservesMeaning(None, t, m, db);
        FlatteningPreservesMeaning(None, t, m, db);
      }
    } else if NoNullCondition(t) {
      var db := DroppedLoses(t, m);
    } else {
      var db := NullTells(t, m);
    }
  }

  /** `A LEFT JOIN B ON TRUE`, when `B` is empty: the query has a row for every row of `A`, the
      plan has none. */
  lemma DroppedLeftExample(a: Input, b: Input, id: NodeId, m: Meaning, db: Database)
    requires a.id != b.id && id != a.id && id != b.id && db(b.id) == []
    requires forall k :: 0 <= k < |db(a.id)| ==> |db(a.id)[k]| == a.width
    ensures var t := Node(Join(id, Some(Constant(BoolLit(true))), LEFT), Leaf(a), b);
            PlanRows(None, t, m, db) == [] && |Query(None, t, m, db)| == |db(a.id)|
  {
    var t := Node(Join(id, Some(Constant(BoolLit(true))), LEFT), Leaf(a), b);
    assert Inputs(t) == [a, b];
    PlanExactly(None, t, m, db);
    SinglesCount(db(a.id));
    ExtendAllCount(t, t.join.condition, m, db, Nested(t.left, m, db));
    SelectEverything(t, Nested(t, m, db), m);
  }
}
