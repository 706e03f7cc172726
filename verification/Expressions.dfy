/** Scalar expressions of the query IR, their three-valued meaning, and the structural
    rewriting that underlies every rebinding visitor (ExprRewriter). */
module Expressions {

  // Nodes are compared by identity, so a column reference names its node by id.
  type NodeId = nat

  datatype Value = Null | Bool(b: bool) | Int(i: int)

  // A typed literal: `NullBool` is the NULL of boolean type.
  datatype Literal = BoolLit(b: bool) | NullBool | IntLit(i: int) | NullInt

  datatype UnaryOp = Not | IsNull | OtherUnary(code: nat)

  datatype BinaryOp = And | Or | OtherBinary(code: nat)

  datatype Expr =
    | ColumnRef(node: NodeId, index: nat)
    | Constant(literal: Literal)
    | UOper(uop: UnaryOp, operand: Expr)
    | BinOper(bop: BinaryOp, lhs: Expr, rhs: Expr)
    | InValues(arg: Expr, values: seq<Expr>)
    // whens[k] guards thens[k]; orElse holds at most one expression
    | CaseExpr(whens: seq<Expr>, thens: seq<Expr>, orElse: seq<Expr>)
    | FunctionOper(name: string, args: seq<Expr>)

  // The meaning of every operator other than the logical ones is a parameter.
  datatype Meaning = Meaning(unary: (nat, Value) -> Value,
                             binary: (nat, Value, Value) -> Value,
                             func: (string, seq<Value>) -> Value)

  // What every column reference evaluates to on the current row.
  type Env = (NodeId, nat) -> Value

  // How a rewriter replaces column references.
  type RefMap = (NodeId, nat) -> (NodeId, nat)

  function LiteralValue(l: Literal): Value {
    match l
    case BoolLit(b) => Bool(b)
    case IntLit(i) => Int(i)
    case NullBool => Null
    case NullInt => Null
  }

  function And3(a: Value, b: Value): Value {
    if a == Bool(false) || b == Bool(false) then Bool(false)
    else if a == Bool(true) && b == Bool(true) then Bool(true)
    else Null
  }

  function Not3(a: Value): Value {
    if a.Bool? then Bool(!a.b) else Null
  }

  function Or3(a: Value, b: Value): Value {
    Not3(And3(Not3(a), Not3(b)))
  }

  // SQL `x IN (v1, ..., vn)`: true on a hit, otherwise NULL if a NULL took part.
  function In3(x: Value, vs: seq<Value>): Value {
    if x == Null then Null
    else if x in vs then Bool(true)
    else if Null in vs then Null
    else Bool(false)
  }

  // The value of the first branch whose guard is true, else of the ELSE branch, else NULL.
  function Case3(whens: seq<Value>, thens: seq<Value>, orElse: seq<Value>): Value {
    if whens == [] || thens == [] then (if orElse == [] then Null else orElse[0])
    else if IsTrue(whens[0]) then thens[0]
    else Case3(whens[1..], thens[1..], orElse)
  }

  predicate IsTrue(v: Value) { v == Bool(true) }

  function Eval(e: Expr, m: Meaning, env: Env): Value
    decreases e, 1
  {
    match e
    case ColumnRef(node, index) => env(node, index)
    case Constant(l) => LiteralValue(l)
    case UOper(op, x) =>
      var v := Eval(x, m, env);
      (match op
       case Not => Not3(v)
       case IsNull => Bool(v == Null)
       case OtherUnary(c) => m.unary(c, v))
    case BinOper(op, x, y) =>
      var v, w := Eval(x, m, env), Eval(y, m, env);
      (match op
       case And => And3(v, w)
       case Or => Or3(v, w)
       case OtherBinary(c) => m.binary(c, v, w))
    case InValues(x, vs) => In3(Eval(x, m, env), EvalAll(vs, m, env))
    case CaseExpr(ws, ts, es) => Case3(EvalAll(ws, m, env), EvalAll(ts, m, env), EvalAll(es, m, env))
    case FunctionOper(name, args) => m.func(name, EvalAll(args, m, env))
  }

  function EvalAll(es: seq<Expr>, m: Meaning, env: Env): (vs: seq<Value>)
    ensures |vs| == |es|
    decreases es, 0
  {
    if es == [] then [] else [Eval(es[0], m, env)] + EvalAll(es[1..], m, env)
  }

  // The rewriter: every node is rebuilt around its rewritten children.
  function MapRefs(e: Expr, f: RefMap): Expr
    decreases e, 1
  {
    match e
    case ColumnRef(node, index) => var r := f(node, index); ColumnRef(r.0, r.1)
    case Constant(_) => e
    case UOper(op, x) => UOper(op, MapRefs(x, f))
    case BinOper(op, x, y) => BinOper(op, MapRefs(x, f), MapRefs(y, f))
    case InValues(x, vs) => InValues(MapRefs(x, f), MapAll(vs, f))
    case CaseExpr(ws, ts, es) => CaseExpr(MapAll(ws, f), MapAll(ts, f), MapAll(es, f))
    case FunctionOper(name, args) => FunctionOper(name, MapAll(args, f))
  }

  function MapAll(es: seq<Expr>, f: RefMap): (rs: seq<Expr>)
    ensures |rs| == |es|
    decreases es, 0
  {
    if es == [] then [] else [MapRefs(es[0], f)] + MapAll(es[1..], f)
  }

  // Every column reference occurring in `e` satisfies `p`.
  predicate RefsIn(e: Expr, p: (NodeId, nat) -> bool)
    decreases e, 1
  {
    match e
    case ColumnRef(node, index) => p(node, index)
    case Constant(_) => true
    case UOper(_, x) => RefsIn(x, p)
    case BinOper(_, x, y) => RefsIn(x, p) && RefsIn(y, p)
    case InValues(x, vs) => RefsIn(x, p) && RefsInAll(vs, p)
    case CaseExpr(ws, ts, es) => RefsInAll(ws, p) && RefsInAll(ts, p) && RefsInAll(es, p)
    case FunctionOper(_, args) => RefsInAll(args, p)
  }

  predicate RefsInAll(es: seq<Expr>, p: (NodeId, nat) -> bool)
    decreases es, 0
  {
    es == [] || (RefsIn(es[0], p) && RefsInAll(es[1..], p))
  }

  // `env'` reads every `p`-reference through `f` as `env` reads it directly.
  ghost predicate ReadsThrough(p: (NodeId, nat) -> bool, f: RefMap, env: Env, env': Env) {
    forall n: NodeId, i: nat :: p(n, i) ==> env'(f(n, i).0, f(n, i).1) == env(n, i)
  }

  /** Rewriting preserves the value: an expression rewritten by `f` has, in `env'`, the
      value the original has in `env`. */
  lemma {:induction false} MapRefsPreservesValue(
    e: Expr, f: RefMap, p: (NodeId, nat) -> bool, m: Meaning, env: Env, env': Env)
    requires RefsIn(e, p) && ReadsThrough(p, f, env, env')
    ensures Eval(MapRefs(e, f), m, env') == Eval(e, m, env)
    decreases e, 1
  {
    match e
    case ColumnRef(node, index) =>
    case Constant(_) =>
    case UOper(_, x) =>
      MapRefsPreservesValue(x, f, p, m, env, env');
    case BinOper(_, x, y) =>
      MapRefsPreservesValue(x, f, p, m, env, env');
      MapRefsPreservesValue(y, f, p, m, env, env');
    case InValues(x, vs) =>
      MapRefsPreservesValue(x, f, p, m, env, env');
      MapAllPreservesValues(vs, f, p, m, env, env');
    case CaseExpr(ws, ts, es) =>
      MapAllPreservesValues(ws, f, p, m, env, env');
      MapAllPreservesValues(ts, f, p, m, env, env');
      MapAllPreservesValues(es, f, p, m, env, env');
    case FunctionOper(_, args) =>
      MapAllPreservesValues(args, f, p, m, env, env');
  }

  lemma {:induction false} MapAllPreservesValues(
    es: seq<Expr>, f: RefMap, p: (NodeId, nat) -> bool, m: Meaning, env: Env, env': Env)
    requires RefsInAll(es, p) && ReadsThrough(p, f, env, env')
    ensures EvalAll(MapAll(es, f), m, env') == EvalAll(es, m, env)
    decreases es, 0
  {
    if es != [] {
      MapRefsPreservesValue(es[0], f, p, m, env, env');
      MapAllPreservesValues(es[1..], f, p, m, env, env');
      assert MapAll(es, f)[1..] == MapAll(es[1..], f);
    }
  }

  /** The references of a rewritten expression are the images of the original ones. */
  lemma {:induction false} MapRefsTargets(
    e: Expr, f: RefMap, p: (NodeId, nat) -> bool, q: (NodeId, nat) -> bool)
    requires RefsIn(e, p)
    requires forall n: NodeId, i: nat :: p(n, i) ==> q(f(n, i).0, f(n, i).1)
    ensures RefsIn(MapRefs(e, f), q)
    decreases e, 1
  {
    match e
    case ColumnRef(node, index) =>
    case Constant(_) =>
    case UOper(_, x) =>
      MapRefsTargets(x, f, p, q);
    case BinOper(_, x, y) =>
      MapRefsTargets(x, f, p, q);
      MapRefsTargets(y, f, p, q);
    case InValues(x, vs) =>
      MapRefsTargets(x, f, p, q);
      MapAllTargets(vs, f, p, q);
    case CaseExpr(ws, ts, es) =>
      MapAllTargets(ws, f, p, q);
      MapAllTargets(ts, f, p, q);
      MapAllTargets(es, f, p, q);
    case FunctionOper(_, args) =>
      MapAllTargets(args, f, p, q);
  }

  lemma {:induction false} MapAllTargets(
    es: seq<Expr>, f: RefMap, p: (NodeId, nat) -> bool, q: (NodeId, nat) -> bool)
    requires RefsInAll(es, p)
    requires forall n: NodeId, i: nat :: p(n, i) ==> q(f(n, i).0, f(n, i).1)
    ensures RefsInAll(MapAll(es, f), q)
    decreases es, 0
  {
    if es != [] {
      MapRefsTargets(es[0], f, p, q);
      MapAllTargets(es[1..], f, p, q);
      assert MapAll(es, f)[1..] == MapAll(es[1..], f);
    }
  }

  /** Two rewritings in a row are one, when `h` sends every reference where `g` after `f` does. */
  lemma {:induction false} MapRefsCompose(
    e: Expr, f: RefMap, g: RefMap, h: RefMap, p: (NodeId, nat) -> bool)
    requires RefsIn(e, p)
    requires forall n: NodeId, i: nat :: p(n, i) ==> g(f(n, i).0, f(n, i).1) == h(n, i)
    ensures MapRefs(MapRefs(e, f), g) == MapRefs(e, h)
    decreases e, 1
  {
    match e
    case ColumnRef(node, index) =>
    case Constant(_) =>
    case UOper(_, x) =>
      MapRefsCompose(x, f, g, h, p);
    case BinOper(_, x, y) =>
      MapRefsCompose(x, f, g, h, p);
      MapRefsCompose(y, f, g, h, p);
    case InValues(x, vs) =>
      MapRefsCompose(x, f, g, h, p);
      MapAllCompose(vs, f, g, h, p);
    case CaseExpr(ws, ts, es) =>
      MapAllCompose(ws, f, g, h, p);
      MapAllCompose(ts, f, g, h, p);
      MapAllCompose(es, f, g, h, p);
    case FunctionOper(_, args) =>
      MapAllCompose(args, f, g, h, p);
  }

  lemma {:induction false} MapAllCompose(
    es: seq<Expr>, f: RefMap, g: RefMap, h: RefMap, p: (NodeId, nat) -> bool)
    requires RefsInAll(es, p)
    requires forall n: NodeId, i: nat :: p(n, i) ==> g(f(n, i).0, f(n, i).1) == h(n, i)
    ensures MapAll(MapAll(es, f), g) == MapAll(es, h)
    decreases es, 0
  {
    if es != [] {
      MapRefsCompose(es[0], f, g, h, p);
      MapAllCompose(es[1..], f, g, h, p);
      assert MapAll(es, f)[1..] == MapAll(es[1..], f);
    }
  }

  /** A rewriting that fixes every reference of `e` gives back `e`. */
  lemma {:induction false} MapRefsIdentity(e: Expr, f: RefMap, p: (NodeId, nat) -> bool)
    requires RefsIn(e, p)
    requires forall n: NodeId, i: nat :: p(n, i) ==> f(n, i) == (n, i)
    ensures MapRefs(e, f) == e
    decreases e, 1
  {
    match e
    case ColumnRef(node, index) =>
    case Constant(_) =>
    case UOper(_, x) =>
      MapRefsIdentity(x, f, p);
    case BinOper(_, x, y) =>
      MapRefsIdentity(x, f, p);
      MapRefsIdentity(y, f, p);
    case InValues(x, vs) =>
      MapRefsIdentity(x, f, p);
      MapAllIdentity(vs, f, p);
    case CaseExpr(ws, ts, es) =>
      MapAllIdentity(ws, f, p);
      MapAllIdentity(ts, f, p);
      MapAllIdentity(es, f, p);
    case FunctionOper(_, args) =>
      MapAllIdentity(args, f, p);
  }

  lemma {:induction false} MapAllIdentity(es: seq<Expr>, f: RefMap, p: (NodeId, nat) -> bool)
    requires RefsInAll(es, p)
    requires forall n: NodeId, i: nat :: p(n, i) ==> f(n, i) == (n, i)
    ensures MapAll(es, f) == es
    decreases es, 0
  {
    if es != [] {
      MapRefsIdentity(es[0], f, p);
      MapAllIdentity(es[1..], f, p);
    }
  }

}
