/** Redirecting the parents of a flattened join tree to the flattened node:
    Node::replaceInput and the loop of create_left_deep_join. */
module ParentRewriting {
  import opened Basics
  import opened Expressions
  import opened LeftDeepJoin
  import opened JoinFlattening

  // The flattened node a parent is redirected to.
  datatype Flattened = Flattened(id: NodeId, filter: Option<Filter>, tree: Tree)

  predicate CoversNode(d: Flattened, n: NodeId) {
    Covers(d.filter, Joins(d.tree), n)
  }

  function Resolve(d: Flattened): RefMap {
    Resolver(d.filter, Inputs(d.tree), Joins(d.tree))
  }

  // RebindInputsVisitor: only references to the replaced node are resolved.
  function StepMap(d: Flattened, replaced: NodeId): RefMap {
    (n: NodeId, i: nat) => if n == replaced then Resolve(d)(n, i) else (n, i)
  }

  // All references to the nodes in `done` are resolved.
  function DoneMap(d: Flattened, done: seq<NodeId>): RefMap {
    (n: NodeId, i: nat) => if n in done then Resolve(d)(n, i) else (n, i)
  }

  function JoinIds(t: Tree): seq<NodeId> {
    if t.Leaf? then [] else [t.join.id] + JoinIds(t.left)
  }

  // Node::replaceInput stops at the first occurrence.
  function ReplaceFirst(inputs: seq<NodeId>, old_: NodeId, new_: NodeId): (r: seq<NodeId>)
    ensures |r| == |inputs|
  {
    if inputs == [] then []
    else if inputs[0] == old_ then [new_] + inputs[1..]
    else [inputs[0]] + ReplaceFirst(inputs[1..], old_, new_)
  }

  ghost predicate Usable(d: Flattened) {
    WellFormed(d.filter, d.tree)
  }

  // ---------------------------------------------------------------------------
  // One pass of resolution
  // ---------------------------------------------------------------------------

  lemma {:induction false} FoundIsInput(ins: seq<Input>, i: nat)
    requires FirstGreater(PrefixSums(ins), i) < |ins|
    ensures exists k :: 0 <= k < |ins| && Locate(ins, i).0 == ins[k].id
  {
  }

  /** A resolved reference is either a reference to an input, which no rewriting touches,
      or unchanged; so resolving twice is resolving once. */
  lemma {:induction false} ResolveTwice(d: Flattened, n: NodeId, i: nat)
    requires Usable(d)
    ensures var r := Resolve(d)(n, i); Resolve(d)(r.0, r.1) == r
    ensures Resolve(d)(n, i) != (n, i) ==> !CoversNode(d, Resolve(d)(n, i).0)
  {
    var ins := Inputs(d.tree);
    if CoversNode(d, n) && FirstGreater(PrefixSums(ins), i) < |ins| {
      FoundIsInput(ins, i);
      var k :| 0 <= k < |ins| && Locate(ins, i).0 == ins[k].id;
      InputsAreNotCovered(d.filter, d.tree, k);
    }
  }

  lemma {:induction false} StepAfterDone(d: Flattened, done: seq<NodeId>, next: NodeId, e: Expr)
    requires Usable(d)
    ensures MapRefs(MapRefs(e, DoneMap(d, done)), StepMap(d, next)) == MapRefs(e, DoneMap(d, done + [next]))
  {
    var f, g, h := DoneMap(d, done), StepMap(d, next), DoneMap(d, done + [next]);
    forall n: NodeId, i: nat ensures g(f(n, i).0, f(n, i).1) == h(n, i) {
      ResolveTwice(d, n, i);
    }
    AnythingGoes(e);
    MapRefsCompose(e, f, g, h, Anything());
  }

  lemma {:induction false} JoinIdsAreListed(t: Tree, n: NodeId)
    ensures n in JoinIds(t) <==> exists k :: 0 <= k < |Joins(t)| && Joins(t)[k].id == n
  {
    if t.Node? {
      JoinIdsAreListed(t.left, n);
      if n == t.join.id {
        assert Joins(t)[0].id == n;
      } else if exists k :: 0 <= k < |Joins(t.left)| && Joins(t.left)[k].id == n {
        var k :| 0 <= k < |Joins(t.left)| && Joins(t.left)[k].id == n;
        assert Joins(t)[k + 1].id == n;
      } else {
        assert forall k :: 0 < k < |Joins(t)| ==> Joins(t)[k] == Joins(t.left)[k - 1];
      }
    }
  }

  lemma {:induction false} CoversJoinIds(f: Option<Filter>, t: Tree, n: NodeId)
    ensures Covers(f, Joins(t), n) <==> n in JoinIds(t) || (f.Some? && f.value.id == n)
  {
    JoinIdsAreListed(t, n);
  }

  // The candidate whose join tree is flattened: the filter if there is one, else the parent.
  ghost predicate IsCandidate(d: Flattened, candidate: NodeId) {
    if d.filter.Some? then candidate == d.filter.value.id else !CoversNode(d, candidate)
  }

  /** Replacing the candidate and then every join of the chain, one by one, is the same as
      rebinding all references to the flattened node in one pass. */
  lemma {:induction false} ChainIsOnePass(d: Flattened, candidate: NodeId, e: Expr)
    requires Usable(d) && IsCandidate(d, candidate)
    ensures MapRefs(e, DoneMap(d, [candidate] + JoinIds(d.tree))) == MapRefs(e, Resolve(d))
  {
    var all, none := DoneMap(d, [candidate] + JoinIds(d.tree)), DoneMap(d, []);
    forall n: NodeId, i: nat ensures all(n, i) == Resolve(d)(n, i) {
      CoversJoinIds(d.filter, d.tree, n);
      assert n in [candidate] + JoinIds(d.tree) <==> n == candidate || n in JoinIds(d.tree);
    }
    AnythingGoes(e);
    assert forall n: NodeId, i: nat :: Anything()(n, i) ==> none(n, i) == (n, i);
    MapRefsIdentity(e, none, Anything());
    MapRefsCompose(e, none, all, Resolve(d), Anything());
  }

  // ---------------------------------------------------------------------------
  // What the rewriting achieves
  // ---------------------------------------------------------------------------

  // A parent's references to the replaced nodes are to columns those nodes have.
  function ParentScope(d: Flattened): (NodeId, nat) -> bool {
    (n: NodeId, i: nat) => CoversNode(d, n) ==> i < Size(d.tree)
  }

  function Untouched(d: Flattened): (NodeId, nat) -> bool {
    (n: NodeId, i: nat) => !CoversNode(d, n)
  }

  /** Complete: no reference to the original filter or to any original join remains. */
  lemma {:induction false} NoOriginalReferenceRemains(d: Flattened, e: Expr)
    requires Usable(d) && RefsIn(e, ParentScope(d))
    ensures RefsIn(MapRefs(e, Resolve(d)), Untouched(d))
  {
    var p, q, f := ParentScope(d), Untouched(d), Resolve(d);
    forall n: NodeId, i: nat | p(n, i) ensures q(f(n, i).0, f(n, i).1) {
      if CoversNode(d, n) {
        LookupIsDescent(d.tree, i);
        FoundIsInput(Inputs(d.tree), i);
        var k :| 0 <= k < |Inputs(d.tree)| && Locate(Inputs(d.tree), i).0 == Inputs(d.tree)[k].id;
        InputsAreNotCovered(d.filter, d.tree, k);
      }
    }
    MapRefsTargets(e, f, p, q);
  }

  /** Stable: rebinding again changes nothing. */
  lemma {:induction false} RebindingIsIdempotent(d: Flattened, e: Expr)
    requires Usable(d)
    ensures MapRefs(MapRefs(e, Resolve(d)), Resolve(d)) == MapRefs(e, Resolve(d))
  {
    forall n: NodeId, i: nat
      ensures var r := Resolve(d)(n, i); Resolve(d)(r.0, r.1) == Resolve(d)(n, i)
    {
      ResolveTwice(d, n, i);
    }
    AnythingGoes(e);
    MapRefsCompose(e, Resolve(d), Resolve(d), Resolve(d), Anything());
  }

  // What references mean to a parent before: a join's and the filter's columns are those of
  // the joined rows; references to other nodes are left to `other`.
  function ParentEnv(d: Flattened, tp: Tuple, other: Env): Env
    requires |tp| == |Inputs(d.tree)|
  {
    (n: NodeId, i: nat) =>
      if d.filter.Some? && n == d.filter.value.id then At(Flatten(tp), i)
      else if IsNodeOf(d.tree, n) then ReadRef(d.tree, tp, n, i)
      else other(n, i)
  }

  // And after: the flattened node binds one row of every input.
  function FlatParentEnv(d: Flattened, tp: Tuple, other: Env): Env
    requires |tp| == |Inputs(d.tree)|
  {
    (n: NodeId, i: nat) =>
      if IsNodeOf(d.tree, n) then ReadInput(Inputs(d.tree), tp, n, i) else other(n, i)
  }

  // References a parent may hold: columns of nodes of the tree or of the filter, or
  // anything about other nodes.
  function ParentRefs(d: Flattened): (NodeId, nat) -> bool {
    (n: NodeId, i: nat) =>
      if d.filter.Some? && n == d.filter.value.id then i < Size(d.tree)
      else IsNodeOf(d.tree, n) ==> InScope(d.tree, n, i)
  }

  lemma {:induction false} ResolvedReadsTheSame(d: Flattened, tp: Tuple, other: Env, n: NodeId, i: nat)
    requires Usable(d) && Shaped(d.tree, tp) && ParentRefs(d)(n, i)
    ensures var r := Resolve(d)(n, i);
            FlatParentEnv(d, tp, other)(r.0, r.1) == ParentEnv(d, tp, other)(n, i)
  {
    var t, ins := d.tree, Inputs(d.tree);
    assert tp[..|ins|] == tp;
    IdsOfInputs(t);
    if d.filter.Some? && n == d.filter.value.id {
      LookupIsDescent(t, i);
      InputIdsDistinct(t);
      DescentReads(t, ins, tp, tp, i);
      FoundIsInput(ins, i);
    } else if IsNodeOf(t, n) {
      RebindingReads(d.filter, t, t, tp, n, i);
      if Resolve(d)(n, i) != (n, i) { FoundIsInput(ins, i); }
    } else {
      IdsOfJoins(t);
    }
  }

  /** Value preserving: on every tuple every rewritten expression has its original value. */
  lemma {:induction false} RewritingPreservesValue(d: Flattened, tp: Tuple, other: Env, e: Expr, m: Meaning)
    requires Usable(d) && Shaped(d.tree, tp) && RefsIn(e, ParentRefs(d))
    ensures Eval(MapRefs(e, Resolve(d)), m, FlatParentEnv(d, tp, other)) == Eval(e, m, ParentEnv(d, tp, other))
  {
    forall n: NodeId, i: nat | ParentRefs(d)(n, i)
      ensures var r := Resolve(d)(n, i);
              FlatParentEnv(d, tp, other)(r.0, r.1) == ParentEnv(d, tp, other)(n, i)
    {
      ResolvedReadsTheSame(d, tp, other, n, i);
    }
    MapRefsPreservesValue(e, Resolve(d), ParentRefs(d), m, ParentEnv(d, tp, other), FlatParentEnv(d, tp, other));
  }

  // ---------------------------------------------------------------------------
  // The parent node
  // ---------------------------------------------------------------------------

  // One replacement after the other.
  function ReplaceEach(inputs: seq<NodeId>, ids: seq<NodeId>, new_: NodeId): (r: seq<NodeId>)
    ensures |r| == |inputs|
  {
    if ids == [] then inputs
    else ReplaceFirst(ReplaceEach(inputs, ids[..|ids| - 1], new_), ids[|ids| - 1], new_)
  }

  lemma ReplaceEachNext(inputs: seq<NodeId>, ids: seq<NodeId>, id: NodeId, new_: NodeId)
    ensures ReplaceEach(inputs, ids + [id], new_) == ReplaceFirst(ReplaceEach(inputs, ids, new_), id, new_)
  {
    assert (ids + [id])[..|ids|] == ids;
  }

  // Inputs change only from one of `ids` to `new_`.
  predicate Redirected(inputs: seq<NodeId>, r: seq<NodeId>, ids: seq<NodeId>, new_: NodeId) {
    |r| == |inputs| && forall k :: 0 <= k < |r| ==> r[k] == inputs[k] || (inputs[k] in ids && r[k] == new_)
  }

  predicate AllRedirected(inputs: seq<NodeId>, r: seq<NodeId>, ids: seq<NodeId>, new_: NodeId) {
    |r| == |inputs| && forall k :: 0 <= k < |r| ==> r[k] == if inputs[k] in ids then new_ else inputs[k]
  }

  predicate AtMost(inputs: seq<NodeId>, ids: seq<NodeId>) {
    forall n :: n in ids ==> multiset(inputs)[n] <= multiset(ids)[n]
  }

  function Less(a: nat, b: nat): nat { if a < b then 0 else a - b }

  lemma {:induction false} ReplaceFirstCounts(inputs: seq<NodeId>, old_: NodeId, new_: NodeId, n: NodeId)
    requires n != new_
    ensures multiset(ReplaceFirst(inputs, old_, new_))[n]
         == Less(multiset(inputs)[n], if n == old_ then 1 else 0)
  {
    if inputs != [] {
      ReplaceFirstCounts(inputs[1..], old_, new_, n);
      assert multiset(inputs)[n] == multiset(inputs[1..])[n] + (if n == inputs[0] then 1 else 0) by {
        assert inputs == [inputs[0]] + inputs[1..];
      }
    }
  }

  lemma {:induction false} ReplaceFirstRedirects(inputs: seq<NodeId>, old_: NodeId, new_: NodeId)
    ensures Redirected(inputs, ReplaceFirst(inputs, old_, new_), [old_], new_)
  {
    if inputs != [] { ReplaceFirstRedirects(inputs[1..], old_, new_); }
  }

  lemma {:induction false} ReplaceEachRedirects(inputs: seq<NodeId>, ids: seq<NodeId>, new_: NodeId)
    ensures Redirected(inputs, ReplaceEach(inputs, ids, new_), ids, new_)
  {
    if ids != [] {
      var rest := ids[..|ids| - 1];
      ReplaceEachRedirects(inputs, rest, new_);
      ReplaceFirstRedirects(ReplaceEach(inputs, rest, new_), ids[|ids| - 1], new_);
      assert ids == rest + [ids[|ids| - 1]];
    }
  }

  lemma {:induction false} ReplaceEachCounts(inputs: seq<NodeId>, ids: seq<NodeId>, new_: NodeId, n: NodeId)
    requires n != new_
    ensures multiset(ReplaceEach(inputs, ids, new_))[n] == Less(multiset(inputs)[n], multiset(ids)[n])
  {
    if ids != [] {
      var rest: seq<NodeId>, last: NodeId := ids[..|ids| - 1], ids[|ids| - 1];
      ReplaceEachCounts(inputs, rest, new_, n);
      ReplaceFirstCounts(ReplaceEach(inputs, rest, new_), last, new_, n);
      assert multiset(ids)[n] == multiset(rest)[n] + (if n == last then 1 else 0) by {
        assert ids == rest + [last];
      }
    }
  }

  /** All inputs that are to be replaced are, if and only if none of them is there more often
      than it is replaced. */
  lemma {:induction false} ReplaceEachExactly(inputs: seq<NodeId>, ids: seq<NodeId>, new_: NodeId)
    requires new_ !in ids
    ensures Redirected(inputs, ReplaceEach(inputs, ids, new_), ids, new_)
    ensures AllRedirected(inputs, ReplaceEach(inputs, ids, new_), ids, new_) <==> AtMost(inputs, ids)
  {
    var r := ReplaceEach(inputs, ids, new_);
    forall n | n in ids
      ensures n in r <==> multiset(inputs)[n] > multiset(ids)[n]
    {
      ReplaceEachCounts(inputs, ids, new_, n);
      assert n in r <==> n in multiset(r);
    }
    ReplaceEachRedirects(inputs, ids, new_);
    assert AllRedirected(inputs, r, ids, new_) <==> forall n :: n in ids ==> n !in r;
  }

  class Parent {
    var inputs: seq<NodeId>
    var exprs: seq<Expr>

    /** Project::replaceInput (and its siblings) with a flattened join as the new input. */
    method ReplaceInput(replaced: NodeId, d: Flattened)
      modifies this
      ensures inputs == ReplaceFirst(old(inputs), replaced, d.id)
      ensures |exprs| == |old(exprs)|
      ensures forall k :: 0 <= k < |exprs| ==> exprs[k] == MapRefs(old(exprs)[k], StepMap(d, replaced))
    {
      inputs := ReplaceFirst(inputs, replaced, d.id);
      for i := 0 to |exprs|
        invariant |exprs| == |old(exprs)|
        invariant inputs == ReplaceFirst(old(inputs), replaced, d.id)
        invariant forall k :: 0 <= k < i ==> exprs[k] == MapRefs(old(exprs)[k], StepMap(d, replaced))
        invariant forall k :: i <= k < |exprs| ==> exprs[k] == old(exprs)[k]
      {
        exprs := exprs[i := MapRefs(exprs[i], StepMap(d, replaced))];
      }
    }

    /** The loop of create_left_deep_join over one parent: the candidate first, then every
        join of the chain from the outermost one down.  All expressions end up rebound.
        `ReplaceEachExactly` says which inputs change. */
    method RedirectTo(d: Flattened, candidate: NodeId)
      requires Usable(d) && IsCandidate(d, candidate)
      modifies this
      ensures |exprs| == |old(exprs)|
      ensures forall k :: 0 <= k < |exprs| ==> exprs[k] == MapRefs(old(exprs)[k], Resolve(d))
      ensures inputs == ReplaceEach(old(inputs), [candidate] + JoinIds(d.tree), d.id)
    {
      ReplaceInput(candidate, d);
      ghost var done := [candidate];
      ReplaceEachNext(old(inputs), [], candidate, d.id);
      forall k | 0 <= k < |exprs| ensures exprs[k] == MapRefs(old(exprs)[k], DoneMap(d, done)) {
        FirstStep(d, candidate, old(exprs)[k]);
      }
      var oldJoin := d.tree;
      while oldJoin.Node?
        invariant done + JoinIds(oldJoin) == [candidate] + JoinIds(d.tree)
        invariant |exprs| == |old(exprs)| && inputs == ReplaceEach(old(inputs), done, d.id)
        invariant forall k :: 0 <= k < |exprs| ==> exprs[k] == MapRefs(old(exprs)[k], DoneMap(d, done))
        decreases oldJoin
      {
        var next := oldJoin.join.id;
        ghost var before := exprs;
        ReplaceInput(next, d);
        ReplaceEachNext(old(inputs), done, next, d.id);
        forall k | 0 <= k < |exprs| ensures exprs[k] == MapRefs(old(exprs)[k], DoneMap(d, done + [next])) {
          assert before[k] == MapRefs(old(exprs)[k], DoneMap(d, done));
          StepAfterDone(d, done, next, old(exprs)[k]);
        }
        assert done + JoinIds(oldJoin) == (done + [next]) + JoinIds(oldJoin.left);
        done := done + [next];
        oldJoin := oldJoin.left;
      }
      assert done == [candidate] + JoinIds(d.tree);
      forall k | 0 <= k < |exprs| ensures exprs[k] == MapRefs(old(exprs)[k], Resolve(d)) {
        ChainIsOnePass(d, candidate, old(exprs)[k]);
      }
    }
  }

  lemma {:induction false} FirstStep(d: Flattened, candidate: NodeId, e: Expr)
    requires Usable(d)
    ensures MapRefs(e, StepMap(d, candidate)) == MapRefs(e, DoneMap(d, [candidate]))
  {
    var none := DoneMap(d, []);
    AnythingGoes(e);
    MapRefsIdentity(e, none, Anything());
    StepAfterDone(d, [], candidate, e);
    assert [] + [candidate] == [candidate];
  }
}
