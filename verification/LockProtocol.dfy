/** The lock hand-over between the table directory and its tables: fetch, append, create and
    drop as interleaved steps of any number of threads (ArrowStorage.cpp). */
module LockProtocol {

  type ThreadId = nat
  type TableId = nat
  type Batch = int

  // Where a thread is, and with it which locks it holds and which table it refers to.
  //   Looking  - data mutex                 Found - data mutex, and a table reference
  //   Both     - data and table mutex       Fetching, Appending - table mutex alone
  // Fetch takes both mutexes shared, append the data mutex shared and the table mutex
  // exclusively, create and drop the data mutex exclusively throughout.
  datatype Thread =
    | Idle
    | FetchLooking(id: TableId)
    | FetchFound(table: TableId)
    | FetchBoth(table: TableId)
    | Fetching(table: TableId, seen: map<nat, seq<Batch>>)
    | AppendLooking(id: TableId, batch: Batch)
    | AppendFound(table: TableId, batch: Batch)
    | AppendBoth(table: TableId, batch: Batch)
    | Appending(table: TableId, batch: Batch, next: nat)
    | Creating(fields: nat)
    | Created
    | DropLooking(id: TableId)
    | DropFound(table: TableId)
    | DropLocked(table: TableId)
    | DropErased(table: TableId)
    | DropUnlocked(table: TableId)
    | DropDone

  // The fields of a table (its columns, fragments and row count), each as the appended
  // batches it reflects, and the batches of the appends that completed.
  datatype Table = Table(fields: seq<seq<Batch>>, committed: seq<Batch>)

  datatype State = State(
    threads: map<ThreadId, Thread>,
    directory: set<TableId>,
    objects: map<TableId, Table>,
    nextId: TableId,
    fault: bool)

  // ---------------------------------------------------------------------------
  // Locks
  // ---------------------------------------------------------------------------

  predicate DataShared(p: Thread) {
    p.FetchLooking? || p.FetchFound? || p.FetchBoth? || p.AppendLooking? || p.AppendFound? || p.AppendBoth?
  }

  predicate DataUnique(p: Thread) {
    || p.Creating? || p.Created? || p.DropLooking? || p.DropFound? || p.DropLocked? || p.DropErased?
    || p.DropUnlocked? || p.DropDone?
  }

  predicate HoldsData(p: Thread) { DataShared(p) || DataUnique(p) }

  predicate TableShared(p: Thread, x: TableId) { (p.FetchBoth? || p.Fetching?) && p.table == x }

  predicate TableUnique(p: Thread, x: TableId) {
    (p.AppendBoth? || p.Appending? || p.DropLocked? || p.DropErased?) && p.table == x
  }

  predicate HoldsTable(p: Thread, x: TableId) { TableShared(p, x) || TableUnique(p, x) }

  predicate HasTable(p: Thread) {
    || p.FetchFound? || p.FetchBoth? || p.Fetching? || p.AppendFound? || p.AppendBoth? || p.Appending?
    || p.DropFound? || p.DropLocked? || p.DropErased? || p.DropUnlocked?
  }

  // The thread will still touch the table.
  predicate Refers(p: Thread, x: TableId) { HasTable(p) && p.table == x }

  predicate CanShareData(s: State) { forall u :: u in s.threads ==> !DataUnique(s.threads[u]) }

  predicate CanOwnData(s: State) { forall u :: u in s.threads ==> !HoldsData(s.threads[u]) }

  predicate CanShareTable(s: State, x: TableId) { forall u :: u in s.threads ==> !TableUnique(s.threads[u], x) }

  predicate CanOwnTable(s: State, x: TableId) { forall u :: u in s.threads ==> !HoldsTable(s.threads[u], x) }

  // ---------------------------------------------------------------------------
  // Steps
  // ---------------------------------------------------------------------------

  datatype Action =
    | StartFetch(id: TableId)
    | StartAppend(id: TableId, batch: Batch)
    | StartCreate(fields: nat)
    | StartDrop(id: TableId)
    | Read(field: nat)
    | Finish
    | Reject
    | Go

  function At(s: State, t: ThreadId, p: Thread): State { s.(threads := s.threads[t := p]) }

  function Update(s: State, x: TableId, table: Table): State { s.(objects := s.objects[x := table]) }

  // A thread with no table yet: it takes the data mutex, looks the table up, or creates one.
  ghost predicate DirectoryStep(s: State, s': State, t: ThreadId, a: Action)
    requires t in s.threads
  {
    match (s.threads[t], a)
    case (Idle, StartFetch(id)) => CanShareData(s) && s' == At(s, t, FetchLooking(id))
    case (Idle, StartAppend(id, batch)) => CanShareData(s) && s' == At(s, t, AppendLooking(id, batch))
    case (Idle, StartCreate(fields)) => CanOwnData(s) && s' == At(s, t, Creating(fields))
    case (Idle, StartDrop(id)) => CanOwnData(s) && s' == At(s, t, DropLooking(id))
    case (FetchLooking(id), Go) => s' == At(s, t, if id in s.directory then FetchFound(id) else Idle)
    case (AppendLooking(id, batch), Go) => s' == At(s, t, if id in s.directory then AppendFound(id, batch) else Idle)
    case (DropLooking(id), Go) => s' == At(s, t, if id in s.directory then DropFound(id) else Idle)
    case (Creating(fields), Go) =>
      s' == At(Update(s, s.nextId, Table(seq(fields, _ => []), [])).
                 (directory := s.directory + {s.nextId}, nextId := s.nextId + 1),
               t, Created)
    case (Created, Go) => s' == At(s, t, Idle)
    case (DropDone, Go) => s' == At(s, t, Idle)
    case _ => false
  }

  // A thread that touches the table it refers to, which is there.
  ghost predicate TableStep(s: State, s': State, t: ThreadId, a: Action, x: TableId)
    requires t in s.threads && x in s.objects
  {
    var table := s.objects[x];
    match (s.threads[t], a)
    case (FetchFound(_), Go) => CanShareTable(s, x) && s' == At(s, t, FetchBoth(x))
    case (FetchBoth(_), Go) => s' == At(s, t, Fetching(x, map[]))
    case (Fetching(_, seen), Read(j)) => j < |table.fields| && s' == At(s, t, Fetching(x, seen[j := table.fields[j]]))
    case (Fetching(_, _), Finish) => s' == At(s, t, Idle)
    case (AppendFound(_, _), Reject) => s' == At(s, t, Idle)
    case (AppendFound(_, batch), Go) => CanOwnTable(s, x) && s' == At(s, t, AppendBoth(x, batch))
    case (AppendBoth(_, batch), Go) => s' == At(s, t, Appending(x, batch, 0))
    case (Appending(_, batch, i), Go) =>
      && i < |table.fields|
      && s' == At(Update(s, x, table.(fields := table.fields[i := table.fields[i] + [batch]])), t,
                  Appending(x, batch, i + 1))
    case (Appending(_, batch, i), Finish) =>
      i == |table.fields| && s' == At(Update(s, x, table.(committed := table.committed + [batch])), t, Idle)
    case (DropFound(_), Go) => CanOwnTable(s, x) && s' == At(s, t, DropLocked(x))
    case (DropLocked(_), Go) => s' == At(s.(directory := s.directory - {x}), t, DropErased(x))
    case (DropErased(_), Go) => s' == At(s, t, DropUnlocked(x))
    case (DropUnlocked(_), Go) => s' == At(s.(objects := s.objects - {x}), t, DropDone)
    case _ => false
  }

  /** One step of thread `t`.  Touching a table that was destroyed is a fault. */
  ghost predicate Step(s: State, s': State, t: ThreadId, a: Action) {
    t in s.threads &&
    if !HasTable(s.threads[t]) then DirectoryStep(s, s', t, a)
    else
      var x := s.threads[t].table;
      if x in s.objects then TableStep(s, s', t, a, x) else s' == s.(fault := true)
  }

  ghost predicate Next(s: State, s': State) { exists t, a :: Step(s, s', t, a) }

  ghost predicate Init(s: State) {
    && (forall t :: t in s.threads ==> s.threads[t].Idle?)
    && s.directory == {} && s.objects == map[] && !s.fault
  }

  // ---------------------------------------------------------------------------
  // The invariant
  // ---------------------------------------------------------------------------

  // Two threads, seen together.
  ghost predicate Compatible(p: Thread, q: Thread) {
    && !(DataUnique(p) && HoldsData(q))
    && !(DataUnique(q) && HoldsData(p))
    && (HasTable(p) && TableUnique(p, p.table) ==> !HoldsTable(q, p.table))
    && (HasTable(q) && TableUnique(q, q.table) ==> !HoldsTable(p, q.table))
    && (p.DropUnlocked? ==> !Refers(q, p.table))
    && (q.DropUnlocked? ==> !Refers(p, q.table))
  }

  // A thread and the tables.
  ghost predicate ThreadOk(p: Thread, objects: map<TableId, Table>, directory: set<TableId>) {
    && (HasTable(p) ==> p.table in objects)
    && ((p.DropErased? || p.DropUnlocked?) ==> p.table !in directory)
    && (p.Fetching? && p.table in objects ==> SeenWhole(p.seen, objects[p.table]))
    && (p.Appending? && p.table in objects ==> PartlyApplied(objects[p.table], p.batch, p.next))
  }

  /** Whatever a reader saw of any field, it is all the completed appends. */
  predicate SeenWhole(seen: map<nat, seq<Batch>>, table: Table) {
    forall j :: j in seen ==> seen[j] == table.committed
  }

  predicate PartlyApplied(table: Table, batch: Batch, next: nat) {
    && next <= |table.fields|
    && forall j :: 0 <= j < |table.fields| ==>
         table.fields[j] == if j < next then table.committed + [batch] else table.committed
  }

  predicate Whole(table: Table) { forall j :: 0 <= j < |table.fields| ==> table.fields[j] == table.committed }

  predicate Untouched(s: State, x: TableId) {
    forall t :: t in s.threads ==> !(s.threads[t].Appending? && s.threads[t].table == x)
  }

  ghost predicate Inv(s: State) {
    && !s.fault
    && s.directory <= s.objects.Keys
    && (forall x :: x in s.objects ==> x < s.nextId)
    && (forall t, u :: t in s.threads && u in s.threads && t != u ==> Compatible(s.threads[t], s.threads[u]))
    && (forall t :: t in s.threads ==> ThreadOk(s.threads[t], s.objects, s.directory))
    && (forall x :: x in s.objects && Untouched(s, x) ==> Whole(s.objects[x]))
  }

  /** A thread with a table reference holds the data mutex or the table's mutex. */
  lemma ReferencesProtected(p: Thread, x: TableId)
    requires Refers(p, x)
    ensures HoldsData(p) || HoldsTable(p, x)
  {
  }

  lemma InitInv(s: State)
    requires Init(s)
    ensures Inv(s)
  {
  }

  // ---------------------------------------------------------------------------
  // Every step keeps the invariant
  // ---------------------------------------------------------------------------

  // How a thread without a table moves, next to a thread `q`.
  predicate DirectoryMove(p: Thread, p': Thread, q: Thread) {
    || p'.Idle?
    || (p.Idle? && (p'.FetchLooking? || p'.AppendLooking?) && !DataUnique(q))
    || (p.Idle? && (p'.Creating? || p'.DropLooking?) && !HoldsData(q))
    || (p.FetchLooking? && p'.FetchFound?)
    || (p.AppendLooking? && p'.AppendFound?)
    || (p.DropLooking? && p'.DropFound?)
    || (p.Creating? && p'.Created?)
  }

  lemma DirectoryMoveCompatible(p: Thread, p': Thread, q: Thread)
    requires Compatible(p, q) && DirectoryMove(p, p', q)
    ensures Compatible(p', q)
  {
  }

  // How a thread with a table moves, next to a thread `q`.
  predicate TableMove(p: Thread, p': Thread, q: Thread) {
    || p'.Idle?
    || (p'.DropDone? && p.DropUnlocked?)
    || (HasTable(p) && HasTable(p') && p.table == p'.table && KeepsTable(p, p', q))
  }

  predicate KeepsTable(p: Thread, p': Thread, q: Thread)
    requires HasTable(p)
  {
    || (p.FetchFound? && p'.FetchBoth? && !TableUnique(q, p.table))
    || (p.FetchBoth? && p'.Fetching?)
    || (p.Fetching? && p'.Fetching?)
    || (p.AppendFound? && p'.AppendBoth? && !HoldsTable(q, p.table))
    || (p.AppendBoth? && p'.Appending?)
    || (p.Appending? && p'.Appending?)
    || (p.DropFound? && p'.DropLocked? && !HoldsTable(q, p.table))
    || (p.DropLocked? && p'.DropErased?)
    || (p.DropErased? && p'.DropUnlocked?)
  }

  lemma TableMoveCompatible(p: Thread, p': Thread, q: Thread)
    requires Compatible(p, q) && TableMove(p, p', q)
    ensures Compatible(p', q)
  {
    if HasTable(q) { ReferencesProtected(q, q.table); }
  }

  // The invariant, once the pieces hold of the new state.
  lemma InvFrom(s: State, s': State, t: ThreadId)
    requires Inv(s) && t in s.threads && t in s'.threads && s'.threads == s.threads[t := s'.threads[t]]
    requires !s'.fault && s'.directory <= s'.objects.Keys
    requires forall x :: x in s'.objects ==> x < s'.nextId
    requires forall u :: u in s.threads && u != t ==> Compatible(s'.threads[t], s.threads[u])
    requires forall u :: u in s'.threads ==> ThreadOk(s'.threads[u], s'.objects, s'.directory)
    requires forall x :: x in s'.objects && Untouched(s', x) ==> Whole(s'.objects[x])
    ensures Inv(s')
  {
    forall u, v | u in s'.threads && v in s'.threads && u != v
      ensures Compatible(s'.threads[u], s'.threads[v])
    {
      assert u != t && v != t ==> Compatible(s.threads[u], s.threads[v]);
    }
  }

  lemma {:induction false} DirectoryCompatible(s: State, s': State, t: ThreadId)
    requires Inv(s) && t in s.threads && t in s'.threads
    requires forall u :: u in s.threads && u != t ==> DirectoryMove(s.threads[t], s'.threads[t], s.threads[u])
    ensures forall u :: u in s.threads && u != t ==> Compatible(s'.threads[t], s.threads[u])
  {
    forall u | u in s.threads && u != t
      ensures Compatible(s'.threads[t], s.threads[u])
    {
      assert Compatible(s.threads[t], s.threads[u]);
      DirectoryMoveCompatible(s.threads[t], s'.threads[t], s.threads[u]);
    }
  }

  // Steps that move a thread without a table and leave the tables alone.
  lemma {:induction false} LookKeepsInv(s: State, s': State, t: ThreadId)
    requires Inv(s) && t in s.threads && !HasTable(s.threads[t]) && t in s'.threads && s' == At(s, t, s'.threads[t])
    requires forall u :: u in s.threads && u != t ==> DirectoryMove(s.threads[t], s'.threads[t], s.threads[u])
    requires ThreadOk(s'.threads[t], s.objects, s.directory)
    ensures Inv(s')
  {
    DirectoryCompatible(s, s', t);
    forall x | x in s'.objects && Untouched(s', x)
      ensures Whole(s'.objects[x])
    {
      SameAppenders(s, s', t, x);
    }
    InvFrom(s, s', t);
  }

  lemma {:induction false} CreateKeepsInv(s: State, s': State, t: ThreadId)
    requires Inv(s) && t in s.threads && s.threads[t].Creating? && DirectoryStep(s, s', t, Go)
    ensures Inv(s')
  {
    DirectoryCompatible(s, s', t);
    forall u | u in s'.threads
      ensures ThreadOk(s'.threads[u], s'.objects, s'.directory)
    {
      assert ThreadOk(s.threads[u], s.objects, s.directory);
    }
    forall x | x in s'.objects && Untouched(s', x)
      ensures Whole(s'.objects[x])
    {
      if x in s.objects { SameAppenders(s, s', t, x); }
    }
    InvFrom(s, s', t);
  }

  lemma {:induction false} DirectoryStepKeepsInv(s: State, s': State, t: ThreadId, a: Action)
    requires Inv(s) && t in s.threads && !HasTable(s.threads[t]) && DirectoryStep(s, s', t, a)
    ensures Inv(s')
  {
    if s.threads[t].Creating? {
      CreateKeepsInv(s, s', t);
    } else {
      LookKeepsInv(s, s', t);
    }
  }

  // If no thread appends after a step of a thread that does not append, none did before.
  lemma SameAppenders(s: State, s': State, t: ThreadId, x: TableId)
    requires t in s.threads && t in s'.threads && s'.threads == s.threads[t := s'.threads[t]]
    requires !(s.threads[t].Appending? && s.threads[t].table == x) && Untouched(s', x)
    ensures Untouched(s, x)
  {
    forall u | u in s.threads
      ensures !(s.threads[u].Appending? && s.threads[u].table == x)
    {
      if u != t { assert s'.threads[u] == s.threads[u]; }
    }
  }

  lemma StepCompatible(s: State, s': State, t: ThreadId)
    requires Inv(s) && t in s.threads && t in s'.threads
    requires forall u :: u in s.threads && u != t ==> TableMove(s.threads[t], s'.threads[t], s.threads[u])
    ensures forall u :: u in s.threads && u != t ==> Compatible(s'.threads[t], s.threads[u])
  {
    forall u | u in s.threads && u != t
      ensures Compatible(s'.threads[t], s.threads[u])
    {
      assert Compatible(s.threads[t], s.threads[u]);
      TableMoveCompatible(s.threads[t], s'.threads[t], s.threads[u]);
    }
  }

  // A table whose mutex a thread holds, other than to append, is whole.
  lemma WholeWhileHeld(s: State, t: ThreadId, x: TableId)
    requires Inv(s) && t in s.threads && HoldsTable(s.threads[t], x) && !s.threads[t].Appending? && x in s.objects
    ensures Whole(s.objects[x])
  {
  }

  // Steps that move a thread and leave the tables alone.
  lemma {:induction false} MoveKeepsInv(s: State, s': State, t: ThreadId)
    requires Inv(s) && t in s.threads && t in s'.threads && s' == At(s, t, s'.threads[t]) && !s.threads[t].Appending?
    requires forall u :: u in s.threads && u != t ==> TableMove(s.threads[t], s'.threads[t], s.threads[u])
    requires ThreadOk(s'.threads[t], s.objects, s.directory)
    ensures Inv(s')
  {
    StepCompatible(s, s', t);
    forall x | x in s'.objects && Untouched(s', x)
      ensures Whole(s'.objects[x])
    {
      SameAppenders(s, s', t, x);
    }
    InvFrom(s, s', t);
  }

  // Another thread than the one that owns table `x` is not concerned by a change of `x`.
  lemma OthersOk(s: State, t: ThreadId, x: TableId, table: Table, u: ThreadId)
    requires Inv(s) && t in s.threads && TableUnique(s.threads[t], x) && x in s.objects
    requires u in s.threads && u != t
    ensures ThreadOk(s.threads[u], s.objects[x := table], s.directory)
  {
  }

  // Steps of an appender that change its table.
  lemma {:induction false} ChangeKeepsInv(s: State, s': State, t: ThreadId, x: TableId, table: Table)
    requires Inv(s) && t in s.threads && s.threads[t].Appending? && s.threads[t].table == x && x in s.objects
    requires t in s'.threads && s' == At(Update(s, x, table), t, s'.threads[t])
    requires s'.threads[t].Idle? || (s'.threads[t].Appending? && s'.threads[t].table == x)
    requires ThreadOk(s'.threads[t], s'.objects, s.directory)
    requires s'.threads[t].Idle? ==> Whole(table)
    ensures Inv(s')
  {
    StepCompatible(s, s', t);
    forall u | u in s'.threads
      ensures ThreadOk(s'.threads[u], s'.objects, s'.directory)
    {
      if u != t { OthersOk(s, t, x, table, u); }
    }
    forall y | y in s'.objects && Untouched(s', y)
      ensures Whole(s'.objects[y])
    {
      if y != x { SameAppenders(s, s', t, y); } else { assert s'.threads[t].Idle?; }
    }
    InvFrom(s, s', t);
  }

  lemma {:induction false} EraseKeepsInv(s: State, s': State, t: ThreadId, x: TableId)
    requires Inv(s) && t in s.threads && s.threads[t] == DropLocked(x)
    requires s' == At(s.(directory := s.directory - {x}), t, DropErased(x))
    ensures Inv(s')
  {
    StepCompatible(s, s', t);
    forall u | u in s'.threads
      ensures ThreadOk(s'.threads[u], s'.objects, s'.directory)
    {
      assert ThreadOk(s.threads[u], s.objects, s.directory);
    }
    forall y | y in s'.objects && Untouched(s', y)
      ensures Whole(s'.objects[y])
    {
      SameAppenders(s, s', t, y);
    }
    InvFrom(s, s', t);
  }

  lemma {:induction false} DestroyKeepsInv(s: State, s': State, t: ThreadId, x: TableId)
    requires Inv(s) && t in s.threads && s.threads[t] == DropUnlocked(x)
    requires s' == At(s.(objects := s.objects - {x}), t, DropDone)
    ensures Inv(s')
  {
    StepCompatible(s, s', t);
    assert ThreadOk(s.threads[t], s.objects, s.directory);
    forall u | u in s'.threads
      ensures ThreadOk(s'.threads[u], s'.objects, s'.directory)
    {
      if u != t {
        assert Compatible(s.threads[t], s.threads[u]);
        assert ThreadOk(s.threads[u], s.objects, s.directory);
      }
    }
    forall y | y in s'.objects && Untouched(s', y)
      ensures Whole(s'.objects[y])
    {
      SameAppenders(s, s', t, y);
    }
    InvFrom(s, s', t);
  }

  lemma {:induction false} AppendWriteKeepsInv(s: State, s': State, t: ThreadId, x: TableId)
    requires Inv(s) && t in s.threads && s.threads[t].Appending? && s.threads[t].table == x && x in s.objects
    requires TableStep(s, s', t, Go, x) || TableStep(s, s', t, Finish, x)
    ensures Inv(s')
  {
    var table, i, batch := s.objects[x], s.threads[t].next, s.threads[t].batch;
    assert ThreadOk(s.threads[t], s.objects, s.directory);
    if TableStep(s, s', t, Go, x) {
      var table' := table.(fields := table.fields[i := table.fields[i] + [batch]]);
      assert PartlyApplied(table', batch, i + 1);
      ChangeKeepsInv(s, s', t, x, table');
    } else {
      ChangeKeepsInv(s, s', t, x, table.(committed := table.committed + [batch]));
    }
  }

  lemma {:induction false} TableStepKeepsInv(s: State, s': State, t: ThreadId, a: Action, x: TableId)
    requires Inv(s) && t in s.threads && Refers(s.threads[t], x) && x in s.objects && TableStep(s, s', t, a, x)
    ensures Inv(s')
  {
    var p := s.threads[t];
    assert ThreadOk(p, s.objects, s.directory);
    if p.Appending? {
      AppendWriteKeepsInv(s, s', t, x);
    } else if p.DropLocked? {
      EraseKeepsInv(s, s', t, x);
    } else if p.DropUnlocked? {
      DestroyKeepsInv(s, s', t, x);
    } else {
      if HoldsTable(p, x) { WholeWhileHeld(s, t, x); }
      MoveKeepsInv(s, s', t);
    }
  }

  lemma {:induction false} StepKeepsInv(s: State, s': State, t: ThreadId, a: Action)
    requires Inv(s) && Step(s, s', t, a)
    ensures Inv(s')
  {
    assert ThreadOk(s.threads[t], s.objects, s.directory);
    if HasTable(s.threads[t]) {
      TableStepKeepsInv(s, s', t, a, s.threads[t].table);
    } else {
      DirectoryStepKeepsInv(s, s', t, a);
    }
  }

  lemma {:induction false} NextKeepsInv(s: State, s': State)
    requires Inv(s) && Next(s, s')
    ensures Inv(s')
  {
    var t, a :| Step(s, s', t, a);
    StepKeepsInv(s, s', t, a);
  }

  // ---------------------------------------------------------------------------
  // Runs
  // ---------------------------------------------------------------------------

  ghost predicate Run(states: seq<State>) {
    && states != [] && Init(states[0])
    && forall i :: 0 <= i < |states| - 1 ==> NextAt(states, i)
  }

  ghost predicate NextAt(states: seq<State>, i: nat)
    requires i + 1 < |states|
  {
    Next(states[i], states[i + 1])
  }

  lemma {:induction false} RunInv(states: seq<State>, i: nat)
    requires Run(states) && i < |states|
    ensures Inv(states[i])
  {
    if i == 0 {
      InitInv(states[0]);
    } else {
      RunInv(states, i - 1);
      assert NextAt(states, i - 1);
      NextKeepsInv(states[i - 1], states[i]);
    }
  }

  /** In every state of every run no destroyed table was touched, and every referenced
      table exists and is protected by a mutex its thread holds. */
  lemma {:induction false} NoDestroyedTableTouched(states: seq<State>, i: nat, t: ThreadId)
    requires Run(states) && i < |states| && t in states[i].threads
    ensures !states[i].fault
    ensures forall x :: Refers(states[i].threads[t], x) ==> x in states[i].objects
    ensures forall x :: Refers(states[i].threads[t], x) ==>
      HoldsData(states[i].threads[t]) || HoldsTable(states[i].threads[t], x)
  {
    RunInv(states, i);
    assert ThreadOk(states[i].threads[t], states[i].objects, states[i].directory);
  }

  /** In every state of every run no reader of a table overlaps a thread that owns it. */
  lemma {:induction false} NoReaderMeetsWriter(states: seq<State>, i: nat, t: ThreadId, u: ThreadId, x: TableId)
    requires Run(states) && i < |states| && t in states[i].threads && u in states[i].threads
    ensures !(TableShared(states[i].threads[t], x) && TableUnique(states[i].threads[u], x))
    ensures t != u ==> !(TableUnique(states[i].threads[t], x) && TableUnique(states[i].threads[u], x))
    ensures t != u ==> !(DataUnique(states[i].threads[t]) && HoldsData(states[i].threads[u]))
  {
    RunInv(states, i);
    if t != u { assert Compatible(states[i].threads[t], states[i].threads[u]); }
  }

  /** In every state of every run, whatever fields a reader looked at and whenever it did,
      all of them reflect the same appends, namely all that completed. */
  lemma {:induction false} ReaderSeesWholeAppends(states: seq<State>, i: nat, t: ThreadId)
    requires Run(states) && i < |states| && t in states[i].threads && states[i].threads[t].Fetching?
    ensures states[i].threads[t].table in states[i].objects
    ensures forall j :: j in states[i].threads[t].seen ==>
      states[i].threads[t].seen[j] == states[i].objects[states[i].threads[t].table].committed
  {
    RunInv(states, i);
    assert ThreadOk(states[i].threads[t], states[i].objects, states[i].directory);
  }

  // A table's completed appends only grow, and a destroyed table does not come back.
  ghost predicate Grows(s: State, s': State, x: TableId) {
    && s.nextId <= s'.nextId
    && (x in s.objects && x in s'.objects ==> s.objects[x].committed <= s'.objects[x].committed)
    && (x !in s.objects && x < s.nextId ==> x !in s'.objects)
  }

  lemma DirectoryStepGrows(s: State, s': State, t: ThreadId, a: Action, x: TableId)
    requires t in s.threads && !HasTable(s.threads[t]) && DirectoryStep(s, s', t, a) && s.nextId !in s.objects
    ensures Grows(s, s', x)
  {
  }

  lemma TableStepGrows(s: State, s': State, t: ThreadId, a: Action, y: TableId, x: TableId)
    requires t in s.threads && y in s.objects && TableStep(s, s', t, a, y)
    ensures Grows(s, s', x)
  {
  }

  lemma NextGrows(s: State, s': State, x: TableId)
    requires Inv(s) && Next(s, s')
    ensures Grows(s, s', x)
  {
    var t, a :| Step(s, s', t, a);
    assert ThreadOk(s.threads[t], s.objects, s.directory);
    if HasTable(s.threads[t]) {
      TableStepGrows(s, s', t, a, s.threads[t].table, x);
    } else {
      DirectoryStepGrows(s, s', t, a, x);
    }
  }

  // Completed appends of table `x` that later states keep.
  ghost predicate KeptFrom(log: seq<Batch>, s: State, x: TableId) {
    x < s.nextId && (x in s.objects ==> log <= s.objects[x].committed)
  }

  lemma {:induction false} RunGrows(states: seq<State>, i: nat, j: nat, x: TableId)
    requires Run(states) && i <= j < |states| && x in states[i].objects
    ensures KeptFrom(states[i].objects[x].committed, states[j], x)
  {
    RunInv(states, i);
    if i < j {
      RunGrows(states, i, j - 1, x);
      RunInv(states, j - 1);
      assert NextAt(states, j - 1);
      KeptNext(states[i].objects[x].committed, states[j - 1], states[j], x);
    }
  }

  lemma KeptNext(log: seq<Batch>, s: State, s': State, x: TableId)
    requires Inv(s) && Next(s, s') && KeptFrom(log, s, x)
    ensures KeptFrom(log, s', x)
  {
    NextGrows(s, s', x);
  }

  /** What a reader sees contains every append that completed before. */
  lemma {:induction false} ReaderSeesEarlierAppends(states: seq<State>, i: nat, j: nat, t: ThreadId, x: TableId)
    requires Run(states) && i <= j < |states| && x in states[i].objects
    requires t in states[j].threads && states[j].threads[t].Fetching? && states[j].threads[t].table == x
    ensures forall f :: f in states[j].threads[t].seen ==>
      states[i].objects[x].committed <= states[j].threads[t].seen[f]
  {
    ReaderSeesWholeAppends(states, j, t);
    RunGrows(states, i, j, x);
  }
}
