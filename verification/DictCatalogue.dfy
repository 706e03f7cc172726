/** The catalogue of tables, columns and string dictionaries: createTable and dropTable of
    ArrowStorage.cpp, for scalar columns. */
module DictCatalogue {

  const MAX_DB_ID: int := 0xFF_FFFF

  // A positive dictionary id names a dictionary there is; zero asks for a new one, and
  // equal negative ids within one table ask for one new dictionary between them.  Some
  // other types cannot be imported.
  datatype ColType = Plain | Unsupported | Dict(dictId: int)

  datatype Column = Column(name: string, ty: ColType)

  type ColumnKey = (int, int)

  /** The dictionaries that columns refer to. */
  function Referenced(columns: map<ColumnKey, ColType>): set<int> {
    set k | k in columns && columns[k].Dict? :: columns[k].dictId
  }

  // addSchemaIdChecked.
  function WithSchema(id: int, schemaId: nat): int { schemaId * (MAX_DB_ID + 1) + id }

  // Handed out before the id `next`.
  predicate Issued(d: int, schemaId: nat, next: int) {
    WithSchema(1, schemaId) <= d < WithSchema(next, schemaId)
  }

  // ---------------------------------------------------------------------------
  // Parameters of a new table
  // ---------------------------------------------------------------------------

  predicate GoodColumn(cols: seq<Column>, i: nat, dicts: set<int>)
    requires i < |cols|
  {
    && cols[i].name != "" && cols[i].name != "rowid"
    && (forall j :: 0 <= j < i ==> cols[j].name != cols[i].name)
    && !cols[i].ty.Unsupported?
    && (cols[i].ty.Dict? && cols[i].ty.dictId > 0 ==> cols[i].ty.dictId in dicts)
  }

  predicate GoodParams(name: string, cols: seq<Column>, names: set<string>, dicts: set<int>) {
    cols != [] && name != "" && name !in names && forall i :: 0 <= i < |cols| ==> GoodColumn(cols, i, dicts)
  }

  method CheckNewTableParams(name: string, cols: seq<Column>, names: set<string>, dicts: set<int>) returns (ok: bool)
    ensures ok <==> GoodParams(name, cols, names, dicts)
  {
    if cols == [] || name == "" || name in names {
      return false;
    }
    var colNames: set<string> := {};
    for i := 0 to |cols|
      invariant forall j :: 0 <= j < i ==> GoodColumn(cols, j, dicts)
      invariant forall s :: s in colNames <==> exists j :: 0 <= j < i && cols[j].name == s
    {
      var col := cols[i];
      if col.name == "" || col.name == "rowid" || col.name in colNames {
        assert !GoodColumn(cols, i, dicts);
        return false;
      }
      if col.ty.Unsupported? || (col.ty.Dict? && col.ty.dictId > 0 && col.ty.dictId !in dicts) {
        assert !GoodColumn(cols, i, dicts);
        return false;
      }
      colNames := colNames + {col.name};
    }
    return true;
  }

  // ---------------------------------------------------------------------------
  // Types of the new columns
  // ---------------------------------------------------------------------------

  predicate WantsNew(ty: ColType) { ty.Dict? && ty.dictId <= 0 }

  predicate SharedBefore(cols: seq<Column>, i: nat)
    requires i < |cols|
  {
    cols[i].ty.Dict? && cols[i].ty.dictId < 0 && exists j :: 0 <= j < i && cols[j].ty == cols[i].ty
  }

  // The number of dictionaries the first `n` columns need.
  function Needed(cols: seq<Column>, n: nat): (count: nat)
    requires n <= |cols|
  {
    if n == 0 then 0
    else Needed(cols, n - 1) + (if WantsNew(cols[n - 1].ty) && !SharedBefore(cols, n - 1) then 1 else 0)
  }

  lemma {:induction false} NeededMono(cols: seq<Column>, m: nat, n: nat)
    requires m <= n <= |cols|
    ensures Needed(cols, m) <= Needed(cols, n)
  {
    if m < n { NeededMono(cols, m, n - 1); }
  }

  /** What resolving the dictionary ids promises: plain columns and named dictionaries stay,
      a new dictionary was not handed out before, and two columns that ask for new ones get
      the same exactly when they gave the same negative id. */
  ghost predicate Resolved(cols: seq<Column>, types: seq<ColType>, schemaId: nat, before: int, after: int) {
    && |types| <= |cols|
    && (forall i :: 0 <= i < |types| ==> ResolvedAt(cols[i].ty, types[i], schemaId, before, after))
    && (forall i, j :: 0 <= i < j < |types| ==> Paired(cols[i].ty, cols[j].ty, types[i], types[j]))
  }

  ghost predicate ResolvedAt(asked: ColType, got: ColType, schemaId: nat, before: int, after: int) {
    if WantsNew(asked)
    then got.Dict? && WithSchema(before, schemaId) <= got.dictId < WithSchema(after, schemaId)
    else got == asked
  }

  ghost predicate Paired(a: ColType, b: ColType, gotA: ColType, gotB: ColType) {
    WantsNew(a) && WantsNew(b) ==> (gotA == gotB <==> a == b && a.dictId < 0)
  }

  datatype Creation = Created(tableId: int) | InvalidParams | LimitExceeded

  datatype Removal = Dropped | NoSuchTable

  // Which negative id has which dictionary, among the columns done.
  ghost predicate Sharing(cols: seq<Column>, types: seq<ColType>, dictIds: map<int, int>) {
    && |types| <= |cols|
    && (forall s :: s in dictIds ==> s < 0 && GaveBefore(cols, types, s, dictIds[s]))
    && (forall j :: 0 <= j < |types| && cols[j].ty.Dict? && cols[j].ty.dictId < 0 ==>
          cols[j].ty.dictId in dictIds && types[j] == Dict(dictIds[cols[j].ty.dictId]))
  }

  ghost predicate GaveBefore(cols: seq<Column>, types: seq<ColType>, s: int, d: int)
    requires |types| <= |cols|
  {
    exists j :: 0 <= j < |types| && cols[j].ty == Dict(s) && types[j] == Dict(d)
  }

  /** The type of the next column; refused when a new id would pass the limit. */
  method ResolveColumn(cols: seq<Column>, types: seq<ColType>, dictIds: map<int, int>, schemaId: nat,
                       ghost before: int, next: int)
    returns (ok: bool, ty: ColType, fresh': bool, dictIds': map<int, int>)
    requires |types| < |cols| && before <= next
    requires Resolved(cols, types, schemaId, before, next) && Sharing(cols, types, dictIds)
    ensures ok <==> !(WantsNew(cols[|types|].ty) && !SharedBefore(cols, |types|) && next > MAX_DB_ID)
    ensures ok ==> (fresh' <==> WantsNew(cols[|types|].ty) && !SharedBefore(cols, |types|))
    ensures ok && fresh' ==> ty == Dict(WithSchema(next, schemaId))
    ensures ok && !fresh' ==> ty == cols[|types|].ty || ty in types
    ensures ok ==> Resolved(cols, types + [ty], schemaId, before, if fresh' then next + 1 else next)
    ensures ok ==> Sharing(cols, types + [ty], dictIds')
  {
    var i := |types|;
    ty, fresh', dictIds' := cols[i].ty, false, dictIds;
    if cols[i].ty.Dict? {
      var sharingId := cols[i].ty.dictId;
      SharingKnown(cols, types, dictIds);
      if sharingId < 0 && sharingId in dictIds {
        ty := Dict(dictIds[sharingId]);
        assert GaveBefore(cols, types, sharingId, dictIds[sharingId]);
        ResolvedShared(cols, types, ty, schemaId, before, next);
      } else if sharingId <= 0 {
        if next > MAX_DB_ID {
          return false, ty, fresh', dictIds';
        }
        ty, fresh' := Dict(WithSchema(next, schemaId)), true;
        ResolvedFresh(cols, types, schemaId, before, next);
        if sharingId < 0 {
          dictIds' := dictIds[sharingId := WithSchema(next, schemaId)];
        }
      }
    }
    SharingMore(cols, types, ty, dictIds, dictIds');
    ok := true;
  }

  lemma SharingKnown(cols: seq<Column>, types: seq<ColType>, dictIds: map<int, int>)
    requires |types| < |cols| && Sharing(cols, types, dictIds) && cols[|types|].ty.Dict?
    ensures cols[|types|].ty.dictId in dictIds <==> SharedBefore(cols, |types|)
  {
  }

  lemma SharingMore(cols: seq<Column>, types: seq<ColType>, ty: ColType, dictIds: map<int, int>, dictIds': map<int,
                    int>)
    requires |types| < |cols| && Sharing(cols, types, dictIds)
    requires var asked := cols[|types|].ty;
             if asked.Dict? && asked.dictId < 0
             then asked.dictId in dictIds' && ty == Dict(dictIds'[asked.dictId])
                  && (dictIds' == dictIds
                      || (asked.dictId !in dictIds && dictIds' == dictIds[asked.dictId := ty.dictId]))
             else dictIds' == dictIds
    ensures Sharing(cols, types + [ty], dictIds')
  {
    var types' := types + [ty];
    forall s | s in dictIds'
      ensures s < 0 && GaveBefore(cols, types', s, dictIds'[s])
    {
      if s in dictIds {
        assert GaveBefore(cols, types, s, dictIds[s]);
        var j :| 0 <= j < |types| && cols[j].ty == Dict(s) && types[j] == Dict(dictIds[s]);
        assert types'[j] == Dict(dictIds'[s]);
      } else {
        assert types'[|types|] == ty;
      }
    }
  }

  lemma ResolvedShared(cols: seq<Column>, types: seq<ColType>, ty: ColType, schemaId: nat, before: int, next: int)
    requires |types| < |cols| && Resolved(cols, types, schemaId, before, next)
    requires cols[|types|].ty.Dict? && cols[|types|].ty.dictId < 0 && ty.Dict?
    requires GaveBefore(cols, types, cols[|types|].ty.dictId, ty.dictId)
    ensures Resolved(cols, types + [ty], schemaId, before, next)
  {
  }

  lemma ResolvedFresh(cols: seq<Column>, types: seq<ColType>, schemaId: nat, before: int, next: int)
    requires |types| < |cols| && before <= next && Resolved(cols, types, schemaId, before, next)
    requires WantsNew(cols[|types|].ty) && !SharedBefore(cols, |types|)
    ensures Resolved(cols, types + [Dict(WithSchema(next, schemaId))], schemaId, before, next + 1)
  {
  }

  // ---------------------------------------------------------------------------
  // Columns of a table
  // ---------------------------------------------------------------------------

  // addColumnInfo for columns 1, 2, ... of a table.
  function WithColumns(columns: map<ColumnKey, ColType>, tableId: int, types: seq<ColType>): map<ColumnKey, ColType> {
    if types == [] then columns
    else WithColumns(columns, tableId, types[..|types| - 1])[(tableId, |types|) := types[|types| - 1]]
  }

  /** The new table's columns have the resolved types, and no other column changed. */
  lemma {:induction false} ColumnsAdded(columns: map<ColumnKey, ColType>, tableId: int, types: seq<ColType>,
                                        k: ColumnKey)
    ensures k in WithColumns(columns, tableId, types) <==> k in columns || (k.0 == tableId && 1 <= k.1 <= |types|)
    ensures k.0 == tableId && 1 <= k.1 <= |types| ==> WithColumns(columns, tableId, types)[k] == types[k.1 - 1]
    ensures k in columns && !(k.0 == tableId && 1 <= k.1 <= |types|) ==>
      WithColumns(columns, tableId, types)[k] == columns[k]
  {
    if types != [] { ColumnsAdded(columns, tableId, types[..|types| - 1], k); }
  }

  lemma ColumnStored(columns: map<ColumnKey, ColType>, tableId: int, types: seq<ColType>, ty: ColType, dicts: set<int>)
    ensures WithColumns(columns, tableId, types + [ty])
         == WithColumns(columns, tableId, types)[(tableId, |types| + 1) := ty]
    ensures Stored(types, dicts) && (ty.Dict? ==> ty.dictId in dicts) ==> Stored(types + [ty], dicts)
  {
    assert (types + [ty])[..|types|] == types;
  }

  lemma ReferencedMore(columns: map<ColumnKey, ColType>, k: ColumnKey, ty: ColType)
    requires k !in columns
    ensures Referenced(columns[k := ty]) == Referenced(columns) + if ty.Dict? then {ty.dictId} else {}
  {
    var columns' := columns[k := ty];
    forall d
      ensures d in Referenced(columns') <==> d in Referenced(columns) || (ty.Dict? && d == ty.dictId)
    {
      if d in Referenced(columns) {
        var j :| j in columns && columns[j].Dict? && columns[j].dictId == d;
        assert columns'[j].Dict? && columns'[j].dictId == d;
      }
      if ty.Dict? && d == ty.dictId { assert columns'[k].Dict? && columns'[k].dictId == d; }
    }
  }

  // The table has no columns yet.
  predicate NoColumns(columns: map<ColumnKey, ColType>, tableId: int) { forall k :: k in columns ==> k.0 != tableId }

  // Dictionaries were only added, under ids from `next` on.
  predicate OnlyNew(dicts: set<int>, before: set<int>, schemaId: nat, next: int) {
    before <= dicts && forall d :: d in dicts ==> d in before || WithSchema(next, schemaId) <= d
  }

  predicate Stored(types: seq<ColType>, dicts: set<int>) {
    forall j :: 0 <= j < |types| && types[j].Dict? ==> types[j].dictId in dicts
  }

  // The first column for which no id is left, when the columns before it took all there are.
  ghost predicate StopsAt(cols: seq<Column>, n: nat, next: int) {
    && n < |cols| && WantsNew(cols[n].ty) && !SharedBefore(cols, n)
    && next + Needed(cols, n) == MAX_DB_ID + 1
  }

  // A table that the schema knows but that is not stored.
  predicate IsOrphan(t: int, name: string, tableInfos: map<int, string>, tables: set<int>) {
    t in tableInfos && tableInfos[t] == name && t !in tables
  }

  ghost predicate OrphansStay(tableInfos: map<int, string>, tables: set<int>,
                              tableInfos': map<int, string>, tables': set<int>)
  {
    forall t, s :: IsOrphan(t, s, tableInfos, tables) ==> IsOrphan(t, s, tableInfos', tables')
  }

  class Catalogue {
    const schemaId: nat
    var nextTableId: int
    var nextDictId: int
    var dicts: set<int>
    var tables: set<int>
    var tableInfos: map<int, string>
    var columnInfos: map<ColumnKey, ColType>

    /** The stored dictionaries are those that columns refer to, and all were issued. */
    ghost predicate Valid()
      reads this
    {
      && 1 <= nextDictId <= MAX_DB_ID + 1
      && dicts == Referenced(columnInfos)
      && (forall d :: d in dicts ==> Issued(d, schemaId, nextDictId))
      && tables <= tableInfos.Keys
      && (forall t :: t in tableInfos ==> t < nextTableId)
      && (forall k :: k in columnInfos ==> k.0 in tableInfos)
    }

    constructor (schemaId: nat)
      ensures Valid() && this.schemaId == schemaId && tables == {} && dicts == {}
    {
      this.schemaId := schemaId;
      nextTableId, nextDictId, dicts, tables, tableInfos, columnInfos := 1, 1, {}, {}, map[], map[];
    }

    /** createTable.  Bad parameters change nothing but the next table id.  At the
        dictionary limit the table is not stored, although the columns done so far stay in
        the schema; the limit is hit exactly when the table needs more new dictionaries than
        there are ids left. */
    method CreateTable(name: string, cols: seq<Column>) returns (r: Creation, types: seq<ColType>)
      requires Valid()
      modifies this
      ensures Valid()
      ensures r.InvalidParams? <==> !GoodParams(name, cols, old(tableInfos).Values, old(dicts))
      ensures r.InvalidParams? ==> nextDictId == old(nextDictId) && dicts == old(dicts) && tables == old(tables)
      ensures r.InvalidParams? ==> tableInfos == old(tableInfos) && columnInfos == old(columnInfos)
      ensures !r.InvalidParams? ==> (r.LimitExceeded? <==> old(nextDictId) + Needed(cols, |cols|) > MAX_DB_ID + 1)
      ensures r.LimitExceeded? ==> tables == old(tables) && tableInfos == old(tableInfos)[old(nextTableId) := name]
      ensures r.LimitExceeded? ==> StopsAt(cols, |types|, old(nextDictId)) && nextDictId == MAX_DB_ID + 1
      ensures r.LimitExceeded? ==> Resolved(cols, types, schemaId, old(nextDictId), nextDictId)
      ensures r.LimitExceeded? ==> columnInfos == WithColumns(old(columnInfos), old(nextTableId), types)
      ensures r.LimitExceeded? ==> IsOrphan(old(nextTableId), name, tableInfos, tables)
      ensures OrphansStay(old(tableInfos), old(tables), tableInfos, tables)
      ensures r.Created? ==> r.tableId !in old(tableInfos) && tables == old(tables) + {r.tableId}
      ensures r.Created? ==> tableInfos == old(tableInfos)[r.tableId := name]
      ensures r.Created? ==> |types| == |cols| && Resolved(cols, types, schemaId, old(nextDictId), nextDictId)
      ensures r.Created? ==> columnInfos == WithColumns(old(columnInfos), r.tableId, types + [Plain])
      ensures !r.InvalidParams? ==> OnlyNew(dicts, old(dicts), schemaId, old(nextDictId))
    {
      types := [];
      var tableId := nextTableId;
      nextTableId := nextTableId + 1;
      var ok := CheckNewTableParams(name, cols, tableInfos.Values, dicts);
      if !ok {
        return InvalidParams, types;
      }
      tableInfos := tableInfos[tableId := name];
      ok, types := AddAllColumns(tableId, cols);
      if !ok {
        return LimitExceeded, types;
      }
      tables := tables + {tableId};
      r := Created(tableId);
    }

    // The columns of a new table and the row id column after them.
    method AddAllColumns(tableId: int, cols: seq<Column>) returns (ok: bool, types: seq<ColType>)
      requires Valid() && tableId in tableInfos && NoColumns(columnInfos, tableId)
      requires forall i :: 0 <= i < |cols| ==> GoodColumn(cols, i, dicts)
      modifies this`dicts, this`nextDictId, this`columnInfos
      ensures Valid() && OnlyNew(dicts, old(dicts), schemaId, old(nextDictId))
      ensures ok <==> old(nextDictId) + Needed(cols, |cols|) <= MAX_DB_ID + 1
      ensures Resolved(cols, types, schemaId, old(nextDictId), nextDictId)
      ensures ok ==> |types| == |cols|
      ensures !ok ==> StopsAt(cols, |types|, old(nextDictId)) && nextDictId == MAX_DB_ID + 1
      ensures columnInfos == WithColumns(old(columnInfos), tableId, if ok then types + [Plain] else types)
    {
      ok, types := AddColumns(tableId, cols);
      if ok {
        ColumnsAdded(old(columnInfos), tableId, types, (tableId, |cols| + 1));
        AddColumn(tableId, |cols| + 1, Plain, false);
        assert (types + [Plain])[..|cols|] == types;
      }
    }

    // The loop over the columns of a new table.
    method AddColumns(tableId: int, cols: seq<Column>) returns (ok: bool, types: seq<ColType>)
      requires Valid() && tableId in tableInfos && NoColumns(columnInfos, tableId)
      requires forall i :: 0 <= i < |cols| ==> GoodColumn(cols, i, dicts)
      modifies this`dicts, this`nextDictId, this`columnInfos
      ensures Valid() && OnlyNew(dicts, old(dicts), schemaId, old(nextDictId))
      ensures ok <==> old(nextDictId) + Needed(cols, |cols|) <= MAX_DB_ID + 1
      ensures ok ==> |types| == |cols| && Resolved(cols, types, schemaId, old(nextDictId), nextDictId)
      ensures columnInfos == WithColumns(old(columnInfos), tableId, types)
      ensures !ok ==> StopsAt(cols, |types|, old(nextDictId)) && nextDictId == MAX_DB_ID + 1
      ensures !ok ==> Resolved(cols, types, schemaId, old(nextDictId), nextDictId)
    {
      types := [];
      var dictIds: map<int, int> := map[];
      for i := 0 to |cols|
        invariant Valid() && |types| == i && OnlyNew(dicts, old(dicts), schemaId, old(nextDictId))
        invariant Resolved(cols, types, schemaId, old(nextDictId), nextDictId) && Sharing(cols, types, dictIds)
        invariant nextDictId == old(nextDictId) + Needed(cols, i)
        invariant columnInfos == WithColumns(old(columnInfos), tableId, types)
        invariant Stored(types, dicts)
      {
        NeededMono(cols, i + 1, |cols|);
        ok, types, dictIds := AddNext(tableId, cols, types, dictIds, old(nextDictId), old(dicts), old(columnInfos));
        if !ok {
          return;
        }
      }
      ok := true;
    }

    // The next column of a new table.
    method AddNext(tableId: int, cols: seq<Column>, types: seq<ColType>, dictIds: map<int, int>,
                   ghost before: int, ghost dictsBefore: set<int>, ghost columnsBefore: map<ColumnKey, ColType>)
      returns (ok: bool, types': seq<ColType>, dictIds': map<int, int>)
      requires Valid() && tableId in tableInfos && |types| < |cols| && NoColumns(columnsBefore, tableId)
      requires before <= nextDictId && OnlyNew(dicts, dictsBefore, schemaId, before)
      requires columnInfos == WithColumns(columnsBefore, tableId, types)
      requires Resolved(cols, types, schemaId, before, nextDictId) && Sharing(cols, types, dictIds)
      requires Stored(types, dicts)
      requires GoodColumn(cols, |types|, dictsBefore)
      modifies this`dicts, this`nextDictId, this`columnInfos
      ensures Valid() && OnlyNew(dicts, dictsBefore, schemaId, before)
      ensures ok <==> old(nextDictId) + Needed(cols, |types| + 1) - Needed(cols, |types|) <= MAX_DB_ID + 1
      ensures !ok ==> types' == types && unchanged(this)
      ensures !ok ==> WantsNew(cols[|types|].ty) && !SharedBefore(cols, |types|)
      ensures ok ==> |types'| == |types| + 1 && Stored(types', dicts)
      ensures ok ==> nextDictId == old(nextDictId) + Needed(cols, |types| + 1) - Needed(cols, |types|)
      ensures ok ==> Resolved(cols, types', schemaId, before, nextDictId) && Sharing(cols, types', dictIds')
      ensures ok ==> columnInfos == WithColumns(columnsBefore, tableId, types')
    {
      var ty, fresh';
      ok, ty, fresh', dictIds' := ResolveColumn(cols, types, dictIds, schemaId, before, nextDictId);
      types' := types;
      if !ok {
        return;
      }
      types' := types + [ty];
      ColumnsAdded(columnsBefore, tableId, types, (tableId, |types| + 1));
      AddColumn(tableId, |types| + 1, ty, fresh');
      ColumnStored(columnsBefore, tableId, types, ty, dicts);
    }

    // One column: a new dictionary first, if there is one.
    method AddColumn(tableId: int, columnId: int, ty: ColType, fresh': bool)
      requires Valid() && tableId in tableInfos && (tableId, columnId) !in columnInfos
      requires fresh' ==> ty == Dict(WithSchema(nextDictId, schemaId)) && nextDictId <= MAX_DB_ID
      requires !fresh' && ty.Dict? ==> ty.dictId in dicts
      modifies this`dicts, this`nextDictId, this`columnInfos
      ensures Valid() && columnInfos == old(columnInfos)[(tableId, columnId) := ty]
      ensures nextDictId == old(nextDictId) + if fresh' then 1 else 0
      ensures dicts == old(dicts) + if ty.Dict? then {ty.dictId} else {}
    {
      ReferencedMore(columnInfos, (tableId, columnId), ty);
      if fresh' {
        dicts := dicts + {ty.dictId};
        nextDictId := nextDictId + 1;
      }
      columnInfos := columnInfos[(tableId, columnId) := ty];
    }

    /** dropTable: exactly the dropped table's columns leave the schema, and exactly the
        dictionaries that no remaining column refers to are removed.  An unknown table
        changes nothing. */
    method DropTable(tableId: int) returns (r: Removal)
      requires Valid()
      modifies this
      ensures Valid()
      ensures r.NoSuchTable? <==> tableId !in old(tables)
      ensures r.NoSuchTable? ==> unchanged(this)
      ensures r.Dropped? ==> tables == old(tables) - {tableId} && tableInfos == old(tableInfos) - {tableId}
      ensures r.Dropped? ==> columnInfos == map k | k in old(columnInfos) && k.0 != tableId :: old(columnInfos)[k]
      ensures r.Dropped? ==> dicts == old(dicts) * Referenced(columnInfos)
      ensures nextDictId == old(nextDictId) && nextTableId == old(nextTableId)
      ensures OrphansStay(old(tableInfos), old(tables), tableInfos, tables)
    {
      if tableId !in tables {
        return NoSuchTable;
      }
      tables := tables - {tableId};
      tableInfos := tableInfos - {tableId};
      RemoveColumns(tableId);
      r := Dropped;
    }

    // The columns of the table and the dictionaries only they refer to.
    method RemoveColumns(tableId: int)
      requires dicts == Referenced(columnInfos)
      modifies this`columnInfos, this`dicts
      ensures columnInfos == map k | k in old(columnInfos) && k.0 != tableId :: old(columnInfos)[k]
      ensures dicts == old(dicts) * Referenced(columnInfos) == Referenced(columnInfos)
    {
      var dropped := map k | k in columnInfos && k.0 == tableId :: columnInfos[k];
      var dictsToRemove := CollectDicts(dropped);
      columnInfos := map k | k in columnInfos && k.0 != tableId :: columnInfos[k];
      dictsToRemove := KeepReferenced(dictsToRemove, columnInfos);
      ReferencedSplit(old(columnInfos), dropped, columnInfos, tableId);
      dicts := dicts - dictsToRemove;
    }
  }

  // The dictionaries of some columns.
  method CollectDicts(columns: map<ColumnKey, ColType>) returns (ids: set<int>)
    ensures ids == Referenced(columns)
  {
    ids := {};
    var rest := columns.Keys;
    while rest != {}
      invariant rest <= columns.Keys
      invariant ids == set k | k in columns && k !in rest && columns[k].Dict? :: columns[k].dictId
      decreases |rest|
    {
      var k :| k in rest;
      ghost var before := set j | j in columns && j !in rest && columns[j].Dict? :: columns[j].dictId;
      ids := ids + if columns[k].Dict? then {columns[k].dictId} else {};
      rest := rest - {k};
      ghost var after := set j | j in columns && j !in rest && columns[j].Dict? :: columns[j].dictId;
      assert columns[k].Dict? ==> columns[k].dictId in after;
    }
  }

  // Takes out the dictionaries that the columns still refer to.
  method KeepReferenced(ids: set<int>, columns: map<ColumnKey, ColType>) returns (left: set<int>)
    ensures left == ids - Referenced(columns)
  {
    left := ids;
    var rest := columns.Keys;
    while rest != {}
      invariant rest <= columns.Keys
      invariant left == ids - set k | k in columns && k !in rest && columns[k].Dict? :: columns[k].dictId
      decreases |rest|
    {
      var k :| k in rest;
      left := left - if columns[k].Dict? then {columns[k].dictId} else {};
      rest := rest - {k};
      ghost var after := set j | j in columns && j !in rest && columns[j].Dict? :: columns[j].dictId;
      assert columns[k].Dict? ==> columns[k].dictId in after;
    }
  }

  lemma ReferencedSplit(columns: map<ColumnKey, ColType>, dropped: map<ColumnKey, ColType>, kept: map<ColumnKey,
                        ColType>, tableId: int)
    requires dropped == map k | k in columns && k.0 == tableId :: columns[k]
    requires kept == map k | k in columns && k.0 != tableId :: columns[k]
    ensures Referenced(columns) == Referenced(dropped) + Referenced(kept)
  {
    forall d
      ensures d in Referenced(columns) <==> d in Referenced(dropped) || d in Referenced(kept)
    {
      if d in Referenced(columns) {
        var k :| k in columns && columns[k].Dict? && columns[k].dictId == d;
        assert k in dropped || k in kept;
      }
    }
  }

  // ---------------------------------------------------------------------------
  // Runs
  // ---------------------------------------------------------------------------

  datatype Operation = Create(name: string, cols: seq<Column>) | Drop(tableId: int)

  /** After any run of creates and drops, whatever fails on the way, the stored dictionaries
      are exactly those that a column refers to. */
  method RunOperations(schemaId: nat, ops: seq<Operation>) returns (catalogue: Catalogue)
    ensures fresh(catalogue) && catalogue.Valid()
    ensures catalogue.dicts == Referenced(catalogue.columnInfos)
  {
    catalogue := new Catalogue(schemaId);
    for i := 0 to |ops|
      invariant fresh(catalogue) && catalogue.Valid()
    {
      match ops[i]
      case Create(name, cols) => var _, _ := catalogue.CreateTable(name, cols);
      case Drop(tableId) => var _ := catalogue.DropTable(tableId);
    }
  }

  /** A create that hits the limit has an effect that lasts: whatever follows, the name can
      never be created and the id never be dropped. */
  method OrphanStays(catalogue: Catalogue, tableId: int, name: string, ops: seq<Operation>, cols: seq<Column>)
    returns (created: Creation, dropped: Removal)
    requires catalogue.Valid() && IsOrphan(tableId, name, catalogue.tableInfos, catalogue.tables)
    modifies catalogue
    ensures created.InvalidParams? && dropped.NoSuchTable?
  {
    for i := 0 to |ops|
      invariant catalogue.Valid() && IsOrphan(tableId, name, catalogue.tableInfos, catalogue.tables)
    {
      match ops[i]
      case Create(other, others) => var _, _ := catalogue.CreateTable(other, others);
      case Drop(id) => var _ := catalogue.DropTable(id);
    }
    var types;
    created, types := catalogue.CreateTable(name, cols);
    dropped := catalogue.DropTable(tableId);
  }
}
