/** The in-memory adapter of storage/memory/memory.go: tables and a unique index that
    share mutable record objects. */
module Memory {
  import opened Storage
  import opened MemorySpec
  import opened MemoryLaws

  class Record {
    var fields: Row

    constructor (row: Row)
      ensures fields == row
    {
      fields := row;
    }
  }

  type Key = (string, Value)
  type Tables = map<string, seq<Record>>
  type Index = map<string, map<Key, Record>>

  function Recs(tables: Tables, model: string): seq<Record> {
    if model in tables then tables[model] else []
  }

  function At(index: Index, model: string): map<Key, Record> {
    if model in index then index[model] else map[]
  }

  // ---- what the index means ----

  /** idx maps (field, v) to a record exactly when that record's row holds v there. */
  ghost predicate Indexed(unique: set<string>, recs: seq<Record>, rows: seq<Row>, idx: map<Key, Record>) {
    && |recs| == |rows|
    && (forall i, k :: 0 <= i < |rows| && k in Keys(unique, rows[i]) ==> k in idx && idx[k] == recs[i])
    && (forall k :: k in idx ==> exists i :: Holder(unique, recs, rows, idx, k, i))
  }

  ghost predicate Holder(unique: set<string>, recs: seq<Record>, rows: seq<Row>, idx: map<Key, Record>, k: Key,
      i: int) {
    0 <= i < |recs| && i < |rows| && k in idx && idx[k] == recs[i] && k in Keys(unique, rows[i])
  }

  /** No record object sits in two places. */
  ghost predicate Separate(tables: Tables) {
    forall m, n, i, j ::
      (m in tables && n in tables && 0 <= i < |tables[m]| && 0 <= j < |tables[n]| && tables[m][i] == tables[n][j])
      ==> m == n && i == j
  }

  ghost predicate Linked(schema: Schema, tables: Tables, db: Db, index: Index) {
    && tables.Keys == db.Keys
    && Separate(tables)
    && forall m {:trigger Indexed(Unique(schema, m), Recs(tables, m), Rows(db, m), At(index, m))} ::
         Indexed(Unique(schema, m), Recs(tables, m), Rows(db, m), At(index, m))
  }

  ghost predicate Distinct(recs: seq<Record>) {
    forall i, j :: 0 <= i < |recs| && 0 <= j < |recs| && recs[i] == recs[j] ==> i == j
  }

  lemma RecsDistinct(tables: Tables, model: string)
    requires Separate(tables)
    ensures Distinct(Recs(tables, model))
  {
  }

  function Tagged(keys: set<Key>, rec: Record): map<Key, Record> {
    map k | k in keys :: rec
  }

  // ---- one table at a time ----

  lemma AddIndexed(unique: set<string>, recs: seq<Record>, rows: seq<Row>, idx: map<Key, Record>, rec: Record, row: Row)
    requires Indexed(unique, recs, rows, idx) && Keys(unique, row) !! idx.Keys
    ensures Indexed(unique, recs + [rec], rows + [row], idx + Tagged(Keys(unique, row), rec))
  {
    var recs', rows', idx' := recs + [rec], rows + [row], idx + Tagged(Keys(unique, row), rec);
    forall i, k | 0 <= i < |rows'| && k in Keys(unique, rows'[i]) ensures k in idx' && idx'[k] == recs'[i] {}
    forall k | k in idx' ensures exists i :: Holder(unique, recs', rows', idx', k, i) {
      if k in Keys(unique, row) {
        assert Holder(unique, recs', rows', idx', k, |recs|);
      } else {
        var i :| Holder(unique, recs, rows, idx, k, i);
        assert Holder(unique, recs', rows', idx', k, i);
      }
    }
  }

  /** Two rows never share a unique value. */
  lemma KeysApart(unique: set<string>, recs: seq<Record>, rows: seq<Row>, idx: map<Key, Record>, i: nat, j: nat)
    requires Indexed(unique, recs, rows, idx) && Distinct(recs) && i < |rows| && j < |rows| && i != j
    ensures Keys(unique, rows[i]) !! Keys(unique, rows[j])
  {
    forall k | k in Keys(unique, rows[i]) ensures k !in Keys(unique, rows[j]) {
      assert k in idx && idx[k] == recs[i];
    }
  }

  lemma DropIndexed(unique: set<string>, recs: seq<Record>, rows: seq<Row>, idx: map<Key, Record>, n: nat)
    requires Indexed(unique, recs, rows, idx) && Distinct(recs) && n < |rows|
    ensures Indexed(unique, recs[..n] + recs[n + 1..], rows[..n] + rows[n + 1..], idx - Keys(unique, rows[n]))
  {
    var recs', rows', idx' := recs[..n] + recs[n + 1..], rows[..n] + rows[n + 1..], idx - Keys(unique, rows[n]);
    forall i, k | 0 <= i < |rows'| && k in Keys(unique, rows'[i]) ensures k in idx' && idx'[k] == recs'[i] {
      var o := if i < n then i else i + 1;
      assert rows'[i] == rows[o] && recs'[i] == recs[o];
      KeysApart(unique, recs, rows, idx, o, n);
    }
    forall k | k in idx' ensures exists i :: Holder(unique, recs', rows', idx', k, i) {
      var i :| Holder(unique, recs, rows, idx, k, i);
      assert Holder(unique, recs', rows', idx', k, if i < n then i else i - 1);
    }
  }

  lemma ReplaceIndexed(unique: set<string>, recs: seq<Record>, rows: seq<Row>, idx: map<Key, Record>, n: nat, row: Row)
    requires Indexed(unique, recs, rows, idx) && Distinct(recs) && n < |rows|
    requires Keys(unique, row) !! (idx - Keys(unique, rows[n])).Keys
    ensures Indexed(unique, recs, rows[n := row], idx - Keys(unique, rows[n]) + Tagged(Keys(unique, row), recs[n]))
  {
    var rows', idx' := rows[n := row], idx - Keys(unique, rows[n]) + Tagged(Keys(unique, row), recs[n]);
    forall i, k | 0 <= i < |rows'| && k in Keys(unique, rows'[i]) ensures k in idx' && idx'[k] == recs[i] {
      if i != n { KeysApart(unique, recs, rows, idx, i, n); }
    }
    forall k | k in idx' ensures exists i :: Holder(unique, recs, rows', idx', k, i) {
      if k in Keys(unique, row) {
        assert Holder(unique, recs, rows', idx', k, n);
      } else {
        var i :| Holder(unique, recs, rows, idx, k, i);
        assert Holder(unique, recs, rows', idx', k, i);
      }
    }
  }

  /** Ids decide object identity, so sameRecord does what its name says. */
  lemma SameIdSameRecord(unique: set<string>, recs: seq<Record>, rows: seq<Row>, idx: map<Key, Record>, i: nat, j: nat)
    requires Indexed(unique, recs, rows, idx) && Distinct(recs) && "id" in unique && i < |rows| && j < |rows|
    requires RowOk(unique, rows[i]) && RowOk(unique, rows[j])
    ensures rows[i]["id"] == rows[j]["id"] <==> recs[i] == recs[j]
  {
    var k := ("id", rows[i]["id"]);
    assert k in Keys(unique, rows[i]);
    if rows[i]["id"] == rows[j]["id"] {
      assert k in Keys(unique, rows[j]);
      assert idx[k] == recs[i] && idx[k] == recs[j];
    }
  }

  /** A row that shares no unique value brings no key that another row already holds. */
  lemma FreshKeys(schema: Schema, model: string, recs: seq<Record>, rows: seq<Row>, idx: map<Key, Record>, row: Row,
      skip: int)
    requires Indexed(Unique(schema, model), recs, rows, idx) && !Shares(Unique(schema, model), row, rows, skip)
    ensures forall k :: k in Keys(Unique(schema, model), row) && k in idx ==>
              0 <= skip < |rows| && k in Keys(Unique(schema, model), rows[skip])
  {
    var u := Unique(schema, model);
    forall k | k in Keys(u, row) && k in idx ensures 0 <= skip < |rows| && k in Keys(u, rows[skip]) {
      var i :| Holder(u, recs, rows, idx, k, i);
      if i != skip {
        assert k in Keys(u, row) * Keys(u, rows[i]);
        assert SharesKey(u, row, rows[i]);
      }
    }
  }

  /** Replacing one table, its rows and its part of the index. */
  lemma LinkedPut(schema: Schema, tables: Tables, db: Db, index: Index, model: string, recs: seq<Record>,
      rows: seq<Row>, index': Index)
    requires Linked(schema, tables, db, index)
    requires Indexed(Unique(schema, model), recs, rows, At(index', model))
    requires forall m :: m != model ==> At(index', m) == At(index, m)
    requires Separate(tables[model := recs])
    ensures Linked(schema, tables[model := recs], db[model := rows], index')
  {
    var tables', db' := tables[model := recs], db[model := rows];
    forall m ensures Indexed(Unique(schema, m), Recs(tables', m), Rows(db', m), At(index', m)) {
      if m != model {
        assert Recs(tables', m) == Recs(tables, m) && Rows(db', m) == Rows(db, m);
      }
    }
  }

  /** The value row holds in field f is held by no record but number n. */
  ghost predicate Clear(f: string, row: Row, idx: map<Key, Record>, recs: seq<Record>, n: int) {
    f in row && Indexable(row[f]) && (f, row[f]) in idx ==> 0 <= n < |recs| && idx[(f, row[f])] == recs[n]
  }

  lemma NoneShared(schema: Schema, model: string, recs: seq<Record>, rows: seq<Row>, idx: map<Key, Record>, row: Row,
      n: int)
    requires Indexed(Unique(schema, model), recs, rows, idx) && Distinct(recs)
    requires forall j :: 0 <= j < |UniqueList(schema, model)| ==> Clear(UniqueList(schema, model)[j], row, idx, recs, n)
    ensures !Shares(Unique(schema, model), row, rows, n)
  {
    var u := Unique(schema, model);
    forall i | 0 <= i < |rows| && i != n ensures !SharesKey(u, row, rows[i]) {
      forall k | k in Keys(u, rows[i]) ensures k !in Keys(u, row) {
        assert k in idx && idx[k] == recs[i];
        assert Clear(k.0, row, idx, recs, n);
      }
    }
  }

  ghost predicate AnyCollide(columns: seq<string>, row: Row, rows: seq<Row>, n: int) {
    Complete(columns, row) && exists i :: 0 <= i < |rows| && i != n && SameTuple(columns, row, rows[i])
  }

  /** violatesUnique decides by column what Violates asks row by row. */
  lemma ViolatesByColumn(schema: Schema, model: string, rows: seq<Row>, row: Row, n: int)
    ensures Violates(schema, model, rows, row, n) <==>
              || Shares(Unique(schema, model), row, rows, n)
              || exists c ::
                   0 <= c < |Constraints(schema, model)| && AnyCollide(Constraints(schema, model)[c], row, rows, n)
  {
    var u, cs := Unique(schema, model), Constraints(schema, model);
    if Violates(schema, model, rows, row, n) {
      var i :| 0 <= i < |rows| && i != n && Conflict(schema, model, row, rows[i]);
      if Collide(cs, row, rows[i]) {
        var c :| 0 <= c < |cs| && CollideOn(cs[c], row, rows[i]);
        assert AnyCollide(cs[c], row, rows, n);
      }
    }
    if Shares(u, row, rows, n) {
      var i :| 0 <= i < |rows| && i != n && SharesKey(u, row, rows[i]);
      assert Conflict(schema, model, row, rows[i]);
    }
    forall c | 0 <= c < |cs| && AnyCollide(cs[c], row, rows, n) ensures Violates(schema, model, rows, row, n) {
      var i :| 0 <= i < |rows| && i != n && SameTuple(cs[c], row, rows[i]);
      assert CollideOn(cs[c], row, rows[i]);
      assert Conflict(schema, model, row, rows[i]);
    }
  }

  lemma MatchesKey(unique: set<string>, lower: Lower, row: Row, w: Where)
    requires RowOk(unique, row) && w.field in unique && (w.op == Default || w.op == Eq) && Indexable(w.value)
    ensures Matches(lower, row, [w]) <==> (w.field, w.value) in Keys(unique, row)
  {
    assert Matches(lower, row, [w]) == MatchOne(lower, row, w);
  }

  ghost predicate Typed(unique: set<string>, rows: seq<Row>) {
    forall i {:trigger RowOk(unique, rows[i])} :: 0 <= i < |rows| ==> RowOk(unique, rows[i])
  }

  /** The index answers a unique equality lookup as the scan would. */
  lemma IndexFindsFirst(schema: Schema, model: string, lower: Lower, recs: seq<Record>, rows: seq<Row>,
      idx: map<Key, Record>, w: Where, i: nat)
    requires Indexed(Unique(schema, model), recs, rows, idx) && Typed(Unique(schema, model), rows)
    requires w.field in Unique(schema, model) && (w.op == Default || w.op == Eq) && Indexable(w.value)
    requires i <= |rows| && (i < |rows| ==> Matches(lower, rows[i], [w]))
    requires forall j :: 0 <= j < i ==> !Matches(lower, rows[j], [w])
    ensures if (w.field, w.value) in idx then i < |rows| && idx[(w.field, w.value)] == recs[i] else i == |rows|
  {
    var u, k := Unique(schema, model), (w.field, w.value);
    if i < |rows| {
      assert RowOk(u, rows[i]);
      MatchesKey(u, lower, rows[i], w);
      assert k in Keys(u, rows[i]);
    } else {
      forall h ensures !Holder(u, recs, rows, idx, k, h) {
        if 0 <= h < |rows| {
          assert RowOk(u, rows[h]);
          MatchesKey(u, lower, rows[h], w);
        }
      }
    }
  }

  lemma AddIsSeparate(tables: Tables, model: string, rec: Record)
    requires Separate(tables)
    requires forall m, i :: m in tables && 0 <= i < |tables[m]| ==> tables[m][i] != rec
    ensures Separate(tables[model := Recs(tables, model) + [rec]])
  {
  }

  ghost predicate Absent(tables: Tables, rec: Record) {
    forall m, i :: m in tables && 0 <= i < |tables[m]| ==> tables[m][i] != rec
  }

  /** Appending rec, whose row shares no unique value, and entering it in the index keeps all linked. */
  lemma InsertLinks(schema: Schema, tables: Tables, db: Db, index: Index, model: string, rec: Record, row: Row,
      index': Index)
    requires Linked(schema, tables, db, index) && Absent(tables, rec)
    requires !Shares(Unique(schema, model), row, Rows(db, model), -1)
    requires At(index', model) == At(index, model) + Tagged(Keys(Unique(schema, model), row), rec)
    requires forall m :: m != model ==> At(index', m) == At(index, m)
    ensures Linked(schema, tables[model := Recs(tables, model) + [rec]], db[model := Rows(db, model) + [row]], index')
  {
    var recs, rows := Recs(tables, model), Rows(db, model);
    assert Indexed(Unique(schema, model), recs, rows, At(index, model));
    FreshKeys(schema, model, recs, rows, At(index, model), row, -1);
    AddIndexed(Unique(schema, model), recs, rows, At(index, model), rec, row);
    AddIsSeparate(tables, model, rec);
    LinkedPut(schema, tables, db, index, model, recs + [rec], rows + [row], index');
  }

  /** Reindexing one record whose new row shares no unique value keeps all linked. */
  lemma ReplaceLinks(schema: Schema, tables: Tables, db: Db, index: Index, model: string, n: nat, row: Row,
      index': Index)
    requires Linked(schema, tables, db, index) && model in tables && n < |tables[model]| && n < |db[model]|
    requires !Shares(Unique(schema, model), row, db[model], n)
    requires At(index', model) ==
              At(index, model) - Keys(Unique(schema, model), db[model][n]) +
                  Tagged(Keys(Unique(schema, model), row), tables[model][n])
    requires forall m :: m != model ==> At(index', m) == At(index, m)
    ensures Linked(schema, tables, db[model := db[model][n := row]], index')
  {
    var u, recs, rows := Unique(schema, model), tables[model], db[model];
    assert Indexed(u, Recs(tables, model), Rows(db, model), At(index, model));
    RecsDistinct(tables, model);
    FreshKeys(schema, model, recs, rows, At(index, model), row, n);
    ReplaceIndexed(u, recs, rows, At(index, model), n, row);
    assert tables[model := recs] == tables;
    LinkedPut(schema, tables, db, index, model, recs, rows[n := row], index');
  }

  /** Taking record n out of a table and out of the index keeps all linked. */
  lemma RemoveLinks(schema: Schema, tables: Tables, db: Db, index: Index, model: string, n: nat, index': Index)
    requires Linked(schema, tables, db, index) && model in tables && n < |tables[model]| && n < |db[model]|
    requires At(index', model) == At(index, model) - Keys(Unique(schema, model), db[model][n])
    requires forall m :: m != model ==> At(index', m) == At(index, m)
    ensures Linked(schema, tables[model := tables[model][..n] + tables[model][n + 1..]],
              db[model := db[model][..n] + db[model][n + 1..]], index')
  {
    var recs, rows := tables[model], db[model];
    assert Indexed(Unique(schema, model), Recs(tables, model), Rows(db, model), At(index, model));
    RecsDistinct(tables, model);
    DropIndexed(Unique(schema, model), recs, rows, At(index, model), n);
    var left := recs[..n] + recs[n + 1..];
    forall i | 0 <= i < |left| ensures left[i] == recs[if i < n then i else i + 1] {}
    assert Separate(tables[model := left]);
    LinkedPut(schema, tables, db, index, model, left, rows[..n] + rows[n + 1..], index');
  }

  lemma KeysOfMore(row: Row, unique: set<string>, f: string)
    ensures Keys(unique + {f}, row) == Keys(unique, row) + (if f in row && Indexable(row[f]) then {(f, row[f])} else {})
  {
  }

  lemma TagOne(idx: map<Key, Record>, keys: set<Key>, k: Key, rec: Record)
    ensures (idx + Tagged(keys, rec))[k := rec] == idx + Tagged(keys + {k}, rec)
  {
  }

  /** The keys a row has in the first n unique fields. */
  function KeysUpTo(fs: seq<string>, n: nat, row: Row): (keys: set<Key>)
    requires n <= |fs|
    ensures n == 0 ==> keys == {}
    ensures n == |fs| ==> keys == Keys((set f | f in fs), row)
  {
    assert n == |fs| ==> (set i | 0 <= i < n :: fs[i]) == (set f | f in fs);
    Keys((set i | 0 <= i < n :: fs[i]), row)
  }

  lemma KeysUpToNext(fs: seq<string>, n: nat, row: Row)
    requires n < |fs|
    ensures KeysUpTo(fs, n + 1, row) ==
              KeysUpTo(fs, n, row) + (if fs[n] in row && Indexable(row[fs[n]]) then {(fs[n], row[fs[n]])} else {})
  {
    var u := set i | 0 <= i < n :: fs[i];
    assert (set i | 0 <= i < n + 1 :: fs[i]) == u + {fs[n]};
    KeysOfMore(row, u, fs[n]);
  }

  /** addToIndex and removeFromIndex after n fields. */
  function Entered(idx: map<Key, Record>, fs: seq<string>, n: nat, row: Row, rec: Record): map<Key, Record>
    requires n <= |fs|
  {
    if n == 0 then idx
    else
      var before, f := Entered(idx, fs, n - 1, row, rec), fs[n - 1];
      if f in row && Indexable(row[f]) then before[(f, row[f]) := rec] else before
  }

  lemma {:induction false} EnteredIsTagged(idx: map<Key, Record>, fs: seq<string>, n: nat, row: Row, rec: Record)
    requires n <= |fs|
    ensures Entered(idx, fs, n, row, rec) == idx + Tagged(KeysUpTo(fs, n, row), rec)
  {
    if n != 0 {
      EnteredIsTagged(idx, fs, n - 1, row, rec);
      var f, keys := fs[n - 1], KeysUpTo(fs, n - 1, row);
      KeysUpToNext(fs, n - 1, row);
      if f in row && Indexable(row[f]) {
        TagOne(idx, keys, (f, row[f]), rec);
      } else {
        assert KeysUpTo(fs, n, row) == keys;
      }
    }
  }

  /** The entries of a row's unique values are this record's. */
  ghost predicate Owns(idx: map<Key, Record>, unique: set<string>, row: Row, rec: Record) {
    "id" in row && forall k :: k in Keys(unique, row) ==> k in idx && idx[k] == rec
  }

  function SameRecord(a: Record, b: Record): bool
    reads a, b
  {
    "id" in a.fields && "id" in b.fields && a.fields["id"] == b.fields["id"]
  }

  ghost predicate Holding(recs: seq<Record>, rows: seq<Row>)
    reads recs
  {
    |recs| == |rows| && forall i :: 0 <= i < |recs| ==> recs[i].fields == rows[i]
  }

  /** The records hold the rows, and skip is record number n. */
  ghost predicate Skips(recs: seq<Record>, rows: seq<Row>, skip: Record?, n: int)
    reads recs, skip
  {
    && |recs| == |rows|
    && (forall i :: 0 <= i < |recs| ==> recs[i].fields == rows[i])
    && (forall i :: 0 <= i < |recs| ==> (skip != null && SameRecord(recs[i], skip) <==> i == n))
  }

  /** Whether the value row holds in one unique field belongs to a row other than skip. */
  method Taken(unique: set<string>, f: string, recs: seq<Record>, idx: map<Key, Record>, row: Row, skip: Record?,
      ghost rows: seq<Row>, ghost n: int)
    returns (taken: bool)
    requires Indexed(unique, recs, rows, idx) && Skips(recs, rows, skip, n) && f in unique
    ensures taken ==> Shares(unique, row, rows, n)
    ensures !taken ==> Clear(f, row, idx, recs, n)
  {
    if f !in row || !Indexable(row[f]) || (f, row[f]) !in idx {
      return false;
    }
    var k := (f, row[f]);
    var existing := idx[k];
    ghost var h :| Holder(unique, recs, rows, idx, k, h);
    if skip == null || !SameRecord(existing, skip) {
      assert k in Keys(unique, row) * Keys(unique, rows[h]);
      assert SharesKey(unique, row, rows[h]);
      return true;
    }
    return false;
  }

  /** The single-column half of violatesUnique, by index lookup. */
  method ViolatesSingle(schema: Schema, model: string, recs: seq<Record>, idx: map<Key, Record>, row: Row,
      skip: Record?, ghost rows: seq<Row>, ghost n: int)
    returns (bad: bool)
    requires Indexed(Unique(schema, model), recs, rows, idx) && Distinct(recs) && Skips(recs, rows, skip, n)
    ensures bad <==> Shares(Unique(schema, model), row, rows, n)
  {
    var fs := UniqueList(schema, model);
    for i := 0 to |fs|
      invariant forall j :: 0 <= j < i ==> Clear(fs[j], row, idx, recs, n)
    {
      var taken := Taken(Unique(schema, model), fs[i], recs, idx, row, skip, rows, n);
      if taken {
        return true;
      }
    }
    NoneShared(schema, model, recs, rows, idx, row, n);
    return false;
  }

  /** Whether a row other than skip agrees with row on the columns of a constraint that
      row fills in completely: a scan. */
  method TupleTaken(columns: seq<string>, recs: seq<Record>, row: Row, skip: Record?, ghost rows: seq<Row>,
      ghost n: int) returns (taken: bool)
    requires Skips(recs, rows, skip, n)
    ensures taken <==> AnyCollide(columns, row, rows, n)
  {
    if !Complete(columns, row) {
      return false;
    }
    for i := 0 to |recs|
      invariant forall j :: 0 <= j < i && j != n ==> !SameTuple(columns, row, rows[j])
    {
      if skip == null || !SameRecord(recs[i], skip) {
        if SameTuple(columns, row, recs[i].fields) {
          return true;
        }
      }
    }
    return false;
  }

  method ViolatesComposite(constraints: seq<seq<string>>, recs: seq<Record>, row: Row, skip: Record?,
      ghost rows: seq<Row>, ghost n: int)
    returns (bad: bool)
    requires Skips(recs, rows, skip, n)
    ensures bad <==> exists c :: 0 <= c < |constraints| && AnyCollide(constraints[c], row, rows, n)
  {
    for c := 0 to |constraints|
      invariant forall d :: 0 <= d < c ==> !AnyCollide(constraints[d], row, rows, n)
    {
      var taken := TupleTaken(constraints[c], recs, row, skip, rows, n);
      if taken {
        return true;
      }
    }
    return false;
  }

  lemma AssignNext(lower: Lower, rows: seq<Row>, where: seq<Where>, update: Row, i: nat)
    requires i < |rows|
    ensures var before := AssignFirst(lower, rows, where, update, i);
            AssignFirst(lower, rows, where, update, i + 1) ==
                if Matches(lower, rows[i], where) then before[i := rows[i] + update] else before
  {
  }

  lemma Shift<T>(s: seq<T>, rest: seq<T>)
    requires rest != []
    ensures s + rest == (s + [rest[0]]) + rest[1..]
  {
  }

  lemma KeysPointTo(schema: Schema, tables: Tables, db: Db, index: Index, model: string, n: nat)
    requires Linked(schema, tables, db, index) && model in tables && n < |tables[model]| && n < |db[model]|
    ensures "id" in db[model][n] ==> Owns(At(index, model), Unique(schema, model), db[model][n], tables[model][n])
  {
    assert Indexed(Unique(schema, model), Recs(tables, model), Rows(db, model), At(index, model));
  }

  // ---- copies ----

  lemma PrefixOk(schema: Schema, model: string, rows: seq<Row>, n: nat)
    requires TableOk(schema, model, rows) && n < |rows|
    ensures !Shares(Unique(schema, model), rows[n], rows[..n], -1)
    ensures TableOk(schema, model, rows[..n] + [rows[n]])
  {
    var u, rows' := Unique(schema, model), rows[..n] + [rows[n]];
    forall i | 0 <= i < n ensures !SharesKey(u, rows[n], rows[..n][i]) {
      assert rows[..n][i] == rows[i];
      assert !SharesKey(u, rows[n], rows[i]);
    }
    assert forall i :: 0 <= i < |rows'| ==> rows'[i] == rows[i];
    forall i, j | 0 <= i < |rows'| && 0 <= j < |rows'| && i != j ensures !SharesKey(u, rows'[i], rows'[j]) {
      assert !SharesKey(u, rows[i], rows[j]);
    }
  }

  /** A rewritten row of a table that stays right shares no unique value. */
  lemma RewrittenFits(schema: Schema, db: Db, model: string, n: nat, row: Row)
    requires DbOk(schema, db) && model in db && n < |db[model]| && DbOk(schema, db[model := db[model][n := row]])
    ensures !Shares(Unique(schema, model), row, db[model], n)
  {
    PutOk(schema, db, model, db[model][n := row]);
    assert TableOk(schema, model, db[model]);
    assert db[model][n := row][n] == row;
    ReplaceOk(schema, model, db[model], n, row);
  }

  lemma RewrittenLinks(schema: Schema, tables: Tables, db: Db, index: Index, model: string, n: nat, row: Row,
      index': Index)
    requires DbOk(schema, db) && Linked(schema, tables, db, index) && model in tables && model in db
    requires n < |tables[model]| && n < |db[model]| && DbOk(schema, db[model := db[model][n := row]])
    requires Owns(At(index, model), Unique(schema, model), db[model][n], tables[model][n])
    requires At(index', model) ==
               At(index, model) - Keys(Unique(schema, model), db[model][n]) +
                   Tagged(Keys(Unique(schema, model), row), tables[model][n])
    requires forall m :: m != model ==> At(index', m) == At(index, m)
    ensures Linked(schema, tables, db[model := db[model][n := row]], index')
  {
    RewrittenFits(schema, db, model, n, row);
    ReplaceLinks(schema, tables, db, index, model, n, row, index');
  }

  lemma SweptNext(lower: Lower, rows: seq<Row>, where: seq<Where>, i: nat)
    requires i < |rows|
    ensures var (front, next) := (rows[..i], rows[..i + 1]);
            if Matches(lower, rows[i], where) then
              Tally(lower, next, where) == Tally(lower, front, where) + 1 &&
                  Reject(lower, next, where) == Reject(lower, front, where)
            else
              Tally(lower, next, where) == Tally(lower, front, where) &&
                  Reject(lower, next, where) == Reject(lower, front, where) + [rows[i]]
  {
    assert rows[..i + 1][..i] == rows[..i];
  }

  class Adapter {
    const schema: Schema
    const lower: Lower
    var tables: Tables
    var index: Index
    ghost var db: Db
    ghost var repr: set<Record>

    /** The ghost rows are what the record objects hold. */
    ghost predicate Mirrors()
      reads `tables, `db, `repr, repr
    {
      forall m, i :: m in tables && 0 <= i < |tables[m]| ==>
        tables[m][i] in repr && i < |Rows(db, m)| && tables[m][i].fields == Rows(db, m)[i]
    }

    /** What holds even when a bulk update has put two rows on one value and the index is wrong. */
    ghost predicate Shaped()
      reads `tables, `db, `repr, repr
    {
      && SchemaOk(schema) && tables.Keys == db.Keys && Separate(tables) && Mirrors()
      && forall m :: m in tables ==> |tables[m]| == |db[m]|
    }

    lemma ShapedWhenValid()
      requires Valid()
      ensures Shaped()
    {
      forall m | m in tables ensures |tables[m]| == |db[m]| { SameLength(m); }
    }

    ghost predicate Valid()
      reads this, repr
    {
      SchemaOk(schema) && DbOk(schema, db) && Linked(schema, tables, db, index) && Mirrors()
    }

    constructor (schema: Schema, lower: Lower)
      requires SchemaOk(schema)
      ensures Valid() && db == map[] && repr == {} && this.schema == schema && this.lower == lower
    {
      this.schema, this.lower := schema, lower;
      tables, index, db, repr := map[], map[], map[], {};
    }

    method AddToIndex(model: string, rec: Record)
      modifies this`index
      ensures At(index, model) == At(old(index), model) + Tagged(Keys(Unique(schema, model), rec.fields), rec)
      ensures forall m :: m != model ==> At(index, m) == At(old(index), m)
    {
      var fs := UniqueList(schema, model);
      ghost var idx := At(index, model);
      for i := 0 to |fs|
        invariant At(index, model) == Entered(idx, fs, i, rec.fields, rec)
        invariant forall m :: m != model ==> At(index, m) == At(old(index), m)
      {
        if fs[i] in rec.fields && Indexable(rec.fields[fs[i]]) {
          index := index[model := At(index, model)[(fs[i], rec.fields[fs[i]]) := rec]];
        }
      }
      EnteredIsTagged(idx, fs, |fs|, rec.fields, rec);
    }

    /** Takes out the entries of the record's unique values that are its own. */
    method RemoveFromIndex(model: string, rec: Record)
      modifies this`index
      ensures Owns(At(old(index), model), Unique(schema, model), rec.fields, rec) ==>
                At(index, model) == At(old(index), model) - Keys(Unique(schema, model), rec.fields)
      ensures forall m :: m != model ==> At(index, m) == At(old(index), m)
    {
      var fs := UniqueList(schema, model);
      ghost var idx := At(index, model);
      ghost var owns := Owns(idx, Unique(schema, model), rec.fields, rec);
      for i := 0 to |fs|
        invariant owns ==> At(index, model) == idx - KeysUpTo(fs, i, rec.fields)
        invariant forall m :: m != model ==> At(index, m) == At(old(index), m)
      {
        KeysUpToNext(fs, i, rec.fields);
        if fs[i] in rec.fields && Indexable(rec.fields[fs[i]]) {
          var k := (fs[i], rec.fields[fs[i]]);
          assert k in Keys(Unique(schema, model), rec.fields);
          if k in At(index, model) && SameRecord(At(index, model)[k], rec) {
            index := index[model := At(index, model) - {k}];
          }
        }
      }
    }

    /** sameRecord on two records of one table means the same row. */
    lemma SameMeans(model: string, i: nat, j: nat)
      requires Valid() && i < |Recs(tables, model)| && j < |Recs(tables, model)|
      ensures SameRecord(Recs(tables, model)[i], Recs(tables, model)[j]) <==> i == j
    {
      var u, recs, rows := Unique(schema, model), Recs(tables, model), Rows(db, model);
      assert Indexed(u, recs, rows, At(index, model));
      RecsDistinct(tables, model);
      assert TableOk(schema, model, rows);
      assert recs[i].fields == rows[i] && recs[j].fields == rows[j];
      if model !in schema { assert "id" in u; }
      SameIdSameRecord(u, recs, rows, At(index, model), i, j);
    }

    method ViolatesUnique(model: string, row: Row, skip: Record?, ghost n: int) returns (bad: bool)
      requires Valid()
      requires if skip == null then n == -1 else 0 <= n < |Recs(tables, model)| && skip == Recs(tables, model)[n]
      ensures bad <==> Violates(schema, model, Rows(db, model), row, n)
    {
      ViolatesByColumn(schema, model, Rows(db, model), row, n);
      SkipKnown(model, skip, n);
      RecsDistinct(tables, model);
      assert Indexed(Unique(schema, model), Recs(tables, model), Rows(db, model), At(index, model));
      bad := ViolatesSingle(schema, model, Recs(tables, model), At(index, model), row, skip, Rows(db, model), n);
      if !bad {
        bad := ViolatesComposite(Constraints(schema, model), Recs(tables, model), row, skip, Rows(db, model), n);
      }
    }

    lemma SkipKnown(model: string, skip: Record?, n: int)
      requires Valid()
      requires if skip == null then n == -1 else 0 <= n < |Recs(tables, model)| && skip == Recs(tables, model)[n]
      ensures Skips(Recs(tables, model), Rows(db, model), skip, n)
    {
      SameLength(model);
      if skip != null {
        forall i | 0 <= i < |Recs(tables, model)| ensures SameRecord(Recs(tables, model)[i], skip) <==> i == n {
          SameMeans(model, i, n);
        }
      }
    }

    // ---- reads ----

    /** A record for a single equality clause on a unique field, straight from the index. */
    method LookupUnique(model: string, where: seq<Where>) returns (rec: Record?, indexed: bool)
      requires Valid()
      ensures indexed ==> First(lower, Rows(db, model), where) <= |Recs(tables, model)| == |Rows(db, model)|
      ensures indexed ==>
                var i := First(lower, Rows(db, model), where);
                if rec == null then i == |Rows(db, model)| else i < |Rows(db, model)| && rec == Recs(tables, model)[i]
    {
      if |where| != 1 || (where[0].op != Default && where[0].op != Eq) || !Indexable(where[0].value) {
        return null, false;
      }
      var w := where[0];
      var fs := UniqueList(schema, model);
      for i := 0 to |fs| {
        if fs[i] == w.field {
          assert Indexed(Unique(schema, model), Recs(tables, model), Rows(db, model), At(index, model));
          assert Typed(Unique(schema, model), Rows(db, model)) by { assert TableOk(schema, model, Rows(db, model)); }
          assert where == [w];
          IndexFindsFirst(schema, model, lower, Recs(tables, model), Rows(db, model), At(index, model), w,
              First(lower, Rows(db, model), where));
          if (w.field, w.value) in At(index, model) {
            return At(index, model)[(w.field, w.value)], true;
          }
          return null, true;
        }
      }
      return null, false;
    }

    method FindOne(model: string, where: seq<Where>) returns (out: Outcome)
      requires Valid()
      ensures (db, out) == Apply(schema, lower, db, Call.FindOne(model, where))
      ensures Finds(schema, lower, db, model, where, out)
    {
      FindMeans(schema, lower, db, model, where);
      if !Known(schema, model, WhereFields(where)) {
        return UnknownField;
      }
      var rec, indexed := LookupUnique(model, where);
      if indexed {
        return if rec == null then NotFound else Found(rec.fields);
      }
      var recs := Recs(tables, model);
      SameLength(model);
      for i := 0 to |recs|
        invariant forall j :: 0 <= j < i ==> !Matches(lower, Rows(db, model)[j], where)
      {
        if Matches(lower, recs[i].fields, where) {
          assert First(lower, Rows(db, model), where) == i;
          return Found(recs[i].fields);
        }
      }
      return NotFound;
    }

    lemma SameLength(model: string)
      requires Valid()
      ensures |Recs(tables, model)| == |Rows(db, model)|
      ensures forall i :: 0 <= i < |Recs(tables, model)| ==>
                Recs(tables, model)[i] in repr && Recs(tables, model)[i].fields == Rows(db, model)[i]
    {
      assert Indexed(Unique(schema, model), Recs(tables, model), Rows(db, model), At(index, model));
    }

    method Count(model: string, where: seq<Where>) returns (out: Outcome)
      requires Valid()
      ensures (db, out) == Apply(schema, lower, db, Call.Count(model, where))
      ensures Counts(schema, lower, db, model, where, out)
    {
      CountMeans(schema, lower, db, model, where);
      if !Known(schema, model, WhereFields(where)) {
        return UnknownField;
      }
      var recs, n := Recs(tables, model), 0;
      SameLength(model);
      ghost var rows := Rows(db, model);
      for i := 0 to |recs|
        invariant n == Tally(lower, rows[..i], where)
      {
        assert rows[..i + 1][..i] == rows[..i];
        if Matches(lower, recs[i].fields, where) {
          n := n + 1;
        }
      }
      assert rows[..|rows|] == rows;
      return Affected(n);
    }

    // ---- writes ----

    method Insert(model: string, rec: Record)
      requires Valid() && rec !in repr && !Shares(Unique(schema, model), rec.fields, Rows(db, model), -1)
      requires DbOk(schema, db[model := Rows(db, model) + [rec.fields]])
      modifies this
      ensures Valid() && repr == old(repr) + {rec}
      ensures db == old(db)[model := Rows(old(db), model) + [rec.fields]]
    {
      ghost var before, rows := index, Rows(db, model);
      SameLength(model);
      AddToIndex(model, rec);
      InsertLinks(schema, tables, db, before, model, rec, rec.fields, index);
      repr := repr + {rec};
      Commit(model, Recs(tables, model) + [rec], rows + [rec.fields]);
    }

    method Create(model: string, data: Row) returns (out: Outcome)
      requires Valid() && CallOk(schema, Call.Create(model, data))
      modifies this
      ensures Valid() && old(repr) <= repr && fresh(repr - old(repr))
      ensures (db, out) == Apply(schema, lower, old(db), Call.Create(model, data))
      ensures Creates(schema, old(db), model, data, db, out)
    {
      CreateMeans(schema, lower, db, model, data);
      if !Known(schema, model, data.Keys) {
        return UnknownField;
      }
      out := AddRecord(model, Defaults(schema, model, data));
    }

    /** A new record with these fields, unless it would duplicate a unique value. */
    method AddRecord(model: string, row: Row) returns (out: Outcome)
      requires Valid() && RowOk(Unique(schema, model), row)
      modifies this
      ensures Valid() && old(repr) <= repr && fresh(repr - old(repr))
      ensures if Violates(schema, model, Rows(old(db), model), row, -1) then out == UniqueViolation && db == old(db)
              else out == Found(row) && db == old(db)[model := Rows(old(db), model) + [row]]
    {
      var bad := ViolatesUnique(model, row, null, -1);
      if bad {
        return UniqueViolation;
      }
      CreatedFits(schema, db, model, row);
      var rec := new Record(row);
      Insert(model, rec);
      return Found(row);
    }

    /** Rewrites one record in place and reindexes it. */
    method Reindex(model: string, rec: Record, update: Row)
      modifies this`index, rec
      ensures rec.fields == old(rec.fields) + update
      ensures Owns(At(old(index), model), Unique(schema, model), old(rec.fields), rec) ==>
                At(index, model) ==
                    At(old(index), model) - Keys(Unique(schema, model), old(rec.fields)) +
                        Tagged(Keys(Unique(schema, model), rec.fields), rec)
      ensures forall m :: m != model ==> At(index, m) == At(old(index), m)
    {
      RemoveFromIndex(model, rec);
      rec.fields := rec.fields + update;
      AddToIndex(model, rec);
    }

    /** Rewrites record n of a table, in place. */
    method WriteRow(model: string, rec: Record, update: Row, ghost n: nat)
      requires Shaped() && n < |Recs(tables, model)| && rec == Recs(tables, model)[n]
      modifies this`index, this`db, rec
      ensures Shaped() && model in old(db) && n < |old(db)[model]| && rec.fields == old(db)[model][n] + update
      ensures db == old(db)[model := old(db)[model][n := rec.fields]]
      ensures Owns(At(old(index), model), Unique(schema, model), old(db)[model][n], rec) ==>
                At(index, model) ==
                    At(old(index), model) - Keys(Unique(schema, model), old(db)[model][n]) +
                        Tagged(Keys(Unique(schema, model), rec.fields), rec)
      ensures forall m :: m != model ==> At(index, m) == At(old(index), m)
    {
      assert rec in repr && rec.fields == db[model][n];
      Reindex(model, rec, update);
      db := db[model := db[model][n := rec.fields]];
      forall m, i | m in tables && 0 <= i < |tables[m]|
        ensures tables[m][i] in repr && i < |Rows(db, m)| && tables[m][i].fields == Rows(db, m)[i]
      {
        assert Rows(db, m) == if m == model then Rows(old(db), m)[n := rec.fields] else Rows(old(db), m);
        if m != model || i != n { assert tables[m][i] != rec; }
      }
    }

    /** And the index stays right when the new row shares no unique value. */
    method Rewrite(model: string, rec: Record, update: Row, ghost n: nat)
      requires Shaped() && n < |Recs(tables, model)| && rec == Recs(tables, model)[n]
      modifies this`index, this`db, rec
      ensures Shaped() && model in old(db) && n < |old(db)[model]| && rec.fields == old(db)[model][n] + update
      ensures db == old(db)[model := old(db)[model][n := old(db)[model][n] + update]]
      ensures old(Valid()) && DbOk(schema, db) ==> Valid()
    {
      ghost var before, db0, ok := index, db, Valid();
      if ok { IndexedRecord(model, n); }
      WriteRow(model, rec, update, n);
      if ok && DbOk(schema, db) { RewrittenLinks(schema, tables, db0, before, model, n, rec.fields, index); }
    }

    lemma IndexedRecord(model: string, n: nat)
      requires Valid() && n < |Recs(tables, model)|
      ensures var rec := Recs(tables, model)[n];
              Owns(At(index, model), Unique(schema, model), rec.fields, rec)
    {
      SameLength(model);
      assert Indexed(Unique(schema, model), Recs(tables, model), Rows(db, model), At(index, model));
      assert TableOk(schema, model, Rows(db, model));
    }

    method Update(model: string, where: seq<Where>, update: Row) returns (out: Outcome)
      requires Valid() && CallOk(schema, Call.Update(model, where, update))
      modifies this`index, this`db, repr
      ensures Valid()
      ensures (db, out) == Apply(schema, lower, old(db), Call.Update(model, where, update))
      ensures Updates(schema, lower, old(db), model, where, update, db, out)
    {
      UpdateMeans(schema, lower, db, model, where, update);
      if !Known(schema, model, WhereFields(where)) || !Known(schema, model, update.Keys) {
        return UnknownField;
      }
      var recs := Recs(tables, model);
      SameLength(model);
      ghost var rows := Rows(db, model);
      for i := 0 to |recs|
        invariant forall j :: 0 <= j < i ==> !Matches(lower, rows[j], where)
      {
        var rec := recs[i];
        if Matches(lower, rec.fields, where) {
          assert First(lower, rows, where) == i;
          var bad := ViolatesUnique(model, rec.fields + update, rec, i);
          if bad {
            return UniqueViolation;
          }
          ApplyKeepsDbOk(schema, lower, db, Call.Update(model, where, update));
          ShapedWhenValid();
          Rewrite(model, rec, update, i);
          return Found(rec.fields);
        }
      }
      return NotFound;
    }

    /** The update is made whatever it does to uniqueness; the index survives exactly the bulk
        updates that keep unique values apart. */
    method UpdateMany(model: string, where: seq<Where>, update: Row) returns (out: Outcome)
      requires Valid() && CallOk(schema, Call.UpdateMany(model, where, update))
      modifies this`index, this`db, repr
      ensures (db, out) == Apply(schema, lower, old(db), Call.UpdateMany(model, where, update))
      ensures Valid() <==> Fits(schema, lower, old(db), Call.UpdateMany(model, where, update))
      ensures UpdatesAll(schema, lower, old(db), model, where, update, db, out)
    {
      UpdateManyMeans(schema, lower, db, model, where, update);
      if update == map[] {
        return Affected(0);
      }
      if !Known(schema, model, WhereFields(where)) || !Known(schema, model, update.Keys) {
        return UnknownField;
      }
      ghost var rows := Rows(db, model);
      assert TableOk(schema, model, rows);
      ApplyKeepsDbOk(schema, lower, db, Call.UpdateMany(model, where, update));
      var n := OfferAll(model, where, update);
      assert AssignFirst(lower, rows, where, update, |rows|) == Assign(lower, rows, where, update);
      return Affected(n);
    }

    method OfferAll(model: string, where: seq<Where>, update: Row) returns (n: nat)
      requires Valid() && UpdateOk(Unique(schema, model), update)
      modifies this`index, this`db, repr
      ensures n == Tally(lower, Rows(old(db), model), where)
      ensures Offered(old(db), Rows(old(db), model), model, where, update, |Rows(old(db), model)|)
      ensures BulkFits(Unique(schema, model), lower, Rows(old(db), model), where, update) ==> Valid()
    {
      var recs := Recs(tables, model);
      n := 0;
      ghost var db0, rows := db, Rows(db, model);
      ghost var fits := BulkFits(Unique(schema, model), lower, rows, where, update);
      SameLength(model);
      ShapedWhenValid();
      assert TableOk(schema, model, rows);
      assert AssignFirst(lower, rows, where, update, 0) == rows;
      for i := 0 to |recs|
        invariant Shaped() && (fits ==> Valid())
        invariant Offered(db0, rows, model, where, update, i)
        invariant n == Tally(lower, rows[..i], where)
      {
        n := OfferNext(model, recs[i], where, update, n, i, db0, rows, fits);
      }
      assert rows[..|rows|] == rows;
    }

    method OfferNext(model: string, rec: Record, where: seq<Where>, update: Row, n0: nat, ghost i: nat, ghost db0: Db,
        ghost rows: seq<Row>, ghost fits: bool) returns (n: nat)
      requires Shaped() && i < |rows| && i < |Recs(tables, model)| && rec == Recs(tables, model)[i]
      requires Offered(db0, rows, model, where, update, i) && DbOk(schema, db0) && n0 == Tally(lower, rows[..i], where)
      requires TableOk(schema, model, rows) && UpdateOk(Unique(schema, model), update)
      requires fits ==> Valid() && BulkFits(Unique(schema, model), lower, rows, where, update)
      modifies this`index, this`db, rec
      ensures Shaped() && (fits ==> Valid())
      ensures Offered(db0, rows, model, where, update, i + 1) && n == Tally(lower, rows[..i + 1], where)
    {
      SweptNext(lower, rows, where, i);
      if fits { FittingStays(schema, model, lower, rows, where, update, i + 1); }
      var hit := Offer(model, rec, where, update, i, db0, rows);
      n := n0 + if hit then 1 else 0;
    }

    /** The state of a bulk update after i rows. */
    ghost predicate Offered(db0: Db, rows: seq<Row>, model: string, where: seq<Where>, update: Row, i: nat)
      reads this`db
    {
      && Rows(db, model) == AssignFirst(lower, rows, where, update, i)
      && db == if model in db0 then db0[model := Rows(db, model)] else db0
    }

    method Offer(model: string, rec: Record, where: seq<Where>, update: Row, ghost i: nat, ghost db0: Db,
        ghost rows: seq<Row>) returns (hit: bool)
      requires Shaped() && i < |rows| && i < |Recs(tables, model)| && rec == Recs(tables, model)[i]
      requires Offered(db0, rows, model, where, update, i) && DbOk(schema, db0)
      modifies this`index, this`db, rec
      ensures Shaped() && hit == Matches(lower, rows[i], where)
      ensures Offered(db0, rows, model, where, update, i + 1)
      ensures old(Valid()) && TableOk(schema, model, AssignFirst(lower, rows, where, update, i + 1)) ==> Valid()
    {
      AssignNext(lower, rows, where, update, i);
      assert rec in repr && rec.fields == Rows(db, model)[i];
      hit := Matches(lower, rec.fields, where);
      if hit {
        Rewrite(model, rec, update, i);
        PutOk(schema, db0, model, AssignFirst(lower, rows, where, update, i + 1));
      }
    }

    method Delete(model: string, where: seq<Where>) returns (out: Outcome)
      requires Valid()
      modifies this
      ensures Valid() && repr == old(repr)
      ensures (db, out) == Apply(schema, lower, old(db), Call.Delete(model, where))
      ensures Deletes(schema, lower, old(db), model, where, db, out)
    {
      DeleteMeans(schema, lower, db, model, where);
      if !Known(schema, model, WhereFields(where)) {
        return UnknownField;
      }
      var recs := Recs(tables, model);
      SameLength(model);
      ghost var rows := Rows(db, model);
      for i := 0 to |recs|
        invariant forall j :: 0 <= j < i ==> !Matches(lower, rows[j], where)
      {
        if Matches(lower, recs[i].fields, where) {
          assert First(lower, rows, where) == i;
          ApplyKeepsDbOk(schema, lower, db, Call.Delete(model, where));
          Remove(model, i);
          return Done;
        }
      }
      return Done;
    }

    method Remove(model: string, n: nat)
      requires Valid() && n < |Recs(tables, model)| && n < |Rows(db, model)|
      requires DbOk(schema, db[model := Rows(db, model)[..n] + Rows(db, model)[n + 1..]])
      modifies this
      ensures Valid() && repr == old(repr) && model in old(db)
      ensures db == old(db)[model := old(db)[model][..n] + old(db)[model][n + 1..]]
    {
      ghost var before, rows := index, Rows(db, model);
      var recs := Recs(tables, model);
      SameLength(model);
      IndexedRecord(model, n);
      RemoveFromIndex(model, recs[n]);
      RemoveLinks(schema, tables, db, before, model, n, index);
      Commit(model, recs[..n] + recs[n + 1..], rows[..n] + rows[n + 1..]);
    }

    /** Takes record rec, which heads the unvisited rest of a sweep, out of the index. */
    method SweepOut(model: string, rec: Record, ghost kept: seq<Record>, ghost krows: seq<Row>, ghost rest: seq<Record>,
        ghost rrows: seq<Row>)
      requires |kept| == |krows| && |rest| == |rrows| > 0 && rest[0] == rec && rec.fields == rrows[0]
      requires "id" in rec.fields
      requires Linked(schema, tables[model := kept + rest], db[model := krows + rrows], index)
      modifies this`index
      ensures Linked(schema, tables[model := kept + rest[1..]], db[model := krows + rrows[1..]], index)
    {
      ghost var t, d, k, before := tables[model := kept + rest], db[model := krows + rrows], |kept|, index;
      assert t[model][k] == rec && d[model][k] == rrows[0];
      KeysPointTo(schema, t, d, index, model, k);
      RemoveFromIndex(model, rec);
      RemoveLinks(schema, t, d, before, model, k, index);
      assert t[model][..k] + t[model][k + 1..] == kept + rest[1..];
      assert d[model][..k] + d[model][k + 1..] == krows + rrows[1..];
      assert t[model := kept + rest[1..]] == tables[model := kept + rest[1..]];
      assert d[model := krows + rrows[1..]] == db[model := krows + rrows[1..]];
    }

    /** One record of a sweep: out of the index, or kept. */
    method SweepNext(model: string, rec: Record, where: seq<Where>, kept: seq<Record>, ghost krows: seq<Row>,
        ghost rest: seq<Record>, ghost rrows: seq<Row>)
      returns (hit: bool)
      requires Backs(kept, krows) && Backs(rest, rrows) && rest != [] && rest[0] == rec && "id" in rrows[0]
      requires Linked(schema, tables[model := kept + rest], db[model := krows + rrows], index)
      modifies this`index
      ensures hit == Matches(lower, rrows[0], where)
      ensures var k, r := if hit then kept else kept + [rec], if hit then krows else krows + [rrows[0]];
              Backs(k, r) && Linked(schema, tables[model := k + rest[1..]], db[model := r + rrows[1..]], index)
    {
      assert rec.fields == rrows[0];
      hit := Matches(lower, rec.fields, where);
      if hit {
        SweepOut(model, rec, kept, krows, rest, rrows);
      } else {
        Shift(kept, rest);
        Shift(krows, rrows);
      }
    }

    /** After i records of a sweep: those kept, the rest still to come, and as many gone. */
    ghost predicate Swept(recs: seq<Record>, rows: seq<Row>, model: string, where: seq<Where>, i: nat,
                          kept: seq<Record>, krows: seq<Row>, n: nat)
      requires i <= |recs| == |rows|
      reads this`tables, this`db, this`index, this`repr, repr
    {
      && n == Tally(lower, rows[..i], where) && krows == Reject(lower, rows[..i], where)
      && Backs(kept, krows) && Backs(recs[i..], rows[i..])
      && Linked(schema, tables[model := kept + recs[i..]], db[model := krows + rows[i..]], index)
    }

    method SweepStep(model: string, recs: seq<Record>, where: seq<Where>, i: nat, kept0: seq<Record>, n0: nat,
        ghost rows: seq<Row>, ghost krows0: seq<Row>)
      returns (kept: seq<Record>, n: nat, ghost krows: seq<Row>)
      requires i < |recs| == |rows| && "id" in rows[i] && Swept(recs, rows, model, where, i, kept0, krows0, n0)
      modifies this`index
      ensures Swept(recs, rows, model, where, i + 1, kept, krows, n)
    {
      SweptNext(lower, rows, where, i);
      assert recs[i..][1..] == recs[i + 1..] && rows[i..][1..] == rows[i + 1..];
      var hit := SweepNext(model, recs[i], where, kept0, krows0, recs[i..], rows[i..]);
      if hit {
        return kept0, n0 + 1, krows0;
      }
      return kept0 + [recs[i]], n0, krows0 + [rows[i]];
    }

    /** One pass over a table that takes the matching records out of the index. */
    method Sweep(model: string, where: seq<Where>) returns (kept: seq<Record>, n: nat, ghost krows: seq<Row>)
      requires Valid()
      modifies this`index
      ensures n == Tally(lower, Rows(db, model), where) && krows == Reject(lower, Rows(db, model), where)
      ensures Backs(kept, krows) && Linked(schema, tables[model := kept], db[model := krows], index)
    {
      var recs := Recs(tables, model);
      kept, n, krows := [], 0, [];
      ghost var rows := Rows(db, model);
      StartSweep(model);
      for i := 0 to |recs|
        invariant Swept(recs, rows, model, where, i, kept, krows, n)
      {
        kept, n, krows := SweepStep(model, recs, where, i, kept, n, rows, krows);
      }
      assert rows[..|rows|] == rows && kept + recs[|recs|..] == kept && krows + rows[|rows|..] == krows;
    }

    method DeleteMany(model: string, where: seq<Where>) returns (out: Outcome)
      requires Valid()
      modifies this
      ensures Valid() && repr == old(repr)
      ensures (db, out) == Apply(schema, lower, old(db), Call.DeleteMany(model, where))
      ensures DeletesAll(schema, lower, old(db), model, where, db, out)
    {
      DeleteManyMeans(schema, lower, db, model, where);
      if !Known(schema, model, WhereFields(where)) {
        return UnknownField;
      }
      ApplyKeepsDbOk(schema, lower, db, Call.DeleteMany(model, where));
      ghost var krows;
      var kept, n;
      kept, n, krows := Sweep(model, where);
      Commit(model, kept, krows);
      return Affected(n);
    }

    /** The records are ours and hold the rows. */
    ghost predicate Backs(recs: seq<Record>, rows: seq<Row>)
      reads `repr, repr
    {
      |recs| == |rows| && forall i :: 0 <= i < |recs| ==> recs[i] in repr && recs[i].fields == rows[i]
    }

    lemma StartSweep(model: string)
      requires Valid()
      ensures Linked(schema, tables[model := [] + Recs(tables, model)], db[model := [] + Rows(db, model)], index)
      ensures Backs(Recs(tables, model), Rows(db, model))
      ensures forall i :: 0 <= i < |Rows(db, model)| ==> "id" in Rows(db, model)[i]
    {
      var recs, rows := Recs(tables, model), Rows(db, model);
      assert [] + recs == recs && [] + rows == rows;
      assert Indexed(Unique(schema, model), recs, rows, At(index, model));
      assert TableOk(schema, model, rows);
      assert Separate(tables[model := recs]);
      LinkedPut(schema, tables, db, index, model, recs, rows, index);
      SameLength(model);
      forall i | 0 <= i < |rows| ensures "id" in rows[i] {
        assert RowOk(Unique(schema, model), rows[i]);
      }
    }

    /** Installs a table that is already linked. */
    method Commit(model: string, recs: seq<Record>, ghost rows: seq<Row>)
      requires SchemaOk(schema) && Mirrors() && Backs(recs, rows) && DbOk(schema, db[model := rows])
      requires Linked(schema, tables[model := recs], db[model := rows], index)
      modifies this`tables, this`db
      ensures Valid() && db == old(db)[model := rows]
    {
      tables := tables[model := recs];
      db := db[model := rows];
      forall m, i | m in tables && 0 <= i < |tables[m]|
        ensures tables[m][i] in repr && i < |Rows(db, m)| && tables[m][i].fields == Rows(db, m)[i]
      {
        assert m != model ==> tables[m] == old(tables)[m] && Rows(db, m) == Rows(old(db), m);
      }
    }

    // ---- transactions ----

    method Perform(call: Call) returns (out: Outcome)
      requires Valid() && CallOk(schema, call) && Fits(schema, lower, db, call)
      modifies this, repr
      ensures Valid() && old(repr) <= repr && fresh(repr - old(repr))
      ensures (db, out) == Apply(schema, lower, old(db), call)
    {
      match call
      case Create(model, data) => out := Create(model, data);
      case FindOne(model, where) => out := FindOne(model, where);
      case Count(model, where) => out := Count(model, where);
      case Update(model, where, update) => out := Update(model, where, update);
      case UpdateMany(model, where, update) => out := UpdateMany(model, where, update);
      case Delete(model, where) => out := Delete(model, where);
      case DeleteMany(model, where) => out := DeleteMany(model, where);
    }

    /** Lets a client go on running against this adapter, having seen these outcomes. */
    method Drive(client: Client, limit: nat, history: seq<Outcome>) returns (ok: bool)
      requires Valid() && Polite(schema, lower, db, client, limit, history)
      modifies this, repr
      ensures Valid() && old(repr) <= repr && fresh(repr - old(repr))
      ensures (db, ok) == Run(schema, lower, old(db), client, limit, history)
      decreases limit
    {
      var move := Next(client, history);
      if move.Finish? {
        return move.ok;
      }
      OneCall(schema, lower, db, client, limit, history, move.call);
      var out := Perform(move.call);
      ok := Drive(client, limit - 1, history + [out]);
    }

    /** Copies the records of a table of another adapter, one by one, into a new one. */
    method CopyTable(model: string, recs: seq<Record>, ghost rows: seq<Row>)
      requires Valid() && model !in tables && TableOk(schema, model, rows)
      requires Holding(recs, rows)
      modifies this
      ensures Valid() && old(repr) <= repr && fresh(repr - old(repr))
      ensures db == old(db)[model := rows]
    {
      StartTable(model);
      CopyRows(model, recs, rows, old(db));
    }

    method CopyRows(model: string, recs: seq<Record>, ghost rows: seq<Row>, ghost start: Db)
      requires Valid() && TableOk(schema, model, rows) && Holding(recs, rows) && db == start[model := []]
      modifies this
      ensures Valid() && old(repr) <= repr && fresh(repr - old(repr))
      ensures db == start[model := rows]
    {
      for i := 0 to |recs|
        invariant Valid() && old(repr) <= repr && fresh(repr - old(repr))
        invariant db == start[model := rows[..i]]
      {
        assert recs[i].fields == rows[i];
        CopyRow(model, recs[i], rows, i, start);
      }
      assert rows[..|rows|] == rows;
    }

    method CopyRow(model: string, rec: Record, ghost rows: seq<Row>, ghost i: nat, ghost start: Db)
      requires Valid() && TableOk(schema, model, rows) && i < |rows| && rec.fields == rows[i]
      requires db == start[model := rows[..i]]
      modifies this
      ensures Valid() && old(repr) <= repr && fresh(repr - old(repr)) && db == start[model := rows[..i + 1]]
    {
      PrefixOk(schema, model, rows, i);
      PutOk(schema, db, model, rows[..i] + [rows[i]]);
      assert rows[..i + 1] == rows[..i] + [rows[i]] && Rows(db, model) == rows[..i];
      assert start[model := rows[..i]][model := rows[..i + 1]] == start[model := rows[..i + 1]];
      var copy := new Record(rec.fields);
      Insert(model, copy);
    }

    method StartTable(model: string)
      requires Valid() && model !in tables
      modifies this`tables, this`db
      ensures Valid() && db == old(db)[model := []]
    {
      assert Indexed(Unique(schema, model), Recs(tables, model), Rows(db, model), At(index, model));
      LinkedPut(schema, tables, db, index, model, [], [], index);
      Commit(model, [], []);
    }

    /** A private working copy. */
    method Fork() returns (child: Adapter)
      requires Valid()
      ensures fresh(child) && fresh(child.repr) && child.Valid()
      ensures child.schema == schema && child.lower == lower && child.db == db
    {
      child := new Adapter(schema, lower);
      var todo := tables.Keys;
      while todo != {}
        invariant fresh(child) && fresh(child.repr) && child.Valid() && child.schema == schema && child.lower == lower
        invariant todo <= tables.Keys && child.db == map m | m in db && m !in todo :: db[m]
        decreases todo
      {
        var model :| model in todo;
        SameLength(model);
        child.CopyTable(model, tables[model], db[model]);
        todo := todo - {model};
        assert child.db == map m | m in db && m !in todo :: db[m];
      }
      assert child.db == db;
    }

    /** fn runs on the copy. If it fails nothing of this adapter changes, its records included;
        if it succeeds this adapter ends where running fn on it directly would have. */
    method Transaction(client: Client, limit: nat) returns (ok: bool)
      requires Valid() && Polite(schema, lower, db, client, limit, [])
      modifies this
      ensures Valid()
      ensures var (db', ok') := Run(schema, lower, old(db), client, limit, []);
              ok == ok' && db == if ok then db' else old(db)
      ensures !ok ==> tables == old(tables) && index == old(index) && repr == old(repr)
      ensures ok ==> fresh(repr)
    {
      var child := Fork();
      ok := child.Drive(client, limit, []);
      if ok {
        tables := child.tables;
        index := child.index;
        db, repr := child.db, child.repr;
      }
    }
  }
}
