/** What the in-memory adapter is meant to be: tables of rows, every operation a scan.
    No index and no shared records appear here. */
module MemorySpec {
  import opened Storage

  datatype FieldDef = FieldDef(name: string, unique: bool, default: Value)
  datatype TableDef = TableDef(fields: seq<FieldDef>, constraints: seq<seq<string>>)
  type Schema = map<string, TableDef>
  type Db = map<string, seq<Row>>

  datatype Outcome = Found(row: Row) | Affected(n: nat) | Done | NotFound | UniqueViolation | UnknownField

  datatype Call =
    | Create(model: string, data: Row)
    | FindOne(model: string, where: seq<Where>)
    | Count(model: string, where: seq<Where>)
    | Update(model: string, where: seq<Where>, update: Row)
    | UpdateMany(model: string, where: seq<Where>, update: Row)
    | Delete(model: string, where: seq<Where>)
    | DeleteMany(model: string, where: seq<Where>)

  // ---- the schema ----

  function UniqueNames(fields: seq<FieldDef>): (names: seq<string>)
    ensures forall f :: f in names <==> exists i :: 0 <= i < |fields| && fields[i].unique && fields[i].name == f
  {
    if fields == [] then []
    else (if fields[0].unique then [fields[0].name] else []) + UniqueNames(fields[1..])
  }

  /** The unique columns of a model; without a schema only the id. */
  function UniqueList(schema: Schema, model: string): seq<string> {
    if model in schema then UniqueNames(schema[model].fields) else ["id"]
  }

  function Unique(schema: Schema, model: string): set<string> {
    set f | f in UniqueList(schema, model)
  }

  function Constraints(schema: Schema, model: string): seq<seq<string>> {
    if model in schema then schema[model].constraints else []
  }

  predicate Known(schema: Schema, model: string, names: set<string>) {
    model in schema ==>
        forall f :: f in names ==> exists i :: 0 <= i < |schema[model].fields| && schema[model].fields[i].name == f
  }

  function WhereFields(where: seq<Where>): set<string> {
    set i | 0 <= i < |where| :: where[i].field
  }

  /** ApplyDefaults: declared defaults for absent keys, in field order. */
  function WithDefaults(fields: seq<FieldDef>, row: Row): Row
    decreases |fields|
  {
    if fields == [] then row
    else
      var f := fields[0];
      WithDefaults(fields[1..], if f.default != Nil && f.name !in row then row[f.name := f.default] else row)
  }

  function Defaults(schema: Schema, model: string, row: Row): Row {
    if model in schema then WithDefaults(schema[model].fields, row) else row
  }

  // ---- uniqueness ----

  predicate Indexable(v: Value) {
    v.Str? || v.Bool? || v.Int?
  }

  /** The unique (column, value) pairs of a row. */
  function Keys(unique: set<string>, row: Row): set<(string, Value)> {
    set f | f in unique && f in row && Indexable(row[f]) :: (f, row[f])
  }

  predicate Complete(columns: seq<string>, row: Row) {
    forall i :: 0 <= i < |columns| ==> columns[i] in row && row[columns[i]] != Nil
  }

  predicate SameTuple(columns: seq<string>, a: Row, b: Row) {
    forall i :: 0 <= i < |columns| ==> Field(a, columns[i]) == Field(b, columns[i])
  }

  predicate CollideOn(columns: seq<string>, row: Row, other: Row) {
    Complete(columns, row) && SameTuple(columns, row, other)
  }

  /** Two rows that a composite constraint forbids to coexist. */
  predicate Collide(constraints: seq<seq<string>>, row: Row, other: Row) {
    exists c :: 0 <= c < |constraints| && CollideOn(constraints[c], row, other)
  }

  predicate SharesKey(unique: set<string>, row: Row, other: Row) {
    Keys(unique, row) * Keys(unique, other) != {}
  }

  predicate Conflict(schema: Schema, model: string, row: Row, other: Row) {
    SharesKey(Unique(schema, model), row, other) || Collide(Constraints(schema, model), row, other)
  }

  /** Whether storing row would duplicate a unique value of some row other than number skip. */
  predicate Violates(schema: Schema, model: string, rows: seq<Row>, row: Row, skip: int) {
    exists i :: 0 <= i < |rows| && i != skip && Conflict(schema, model, row, rows[i])
  }

  /** Whether row holds a unique value of some row other than number skip. */
  ghost predicate Shares(unique: set<string>, row: Row, rows: seq<Row>, skip: int) {
    exists i :: 0 <= i < |rows| && i != skip && SharesKey(unique, row, rows[i])
  }

  // ---- scans ----

  function Rows(db: Db, model: string): seq<Row> {
    if model in db then db[model] else []
  }

  function First(lower: Lower, rows: seq<Row>, where: seq<Where>): (i: nat)
    ensures i <= |rows|
    ensures i < |rows| ==> Matches(lower, rows[i], where)
    ensures forall j :: 0 <= j < i ==> !Matches(lower, rows[j], where)
  {
    if rows == [] || Matches(lower, rows[0], where) then 0 else 1 + First(lower, rows[1..], where)
  }

  function Tally(lower: Lower, rows: seq<Row>, where: seq<Where>): nat {
    if rows == [] then 0
    else Tally(lower, rows[..|rows| - 1], where) + (if Matches(lower, rows[|rows| - 1], where) then 1 else 0)
  }

  function Reject(lower: Lower, rows: seq<Row>, where: seq<Where>): seq<Row> {
    if rows == [] then []
    else
      var last := rows[|rows| - 1];
      Reject(lower, rows[..|rows| - 1], where) + if Matches(lower, last, where) then [] else [last]
  }

  /** The rows after the first n of them have been offered the update. */
  function AssignFirst(lower: Lower, rows: seq<Row>, where: seq<Where>, update: Row, n: nat): (r: seq<Row>)
    ensures |r| == |rows|
  {
    seq(|rows|,
        i requires 0 <= i < |rows| => if i < n && Matches(lower, rows[i], where) then rows[i] + update else rows[i])
  }

  function Assign(lower: Lower, rows: seq<Row>, where: seq<Where>, update: Row): (r: seq<Row>)
    ensures |r| == |rows|
  {
    seq(|rows|, i requires 0 <= i < |rows| => if Matches(lower, rows[i], where) then rows[i] + update else rows[i])
  }

  // ---- the operations ----

  function Apply(schema: Schema, lower: Lower, db: Db, call: Call): (Db, Outcome) {
    var m := call.model;
    var rows := Rows(db, m);
    match call
    case Create(_, data) =>
      var row := Defaults(schema, m, data);
      if !Known(schema, m, data.Keys) then (db, UnknownField)
      else if Violates(schema, m, rows, row, -1) then (db, UniqueViolation)
      else (db[m := rows + [row]], Found(row))
    case FindOne(_, where) =>
      if !Known(schema, m, WhereFields(where)) then (db, UnknownField)
      else
        var i := First(lower, rows, where);
        if i == |rows| then (db, NotFound) else (db, Found(rows[i]))
    case Count(_, where) =>
      if !Known(schema, m, WhereFields(where)) then (db, UnknownField)
      else (db, Affected(Tally(lower, rows, where)))
    case Update(_, where, update) =>
      var i := First(lower, rows, where);
      if !Known(schema, m, WhereFields(where)) || !Known(schema, m, update.Keys) then (db, UnknownField)
      else if i == |rows| then (db, NotFound)
      else if Violates(schema, m, rows, rows[i] + update, i) then (db, UniqueViolation)
      else (db[m := rows[i := rows[i] + update]], Found(rows[i] + update))
    case UpdateMany(_, where, update) =>
      if update == map[] then (db, Affected(0))
      else if !Known(schema, m, WhereFields(where)) || !Known(schema, m, update.Keys) then (db, UnknownField)
      else (if m in db then db[m := Assign(lower, rows, where, update)] else db, Affected(Tally(lower, rows, where)))
    case Delete(_, where) =>
      var i := First(lower, rows, where);
      if !Known(schema, m, WhereFields(where)) then (db, UnknownField)
      else (if i == |rows| then db else db[m := rows[..i] + rows[i + 1..]], Done)
    case DeleteMany(_, where) =>
      if !Known(schema, m, WhereFields(where)) then (db, UnknownField)
      else (db[m := Reject(lower, rows, where)], Affected(Tally(lower, rows, where)))
  }

  // ---- what the schema promises ----

  predicate SchemaOk(schema: Schema) {
    forall m :: m in schema ==> "id" in Unique(schema, m)
  }

  /** A row with a string id whose other unique columns hold strings or nothing. */
  predicate RowOk(unique: set<string>, row: Row) {
    && "id" in row && row["id"].Str?
    && forall f :: f in unique && f in row ==> row[f].Str? || row[f].Nil?
  }

  /** An update leaving ids strings and other unique columns strings or nothing. */
  predicate UpdateOk(unique: set<string>, update: Row) {
    && ("id" in update ==> update["id"].Str?)
    && forall f :: f in unique && f in update ==> update[f].Str? || update[f].Nil?
  }

  /** The calls that respect the typing of unique columns. */
  predicate CallOk(schema: Schema, call: Call) {
    var unique := Unique(schema, call.model);
    match call
    case Create(m, data) => RowOk(unique, Defaults(schema, m, data))
    case Update(_, _, update) => UpdateOk(unique, update)
    case UpdateMany(_, _, update) => UpdateOk(unique, update)
    case _ => true
  }

  /** Typed rows, no two sharing a unique value: what the index relies on. */
  ghost predicate TableOk(schema: Schema, model: string, rows: seq<Row>) {
    && (forall i :: 0 <= i < |rows| ==> RowOk(Unique(schema, model), rows[i]))
    && (forall i, j {:trigger SharesKey(Unique(schema, model), rows[i], rows[j])} ::
          0 <= i < |rows| && 0 <= j < |rows| && i != j ==> !SharesKey(Unique(schema, model), rows[i], rows[j]))
  }

  ghost predicate DbOk(schema: Schema, db: Db) {
    forall m :: m in db ==> TableOk(schema, m, db[m])
  }

  // ---- what every operation keeps ----

  lemma AppendOk(schema: Schema, model: string, rows: seq<Row>, row: Row)
    requires TableOk(schema, model, rows) && RowOk(Unique(schema, model), row)
    requires !Shares(Unique(schema, model), row, rows, -1)
    ensures TableOk(schema, model, rows + [row])
  {
    var u, rows' := Unique(schema, model), rows + [row];
    forall i, j | 0 <= i < |rows'| && 0 <= j < |rows'| && i != j ensures !SharesKey(u, rows'[i], rows'[j]) {
      if i == |rows| { assert rows'[j] == rows[j]; }
      if j == |rows| { assert rows'[i] == rows[i] && !SharesKey(u, row, rows[i]); }
    }
  }

  lemma ReplaceOk(schema: Schema, model: string, rows: seq<Row>, n: nat, row: Row)
    requires TableOk(schema, model, rows) && RowOk(Unique(schema, model), row) && n < |rows|
    ensures TableOk(schema, model, rows[n := row]) <==> !Shares(Unique(schema, model), row, rows, n)
  {
    var u, rows' := Unique(schema, model), rows[n := row];
    if !Shares(u, row, rows, n) {
      forall i, j | 0 <= i < |rows'| && 0 <= j < |rows'| && i != j ensures !SharesKey(u, rows'[i], rows'[j]) {
        if j == n { assert !SharesKey(u, row, rows[i]); }
      }
    }
    if i :| 0 <= i < |rows| && i != n && SharesKey(u, row, rows[i]) {
      assert SharesKey(u, rows'[n], rows'[i]);
    }
  }

  lemma RemoveOk(schema: Schema, model: string, rows: seq<Row>, n: nat)
    requires TableOk(schema, model, rows) && n < |rows|
    ensures TableOk(schema, model, rows[..n] + rows[n + 1..])
  {
    var u, rows' := Unique(schema, model), rows[..n] + rows[n + 1..];
    forall i | 0 <= i < |rows'| ensures rows'[i] == rows[if i < n then i else i + 1] {}
    forall i, j | 0 <= i < |rows'| && 0 <= j < |rows'| && i != j ensures !SharesKey(u, rows'[i], rows'[j]) {
      assert rows'[i] == rows[if i < n then i else i + 1] && rows'[j] == rows[if j < n then j else j + 1];
    }
  }

  lemma {:induction false} RejectFrom(lower: Lower, rows: seq<Row>, where: seq<Where>)
    ensures forall row :: row in Reject(lower, rows, where) ==> row in rows
  {
    if rows != [] { RejectFrom(lower, rows[..|rows| - 1], where); }
  }

  lemma {:induction false} RejectOk(schema: Schema, model: string, lower: Lower, rows: seq<Row>, where: seq<Where>)
    requires TableOk(schema, model, rows)
    ensures TableOk(schema, model, Reject(lower, rows, where))
  {
    if rows != [] {
      var n := |rows| - 1;
      var init := rows[..n];
      var kept := Reject(lower, init, where);
      RejectOk(schema, model, lower, init, where);
      RejectFrom(lower, init, where);
      if !Matches(lower, rows[n], where) {
        forall k | 0 <= k < |kept| ensures !SharesKey(Unique(schema, model), rows[n], kept[k]) {
          assert kept[k] in init;
        }
        AppendOk(schema, model, kept, rows[n]);
      }
    }
  }

  lemma PutOk(schema: Schema, db: Db, model: string, rows: seq<Row>)
    requires DbOk(schema, db)
    ensures DbOk(schema, db[model := rows]) <==> TableOk(schema, model, rows)
  {
    if DbOk(schema, db[model := rows]) { assert model in db[model := rows]; }
  }

  // ---- bulk updates ----

  lemma {:induction false} TallyNone(lower: Lower, rows: seq<Row>, where: seq<Where>)
    ensures Tally(lower, rows, where) == 0 <==> First(lower, rows, where) == |rows|
    ensures Tally(lower, rows, where) == 0 <==> forall i :: 0 <= i < |rows| ==> !Matches(lower, rows[i], where)
  {
    if rows != [] {
      var n := |rows| - 1;
      TallyNone(lower, rows[..n], where);
      assert forall i :: 0 <= i < n ==> rows[..n][i] == rows[i];
    }
  }

  /** Two matching rows are counted as two. */
  lemma {:induction false} TallyTwo(lower: Lower, rows: seq<Row>, where: seq<Where>, i: nat, j: nat)
    requires i < j < |rows| && Matches(lower, rows[i], where) && Matches(lower, rows[j], where)
    ensures Tally(lower, rows, where) >= 2
  {
    var n := |rows| - 1;
    if j < n {
      TallyTwo(lower, rows[..n], where, i, j);
    } else {
      TallyNone(lower, rows[..n], where);
      assert rows[..n][i] == rows[i];
    }
  }

  /** A count of two comes from two rows. */
  lemma {:induction false} TwoCounted(lower: Lower, rows: seq<Row>, where: seq<Where>) returns (i: nat, j: nat)
    requires Tally(lower, rows, where) >= 2
    ensures i < j < |rows| && Matches(lower, rows[i], where) && Matches(lower, rows[j], where)
  {
    var n := |rows| - 1;
    if Matches(lower, rows[n], where) {
      TallyNone(lower, rows[..n], where);
      i, j := First(lower, rows[..n], where), n;
      assert rows[..n][i] == rows[i];
    } else {
      i, j := TwoCounted(lower, rows[..n], where);
    }
  }

  /** With at most one match, a bulk update is one replacement, or none. */
  lemma AtMostOneAssigned(lower: Lower, rows: seq<Row>, where: seq<Where>, update: Row, n: nat)
    requires Tally(lower, rows, where) <= 1 && n <= |rows|
    ensures var i := First(lower, rows, where);
            AssignFirst(lower, rows, where, update, n) == if i < n then rows[i := rows[i] + update] else rows
  {
    var i := First(lower, rows, where);
    forall j | 0 <= j < |rows| && j != i ensures !Matches(lower, rows[j], where) {
      if i < j && Matches(lower, rows[j], where) { TallyTwo(lower, rows, where, i, j); }
    }
  }

  /** The bulk updates that keep unique values apart: those that set no unique column to a value,
      and those that meet at most one row and give it no value another row has. */
  ghost predicate BulkFits(unique: set<string>, lower: Lower, rows: seq<Row>, where: seq<Where>, update: Row) {
    var i := First(lower, rows, where);
    Keys(unique, update) == {} ||
        (Tally(lower, rows, where) <= 1 && (i < |rows| ==> !Shares(unique, rows[i] + update, rows, i)))
  }

  lemma UpdatedRowOk(unique: set<string>, row: Row, update: Row)
    requires RowOk(unique, row) && UpdateOk(unique, update)
    ensures RowOk(unique, row + update)
    ensures Keys(unique, update) <= Keys(unique, row + update)
    ensures Keys(unique, update) == {} ==> Keys(unique, row + update) <= Keys(unique, row)
  {
    forall k | k in Keys(unique, row + update) ensures k in Keys(unique, update) || k in Keys(unique, row) {
      if k.0 in update { assert (row + update)[k.0] == update[k.0]; }
    }
  }

  /** Rows that keep no more unique values than they had stay apart. */
  lemma FewerKeysOk(schema: Schema, model: string, rows: seq<Row>, rows': seq<Row>)
    requires TableOk(schema, model, rows) && |rows'| == |rows|
    requires forall i :: 0 <= i < |rows| ==>
              RowOk(Unique(schema, model), rows'[i]) &&
                  Keys(Unique(schema, model), rows'[i]) <= Keys(Unique(schema, model), rows[i])
    ensures TableOk(schema, model, rows')
  {
    var u := Unique(schema, model);
    forall i, j | 0 <= i < |rows'| && 0 <= j < |rows'| && i != j ensures !SharesKey(u, rows'[i], rows'[j]) {
      assert !SharesKey(u, rows[i], rows[j]);
    }
  }

  /** A fitting bulk update keeps unique values apart after each row it has come to. */
  lemma FittingStays(schema: Schema, model: string, lower: Lower, rows: seq<Row>, where: seq<Where>, update: Row,
      n: nat)
    requires TableOk(schema, model, rows) && UpdateOk(Unique(schema, model), update) && n <= |rows|
    requires BulkFits(Unique(schema, model), lower, rows, where, update)
    ensures TableOk(schema, model, AssignFirst(lower, rows, where, update, n))
  {
    var u, rows' := Unique(schema, model), AssignFirst(lower, rows, where, update, n);
    if Keys(u, update) == {} {
      forall i | 0 <= i < |rows| ensures RowOk(u, rows'[i]) && Keys(u, rows'[i]) <= Keys(u, rows[i]) {
        UpdatedRowOk(u, rows[i], update);
      }
      FewerKeysOk(schema, model, rows, rows');
    } else {
      var i := First(lower, rows, where);
      AtMostOneAssigned(lower, rows, where, update, n);
      if i < n {
        UpdatedRowOk(u, rows[i], update);
        ReplaceOk(schema, model, rows, i, rows[i] + update);
      }
    }
  }

  /** Exactly the fitting bulk updates keep unique values apart. */
  lemma BulkUpdateExactly(schema: Schema, model: string, lower: Lower, rows: seq<Row>, where: seq<Where>, update: Row)
    requires TableOk(schema, model, rows) && UpdateOk(Unique(schema, model), update)
    ensures TableOk(schema, model, Assign(lower, rows, where, update)) <==>
              BulkFits(Unique(schema, model), lower, rows, where, update)
  {
    var u, after := Unique(schema, model), Assign(lower, rows, where, update);
    assert AssignFirst(lower, rows, where, update, |rows|) == after;
    if BulkFits(u, lower, rows, where, update) {
      FittingStays(schema, model, lower, rows, where, update, |rows|);
    } else if Tally(lower, rows, where) >= 2 {
      var i, j := TwoCounted(lower, rows, where);
      var k :| k in Keys(u, update);
      UpdatedRowOk(u, rows[i], update);
      UpdatedRowOk(u, rows[j], update);
      assert k in Keys(u, after[i]) * Keys(u, after[j]);
      assert SharesKey(u, after[i], after[j]);
    } else {
      var i := First(lower, rows, where);
      AtMostOneAssigned(lower, rows, where, update, |rows|);
      UpdatedRowOk(u, rows[i], update);
      ReplaceOk(schema, model, rows, i, rows[i] + update);
    }
  }

  // ---- every operation ----

  /** Only a bulk update that goes ahead can break uniqueness. */
  ghost predicate Fits(schema: Schema, lower: Lower, db: Db, call: Call) {
    BulkGoesAhead(schema, call) ==>
        BulkFits(Unique(schema, call.model), lower, Rows(db, call.model), call.where, call.update)
  }

  predicate BulkGoesAhead(schema: Schema, call: Call) {
    && call.UpdateMany? && call.update != map[]
    && Known(schema, call.model, WhereFields(call.where)) && Known(schema, call.model, call.update.Keys)
  }

  lemma CreateKeeps(schema: Schema, lower: Lower, db: Db, call: Call)
    requires SchemaOk(schema) && DbOk(schema, db) && CallOk(schema, call) && call.Create?
    ensures DbOk(schema, Apply(schema, lower, db, call).0)
  {
    var m := call.model;
    var rows, row := Rows(db, m), Defaults(schema, m, call.data);
    if !Violates(schema, m, rows, row, -1) {
      CreatedFits(schema, db, m, row);
    }
  }

  lemma NotViolating(schema: Schema, model: string, rows: seq<Row>, row: Row, skip: int)
    requires !Violates(schema, model, rows, row, skip)
    ensures !Shares(Unique(schema, model), row, rows, skip)
  {
    forall i | 0 <= i < |rows| && i != skip ensures !SharesKey(Unique(schema, model), row, rows[i]) {
      assert !Conflict(schema, model, row, rows[i]);
    }
  }

  /** A row that violates nothing may be appended. */
  lemma CreatedFits(schema: Schema, db: Db, model: string, row: Row)
    requires DbOk(schema, db) && RowOk(Unique(schema, model), row) && !Violates(schema, model, Rows(db, model), row, -1)
    ensures !Shares(Unique(schema, model), row, Rows(db, model), -1)
    ensures DbOk(schema, db[model := Rows(db, model) + [row]])
  {
    assert TableOk(schema, model, Rows(db, model));
    NotViolating(schema, model, Rows(db, model), row, -1);
    AppendOk(schema, model, Rows(db, model), row);
    PutOk(schema, db, model, Rows(db, model) + [row]);
  }

  lemma UpdateKeeps(schema: Schema, lower: Lower, db: Db, call: Call)
    requires SchemaOk(schema) && DbOk(schema, db) && CallOk(schema, call) && call.Update?
    ensures DbOk(schema, Apply(schema, lower, db, call).0)
  {
    var m := call.model;
    var rows := Rows(db, m);
    var i := First(lower, rows, call.where);
    if i < |rows| && !Violates(schema, m, rows, rows[i] + call.update, i) {
      var row := rows[i] + call.update;
      assert TableOk(schema, m, rows);
      UpdatedRowOk(Unique(schema, m), rows[i], call.update);
      NotViolating(schema, m, rows, row, i);
      ReplaceOk(schema, m, rows, i, row);
      PutOk(schema, db, m, rows[i := row]);
    }
  }

  lemma UpdateManyKeeps(schema: Schema, lower: Lower, db: Db, call: Call)
    requires SchemaOk(schema) && DbOk(schema, db) && CallOk(schema, call) && call.UpdateMany?
    ensures DbOk(schema, Apply(schema, lower, db, call).0) <==> Fits(schema, lower, db, call)
  {
    var m := call.model;
    var rows := Rows(db, m);
    assert TableOk(schema, m, rows);
    BulkUpdateExactly(schema, m, lower, rows, call.where, call.update);
    assert m !in db ==> Assign(lower, rows, call.where, call.update) == [];
    PutOk(schema, db, m, Assign(lower, rows, call.where, call.update));
  }

  lemma DeleteKeeps(schema: Schema, lower: Lower, db: Db, call: Call)
    requires SchemaOk(schema) && DbOk(schema, db) && CallOk(schema, call) && call.Delete?
    ensures DbOk(schema, Apply(schema, lower, db, call).0)
  {
    var m := call.model;
    var rows := Rows(db, m);
    assert TableOk(schema, m, rows);
    var i := First(lower, rows, call.where);
    if i < |rows| {
      RemoveOk(schema, m, rows, i);
      PutOk(schema, db, m, rows[..i] + rows[i + 1..]);
    }
  }

  lemma DeleteManyKeeps(schema: Schema, lower: Lower, db: Db, call: Call)
    requires SchemaOk(schema) && DbOk(schema, db) && CallOk(schema, call) && call.DeleteMany?
    ensures DbOk(schema, Apply(schema, lower, db, call).0)
  {
    var m := call.model;
    var rows := Rows(db, m);
    assert TableOk(schema, m, rows);
    RejectOk(schema, m, lower, rows, call.where);
    PutOk(schema, db, m, Reject(lower, rows, call.where));
  }

  /** Every operation keeps rows typed and unique values apart, bulk updates exactly when they fit. */
  lemma ApplyKeepsDbOk(schema: Schema, lower: Lower, db: Db, call: Call)
    requires SchemaOk(schema) && DbOk(schema, db) && CallOk(schema, call)
    ensures DbOk(schema, Apply(schema, lower, db, call).0) <==> Fits(schema, lower, db, call)
  {
    match call
    case Create(_, _) => CreateKeeps(schema, lower, db, call);
    case Update(_, _, _) => UpdateKeeps(schema, lower, db, call);
    case UpdateMany(_, _, _) => UpdateManyKeeps(schema, lower, db, call);
    case Delete(_, _) => DeleteKeeps(schema, lower, db, call);
    case DeleteMany(_, _) => DeleteManyKeeps(schema, lower, db, call);
    case _ =>
  }
}
