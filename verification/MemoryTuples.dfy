/** Composite unique constraints of the in-memory adapter. No index stands behind them: they
    are checked by a scan on Create and Update, and not at all by a bulk update. */
module MemoryTuples {
  import opened Storage
  import opened MemorySpec

  /** No two rows share a complete tuple of a composite constraint. */
  ghost predicate TuplesOk(schema: Schema, model: string, rows: seq<Row>) {
    forall i, j {:trigger Collide(Constraints(schema, model), rows[i], rows[j])} ::
      0 <= i < |rows| && 0 <= j < |rows| && i != j ==> !Collide(Constraints(schema, model), rows[i], rows[j])
  }

  ghost predicate DbTuplesOk(schema: Schema, db: Db) {
    forall m :: m in db ==> TuplesOk(schema, m, db[m])
  }

  lemma CollideSymmetric(constraints: seq<seq<string>>, a: Row, b: Row)
    requires Collide(constraints, a, b)
    ensures Collide(constraints, b, a)
  {
    var c :| 0 <= c < |constraints| && CollideOn(constraints[c], a, b);
    forall i | 0 <= i < |constraints[c]| ensures constraints[c][i] in b && b[constraints[c][i]] != Nil {
      assert Field(a, constraints[c][i]) == Field(b, constraints[c][i]);
    }
    assert CollideOn(constraints[c], b, a);
  }

  lemma PutTuplesOk(schema: Schema, db: Db, model: string, rows: seq<Row>)
    requires DbTuplesOk(schema, db)
    ensures DbTuplesOk(schema, db[model := rows]) <==> TuplesOk(schema, model, rows)
  {
    if DbTuplesOk(schema, db[model := rows]) { assert model in db[model := rows]; }
  }

  lemma AppendTuplesOk(schema: Schema, model: string, rows: seq<Row>, row: Row)
    requires TuplesOk(schema, model, rows) && !Violates(schema, model, rows, row, -1)
    ensures TuplesOk(schema, model, rows + [row])
  {
    var cs, rows' := Constraints(schema, model), rows + [row];
    forall i, j | 0 <= i < |rows'| && 0 <= j < |rows'| && i != j ensures !Collide(cs, rows'[i], rows'[j]) {
      if i == |rows| { assert rows'[j] == rows[j] && !Conflict(schema, model, row, rows[j]); }
      if j == |rows| {
        assert !Conflict(schema, model, row, rows[i]);
        if Collide(cs, rows[i], row) { CollideSymmetric(cs, rows[i], row); }
      }
    }
  }

  lemma ReplaceTuplesOk(schema: Schema, model: string, rows: seq<Row>, n: nat, row: Row)
    requires TuplesOk(schema, model, rows) && n < |rows| && !Violates(schema, model, rows, row, n)
    ensures TuplesOk(schema, model, rows[n := row])
  {
    var cs, rows' := Constraints(schema, model), rows[n := row];
    forall i, j | 0 <= i < |rows'| && 0 <= j < |rows'| && i != j ensures !Collide(cs, rows'[i], rows'[j]) {
      if i == n { assert !Conflict(schema, model, row, rows[j]); }
      if j == n {
        assert !Conflict(schema, model, row, rows[i]);
        if Collide(cs, rows[i], row) { CollideSymmetric(cs, rows[i], row); }
      }
    }
  }

  /** Any selection of rows, each taken once, keeps tuples apart. */
  lemma RemoveTuplesOk(schema: Schema, model: string, rows: seq<Row>, n: nat)
    requires TuplesOk(schema, model, rows) && n < |rows|
    ensures TuplesOk(schema, model, rows[..n] + rows[n + 1..])
  {
    var cs, rows' := Constraints(schema, model), rows[..n] + rows[n + 1..];
    forall i | 0 <= i < |rows'| ensures rows'[i] == rows[if i < n then i else i + 1] {}
    forall i, j | 0 <= i < |rows'| && 0 <= j < |rows'| && i != j ensures !Collide(cs, rows'[i], rows'[j]) {
      assert rows'[i] == rows[if i < n then i else i + 1] && rows'[j] == rows[if j < n then j else j + 1];
    }
  }

  lemma {:induction false} RejectTuplesOk(schema: Schema, model: string, lower: Lower, rows: seq<Row>,
      where: seq<Where>)
    requires TuplesOk(schema, model, rows)
    ensures TuplesOk(schema, model, Reject(lower, rows, where))
  {
    if rows != [] {
      var cs, n := Constraints(schema, model), |rows| - 1;
      var init := rows[..n];
      var kept := Reject(lower, init, where);
      RejectTuplesOk(schema, model, lower, init, where);
      RejectFrom(lower, init, where);
      if !Matches(lower, rows[n], where) {
        var rows' := kept + [rows[n]];
        forall k | 0 <= k < |kept| ensures !Collide(cs, rows[n], kept[k]) && !Collide(cs, kept[k], rows[n]) {
          assert kept[k] in init;
        }
        forall i, j | 0 <= i < |rows'| && 0 <= j < |rows'| && i != j ensures !Collide(cs, rows'[i], rows'[j]) {}
      }
    }
  }

  // ---- bulk updates ----

  /** On the columns the update leaves alone: row fills them all, and other agrees. */
  predicate AgreeBeside(columns: seq<string>, update: Row, row: Row, other: Row) {
    forall i {:trigger columns[i]} :: 0 <= i < |columns| && columns[i] !in update ==>
      columns[i] in row && row[columns[i]] != Nil && Field(other, columns[i]) == row[columns[i]]
  }

  /** On the columns the update sets: none to nil, and other already holds the value, or is set to it too. */
  predicate SetAlike(columns: seq<string>, update: Row, other: Row, otherToo: bool) {
    forall i {:trigger columns[i]} :: 0 <= i < |columns| && columns[i] in update ==>
      update[columns[i]] != Nil && (otherToo || Field(other, columns[i]) == update[columns[i]])
  }

  /** The bulk updates that keep tuples apart: no row they meet comes to agree with another row on
      a constraint, where the other row is met too or already holds what is set. */
  ghost predicate TuplesFit(constraints: seq<seq<string>>, lower: Lower, rows: seq<Row>, where: seq<Where>,
      update: Row) {
    forall c, i, j {:trigger constraints[c], rows[i], rows[j]} ::
      0 <= c < |constraints| && 0 <= i < |rows| && 0 <= j < |rows| && i != j && Matches(lower, rows[i], where) ==>
        !(AgreeBeside(constraints[c], update, rows[i], rows[j]) &&
            SetAlike(constraints[c], update, rows[j], Matches(lower, rows[j], where)))
  }

  /** A row met collides with another row afterwards exactly when the two agree so. */
  lemma CollideAfter(columns: seq<string>, update: Row, row: Row, other: Row, otherToo: bool)
    ensures CollideOn(columns, row + update, if otherToo then other + update else other) <==>
              AgreeBeside(columns, update, row, other) && SetAlike(columns, update, other, otherToo)
  {
    var a, b := row + update, if otherToo then other + update else other;
    forall i | 0 <= i < |columns|
      ensures (columns[i] in a && a[columns[i]] != Nil && Field(a, columns[i]) == Field(b, columns[i])) <==>
                if columns[i] in update then
                    update[columns[i]] != Nil && (otherToo || Field(other, columns[i]) == update[columns[i]])
                else columns[i] in row && row[columns[i]] != Nil && Field(other, columns[i]) == row[columns[i]]
    {
    }
  }

  /** Exactly those bulk updates keep tuples apart. */
  lemma BulkTuplesExactly(schema: Schema, model: string, lower: Lower, rows: seq<Row>, where: seq<Where>, update: Row)
    requires TuplesOk(schema, model, rows)
    ensures TuplesOk(schema, model, Assign(lower, rows, where, update)) <==>
              TuplesFit(Constraints(schema, model), lower, rows, where, update)
  {
    var cs, after := Constraints(schema, model), Assign(lower, rows, where, update);
    if TuplesFit(cs, lower, rows, where, update) {
      forall i, j | 0 <= i < |rows| && 0 <= j < |rows| && i != j ensures !Collide(cs, after[i], after[j]) {
        StillApart(cs, lower, rows, where, update, i, j);
      }
    }
    if TuplesOk(schema, model, after) {
      forall c, i, j | 0 <= c < |cs| && 0 <= i < |rows| && 0 <= j < |rows| && i != j && Matches(lower, rows[i], where)
        ensures !(AgreeBeside(cs[c], update, rows[i], rows[j]) &&
                  SetAlike(cs[c], update, rows[j], Matches(lower, rows[j], where)))
      {
        CollideAfter(cs[c], update, rows[i], rows[j], Matches(lower, rows[j], where));
        assert !Collide(cs, after[i], after[j]);
      }
    }
  }

  lemma StillApart(cs: seq<seq<string>>, lower: Lower, rows: seq<Row>, where: seq<Where>, update: Row, i: nat, j: nat)
    requires TuplesFit(cs, lower, rows, where, update) && i < |rows| && j < |rows| && i != j
    requires !Collide(cs, rows[i], rows[j])
    ensures !Collide(cs, Assign(lower, rows, where, update)[i], Assign(lower, rows, where, update)[j])
  {
    var after := Assign(lower, rows, where, update);
    if Matches(lower, rows[i], where) {
      forall c | 0 <= c < |cs| ensures !CollideOn(cs[c], after[i], after[j]) {
        CollideAfter(cs[c], update, rows[i], rows[j], Matches(lower, rows[j], where));
      }
    } else if Matches(lower, rows[j], where) {
      forall c | 0 <= c < |cs| ensures !CollideOn(cs[c], after[j], after[i]) {
        CollideAfter(cs[c], update, rows[j], rows[i], false);
      }
      if Collide(cs, after[i], after[j]) { CollideSymmetric(cs, after[i], after[j]); }
    }
  }

  // ---- every operation ----

  ghost predicate TuplesFitCall(schema: Schema, lower: Lower, db: Db, call: Call) {
    BulkGoesAhead(schema, call) ==>
        TuplesFit(Constraints(schema, call.model), lower, Rows(db, call.model), call.where, call.update)
  }

  /** Every operation keeps composite tuples apart, bulk updates exactly when they fit. */
  lemma ApplyKeepsTuples(schema: Schema, lower: Lower, db: Db, call: Call)
    requires DbTuplesOk(schema, db)
    ensures DbTuplesOk(schema, Apply(schema, lower, db, call).0) <==> TuplesFitCall(schema, lower, db, call)
  {
    var m := call.model;
    var rows := Rows(db, m);
    assert TuplesOk(schema, m, rows);
    match call
    case Create(_, data) => CreateTuples(schema, lower, db, call);
    case Update(_, where, update) => UpdateTuples(schema, lower, db, call);
    case UpdateMany(_, where, update) =>
      BulkTuplesExactly(schema, m, lower, rows, where, update);
      PutTuplesOk(schema, db, m, Assign(lower, rows, where, update));
    case Delete(_, where) => DeleteTuples(schema, lower, db, call);
    case DeleteMany(_, where) =>
      RejectTuplesOk(schema, m, lower, rows, where);
      PutTuplesOk(schema, db, m, Reject(lower, rows, where));
    case _ =>
  }

  lemma CreateTuples(schema: Schema, lower: Lower, db: Db, call: Call)
    requires DbTuplesOk(schema, db) && call.Create?
    ensures DbTuplesOk(schema, Apply(schema, lower, db, call).0)
  {
    var m := call.model;
    var rows, row := Rows(db, m), Defaults(schema, m, call.data);
    if !Violates(schema, m, rows, row, -1) {
      AppendTuplesOk(schema, m, rows, row);
      PutTuplesOk(schema, db, m, rows + [row]);
    }
  }

  lemma UpdateTuples(schema: Schema, lower: Lower, db: Db, call: Call)
    requires DbTuplesOk(schema, db) && call.Update?
    ensures DbTuplesOk(schema, Apply(schema, lower, db, call).0)
  {
    var m := call.model;
    var rows := Rows(db, m);
    var i := First(lower, rows, call.where);
    if i < |rows| && !Violates(schema, m, rows, rows[i] + call.update, i) {
      ReplaceTuplesOk(schema, m, rows, i, rows[i] + call.update);
      PutTuplesOk(schema, db, m, rows[i := rows[i] + call.update]);
    }
  }

  lemma DeleteTuples(schema: Schema, lower: Lower, db: Db, call: Call)
    requires DbTuplesOk(schema, db) && call.Delete?
    ensures DbTuplesOk(schema, Apply(schema, lower, db, call).0)
  {
    var m := call.model;
    var rows := Rows(db, m);
    var i := First(lower, rows, call.where);
    if i < |rows| {
      RemoveTuplesOk(schema, m, rows, i);
      PutTuplesOk(schema, db, m, rows[..i] + rows[i + 1..]);
    }
  }
}
