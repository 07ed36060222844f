/** The UPDATE statement of storage/sqlstore/sqlstore.go: what an engine reads in it and does with
    it, row by row, against the update it was made from. */
module SqlUpdate {
  import opened Storage
  import opened SqlWhere
  import opened SqlMeaning
  import MemorySpec

  // ---- the statement ----

  datatype Statement = Statement(sets: seq<Token>, where: seq<Token>, args: seq<SqlVal>) | NothingToSet | Rejected

  /** The columns an update assigns, in table order. */
  function Assigned(table: seq<ColumnDef>, update: Row): seq<ColumnDef> {
    if table == [] then []
    else
      var n := |table| - 1;
      Assigned(table[..n], update) + (if table[n].name in update then [table[n]] else [])
  }

  /** "c1 = ?, c2 = ?", numbered from 1. */
  function SetList(cols: seq<ColumnDef>): (s: seq<Token>)
    ensures s == [] <==> cols == []
  {
    if cols == [] then []
    else
      var n := |cols| - 1;
      SetList(cols[..n]) + SetItem(cols[n].name, n == 0, n + 1)
  }

  function SetItem(name: string, first: bool, k: nat): seq<Token> {
    (if first then [] else [Comma]) + [Column(name), Rel(EqRel), Hole(k)]
  }

  function SetArgs(d: Dialect, cols: seq<ColumnDef>, update: Row): (r: seq<SqlVal>)
    ensures |r| == |cols|
  {
    seq(|cols|, i requires 0 <= i < |cols| => Encode(d, cols[i].ftype, Field(update, cols[i].name)))
  }

  lemma {:induction false} SetListHoles(cols: seq<ColumnDef>)
    ensures HolesIn(SetList(cols)) == Range(1, |cols|)
  {
    if cols != [] {
      var n := |cols| - 1;
      SetListHoles(cols[..n]);
      SetItemHoles(cols[n].name, n == 0, n + 1);
      HolesAppend(SetList(cols[..n]), SetItem(cols[n].name, n == 0, n + 1));
      RangeSplit(1, n, 1);
    }
  }

  lemma SetItemHoles(name: string, first: bool, k: nat)
    ensures HolesIn(SetItem(name, first, k)) == Range(k, 1)
  {
    var lead := if first then [Column(name), Rel(EqRel)] else [Comma, Column(name), Rel(EqRel)];
    OneHole(lead, k, []);
    assert SetItem(name, first, k) == lead + [Hole(k)] + [];
  }

  lemma SetNext(cols: seq<ColumnDef>, more: seq<ColumnDef>, f: ColumnDef)
    requires more == cols + [f]
    ensures SetList(more) == SetList(cols) + SetItem(f.name, cols == [], |cols| + 1)
  {
    var n := |more| - 1;
    assert more[..n] == cols && more[n] == f;
    assert SetList(more) == SetList(more[..n]) + SetItem(more[n].name, n == 0, n + 1);
  }

  lemma SetArgsNext(d: Dialect, cols: seq<ColumnDef>, f: ColumnDef, update: Row)
    ensures SetArgs(d, cols + [f], update) == SetArgs(d, cols, update) + [Encode(d, f.ftype, Field(update, f.name))]
  {
  }

  function UpdateStatement(d: Dialect, table: seq<ColumnDef>, where: seq<Where>, update: Row): Statement {
    var cols := Assigned(table, update);
    if exists f :: f in update && ColumnType(table, f).None? then Rejected
    else if cols == [] then NothingToSet
    else
      var w := Render(d, table, where, |cols| + 1);
      if !w.Output? then Rejected else Statement(SetList(cols), w.tokens, SetArgs(d, cols, update) + w.args)
  }

  // ---- what is assigned ----

  /** No column is declared twice. */
  predicate Distinct(cols: seq<ColumnDef>) {
    forall i, j :: 0 <= i < j < |cols| ==> cols[i].name != cols[j].name
  }

  predicate Names(cols: seq<ColumnDef>, f: string) {
    exists i :: 0 <= i < |cols| && cols[i].name == f
  }

  lemma {:induction false} TypedByName(table: seq<ColumnDef>, f: string)
    ensures ColumnType(table, f).Some? <==> Names(table, f)
    ensures Distinct(table) ==>
              forall i :: 0 <= i < |table| && table[i].name == f ==> ColumnType(table, f) == Some(table[i].ftype)
  {
    if table != [] {
      TypedByName(table[1..], f);
      if Names(table[1..], f) {
        var i :| 0 <= i < |table[1..]| && table[1..][i].name == f;
        assert table[i + 1].name == f;
      }
      forall i | 0 < i < |table| ensures table[i] == table[1..][i - 1] {}
    }
  }

  lemma {:induction false} AssignedIs(table: seq<ColumnDef>, update: Row)
    ensures forall f :: Names(Assigned(table, update), f) <==> f in update && Names(table, f)
    ensures forall c :: c in Assigned(table, update) ==> c in table
    ensures Distinct(table) ==> Distinct(Assigned(table, update))
  {
    if table != [] {
      var n := |table| - 1;
      var front, last := Assigned(table[..n], update), table[n];
      AssignedIs(table[..n], update);
      assert Assigned(table, update) == if last.name in update then front + [last] else front;
      forall f ensures Names(Assigned(table, update), f) <==> f in update && Names(table, f) {
        NamesLast(table, f);
        if last.name in update {
          NamesLast(front + [last], f);
          assert (front + [last])[..|front|] == front;
        }
      }
      if Distinct(table) && last.name in update {
        forall i | 0 <= i < |front| ensures front[i].name != last.name {
          assert front[i] in table[..n];
        }
      }
    }
  }

  lemma NamesLast(cols: seq<ColumnDef>, f: string)
    requires cols != []
    ensures Names(cols, f) <==> Names(cols[..|cols| - 1], f) || cols[|cols| - 1].name == f
  {
    var n := |cols| - 1;
    if Names(cols[..n], f) {
      var i :| 0 <= i < n && cols[..n][i].name == f;
      assert cols[i].name == f;
    }
    if i :| 0 <= i < n && cols[i].name == f { assert cols[..n][i].name == f; }
  }

  lemma NothingAssigned(table: seq<ColumnDef>, update: Row)
    requires forall f :: f in update ==> ColumnType(table, f).Some?
    ensures Assigned(table, update) == [] <==> update == map[]
  {
    AssignedIs(table, update);
    var cols := Assigned(table, update);
    if cols != [] { assert Names(cols, cols[0].name); }
    if update != map[] {
      var f :| f in update;
      TypedByName(table, f);
      assert Names(cols, f);
    }
  }

  /** There is a statement exactly when every column and operator is declared and something is set. */
  lemma StatementExactly(d: Dialect, table: seq<ColumnDef>, where: seq<Where>, update: Row)
    ensures var st := UpdateStatement(d, table, where, update);
            && (st.Statement? <==>
                  && update != map[] && (forall f :: f in update ==> ColumnType(table, f).Some?)
                  && forall i :: 0 <= i < |where| ==> Compiles(table, where[i]))
            && (st.NothingToSet? <==> update == map[])
  {
    RenderSucceeds(d, table, where, |Assigned(table, update)| + 1);
    if forall f :: f in update ==> ColumnType(table, f).Some? { NothingAssigned(table, update); }
  }

  /** Its k-th placeholder is number k, so that it binds the k-th argument whether an engine counts
      placeholders or reads their numbers. */
  lemma StatementHoles(d: Dialect, table: seq<ColumnDef>, where: seq<Where>, update: Row)
    requires UpdateStatement(d, table, where, update).Statement?
    ensures var st := UpdateStatement(d, table, where, update); HolesIn(st.sets + st.where) == Range(1, |st.args|)
  {
    var cols := Assigned(table, update);
    var w := Render(d, table, where, |cols| + 1);
    RenderArity(d, table, where, |cols| + 1);
    RenderHoles(d, table, where, |cols| + 1);
    SetListHoles(cols);
    HolesAppend(SetList(cols), w.tokens);
    RangeSplit(1, |cols|, |w.args|);
  }

  // ---- the engine's side ----

  /** "c1 = ?, c2 = ?, ...": the columns and the numbers of their arguments. */
  function ParseSets(ts: seq<Token>): Option<seq<(string, nat)>> {
    if |ts| < 3 || !ts[0].Column? || ts[1] != Rel(EqRel) || !ts[2].Hole? then None
    else if |ts| == 3 then Some([(ts[0].name, ts[2].index)])
    else if ts[3] != Comma then None
    else
      match ParseSets(ts[4..])
      case None => None
      case Some(more) => Some([(ts[0].name, ts[2].index)] + more)
  }

  function SetAll(sets: seq<(string, nat)>, args: seq<SqlVal>, srow: SqlRow): SqlRow {
    if sets == [] then srow
    else
      var (name, k) := sets[|sets| - 1];
      SetAll(sets[..|sets| - 1], args, srow)[name := Arg(args, k)]
  }

  /** Without a condition every row is met; with one, those on which it is true. */
  function Met(lower: Lower, st: Statement, srow: SqlRow): bool
    requires st.Statement?
  {
    st.where == [] ||
    match ParseOr(st.where)
    case Some((e, rest)) => rest == [] && Eval(lower, e, srow, st.args) == True
    case None => false
  }

  /** A row of the table after the statement. */
  function Executed(lower: Lower, st: Statement, srow: SqlRow): SqlRow
    requires st.Statement?
  {
    match ParseSets(st.sets)
    case None => srow
    case Some(sets) => if Met(lower, st, srow) then SetAll(sets, st.args, srow) else srow
  }

  // ---- reading the SET list back ----

  function SetPairs(cols: seq<ColumnDef>): seq<(string, nat)> {
    seq(|cols|, i requires 0 <= i < |cols| => (cols[i].name, i + 1))
  }

  lemma {:induction false} ParseOneMore(ts: seq<Token>, sets: seq<(string, nat)>, name: string, k: nat)
    requires ParseSets(ts) == Some(sets)
    ensures ParseSets(ts + [Comma, Column(name), Rel(EqRel), Hole(k)]) == Some(sets + [(name, k)])
    decreases |ts|
  {
    var item := [Comma, Column(name), Rel(EqRel), Hole(k)];
    var all := ts + item;
    if |ts| == 3 {
      assert all[4..] == item[1..];
    } else {
      var more := ParseSets(ts[4..]).value;
      ParseOneMore(ts[4..], more, name, k);
      assert all[4..] == ts[4..] + item && |all| > 4;
      assert [(ts[0].name, ts[2].index)] + (more + [(name, k)]) == sets + [(name, k)];
    }
  }

  lemma SetItemIs(name: string, k: nat)
    ensures var item := [Column(name), Rel(EqRel), Hole(k)];
            && SetItem(name, true, k) == item && ParseSets(item) == Some([(name, k)])
            && SetItem(name, false, k) == [Comma, Column(name), Rel(EqRel), Hole(k)]
  {
  }

  lemma SetPairsNext(cols: seq<ColumnDef>)
    requires cols != []
    ensures SetPairs(cols) == SetPairs(cols[..|cols| - 1]) + [(cols[|cols| - 1].name, |cols|)]
  {
  }

  lemma {:induction false} SetsReadBack(cols: seq<ColumnDef>)
    requires cols != []
    ensures ParseSets(SetList(cols)) == Some(SetPairs(cols))
  {
    var n := |cols| - 1;
    var front, name := cols[..n], cols[n].name;
    SetNext(front, cols, cols[n]);
    SetItemIs(name, n + 1);
    SetPairsNext(cols);
    if n == 0 {
      assert SetList(front) == [] && SetPairs(front) == [];
      assert [] + SetItem(name, true, 1) == SetItem(name, true, 1) && [] + [(name, 1)] == [(name, 1)];
    } else {
      SetsReadBack(front);
      ParseOneMore(SetList(front), SetPairs(front), name, n + 1);
    }
  }

  /** After the assignments each column named holds its argument, and no other column has changed. */
  lemma {:induction false} SetAllIs(cols: seq<ColumnDef>, args: seq<SqlVal>, srow: SqlRow)
    requires Distinct(cols)
    ensures var after := SetAll(SetPairs(cols), args, srow);
            && (forall i :: 0 <= i < |cols| ==> Cell(after, cols[i].name) == Arg(args, i + 1))
            && (forall f :: !Names(cols, f) ==> Cell(after, f) == Cell(srow, f))
  {
    if cols != [] {
      var n := |cols| - 1;
      SetAllIs(cols[..n], args, srow);
      assert SetPairs(cols)[..n] == SetPairs(cols[..n]);
      forall f | !Names(cols, f) ensures !Names(cols[..n], f) && f != cols[n].name {
        NamesLast(cols, f);
      }
    }
  }

  // ---- the meaning of the statement ----

  /** Values of the columns' types, or nil. */
  predicate Storable(d: Dialect, table: seq<ColumnDef>, update: Row) {
    forall f :: f in update && ColumnType(table, f).Some? ==>
        update[f].Nil? || Typed(d, ColumnType(table, f).value, update[f])
  }

  lemma BindsSuffix(front: seq<SqlVal>, more: seq<SqlVal>)
    ensures Binds(front + more, |front| + 1, more)
    ensures forall i :: 0 <= i < |front| ==> Arg(front + more, i + 1) == front[i]
  {
    forall k | 0 <= k < |more| ensures Arg(front + more, |front| + 1 + k) == more[k] {
      assert (front + more)[|front| + k] == more[k];
    }
  }

  lemma EveryRowMet(lower: Lower, st: Statement, srow: SqlRow)
    requires st.Statement? && st.where == []
    ensures Met(lower, st, srow)
  {
  }

  lemma ReadMeets(lower: Lower, st: Statement, srow: SqlRow, e: Expr)
    requires st.Statement? && ParseOr(st.where) == Some((e, []))
    ensures Met(lower, st, srow) <==> Eval(lower, e, srow, st.args) == True
  {
    assert ParseOr([]) == None;
  }

  /** The rows met are those that Matches accepts. */
  lemma MetExactly(d: Dialect, table: seq<ColumnDef>, row: Row, srow: SqlRow, where: seq<Where>, update: Row)
    requires UpdateStatement(d, table, where, update).Statement?
    requires DialectOk(d) && Stores(d, table, row, srow) && Comparable(d, table, row, where)
    ensures Met(d.engineLower, UpdateStatement(d, table, where, update), srow) <==> Matches(d.lower, row, where)
  {
    var cols := Assigned(table, update);
    var start := |cols| + 1;
    var st := UpdateStatement(d, table, where, update);
    BindsSuffix(SetArgs(d, cols, update), Render(d, table, where, start).args);
    if where == [] {
      EveryRowMet(d.engineLower, st, srow);
    } else {
      WhereMeaning(d, table, row, srow, where, start, st.args);
      ReadMeets(d.engineLower, st, srow, Folded(where, start));
    }
  }

  /** A row met has the update's values in the columns it names, encoded, and every other column as it was. */
  lemma SetsExactly(d: Dialect, table: seq<ColumnDef>, srow: SqlRow, where: seq<Where>, update: Row)
    requires UpdateStatement(d, table, where, update).Statement? && Distinct(table)
    ensures var st := UpdateStatement(d, table, where, update);
            var after := Executed(d.engineLower, st, srow);
            if Met(d.engineLower, st, srow) then
              && (forall f :: f in update ==> Cell(after, f) == Encode(d, ColumnType(table, f).value, update[f]))
              && (forall f :: f !in update ==> Cell(after, f) == Cell(srow, f))
            else after == srow
  {
    var cols := Assigned(table, update);
    var st := UpdateStatement(d, table, where, update);
    var w := Render(d, table, where, |cols| + 1);
    AssignedIs(table, update);
    SetsReadBack(cols);
    BindsSuffix(SetArgs(d, cols, update), w.args);
    SetAllIs(cols, st.args, srow);
    forall f | f in update
      ensures Cell(SetAll(SetPairs(cols), st.args, srow), f) == Encode(d, ColumnType(table, f).value, update[f])
    {
      TypedByName(table, f);
      assert Names(cols, f);
      var i :| 0 <= i < |cols| && cols[i].name == f;
      assert cols[i] in table;
      assert Arg(st.args, i + 1) == SetArgs(d, cols, update)[i];
    }
  }

  /** One row before and after the statement: it stores the row the update makes of it. */
  lemma UpdateMeaning(d: Dialect, table: seq<ColumnDef>, row: Row, srow: SqlRow, where: seq<Where>, update: Row)
    requires UpdateStatement(d, table, where, update).Statement? && Distinct(table) && Storable(d, table, update)
    requires DialectOk(d) && Stores(d, table, row, srow) && Comparable(d, table, row, where)
    ensures var after := Executed(d.engineLower, UpdateStatement(d, table, where, update), srow);
            && Stores(d, table, if Matches(d.lower, row, where) then row + update else row, after)
            && forall f :: f !in update ==> Cell(after, f) == Cell(srow, f)
  {
    MetExactly(d, table, row, srow, where, update);
    SetsExactly(d, table, srow, where, update);
    if Matches(d.lower, row, where) {
      var after := Executed(d.engineLower, UpdateStatement(d, table, where, update), srow);
      forall f | ColumnType(table, f).Some?
        ensures StoresColumn(d, ColumnType(table, f).value, Field(row + update, f), Cell(after, f))
      {
        assert StoresColumn(d, ColumnType(table, f).value, Field(row, f), Cell(srow, f));
      }
    }
  }

  /** The whole table: SQL leaves stored what the in-memory adapter's bulk update leaves. */
  lemma AdaptersAgree(d: Dialect, table: seq<ColumnDef>, rows: seq<Row>, srows: seq<SqlRow>, where: seq<Where>,
      update: Row, i: nat)
    requires UpdateStatement(d, table, where, update).Statement? && Distinct(table) && Storable(d, table, update)
    requires DialectOk(d) && i < |rows| == |srows| && Stores(d, table, rows[i], srows[i])
    requires Comparable(d, table, rows[i], where)
    ensures Stores(d, table, MemorySpec.Assign(d.lower, rows, where, update)[i],
              Executed(d.engineLower, UpdateStatement(d, table, where, update), srows[i]))
  {
    UpdateMeaning(d, table, rows[i], srows[i], where, update);
  }
}
