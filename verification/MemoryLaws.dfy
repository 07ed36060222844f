/** What the operations of the in-memory adapter do, said of the rows before and after: which
    rows are there, in which order, and what each holds; and what one operation leaves for the next. */
module MemoryLaws {
  import opened Storage
  import opened MemorySpec

  // ---- one operation ----

  /** Every other table is as it was. */
  ghost predicate OthersKept(before: Db, after: Db, model: string) {
    forall m :: m != model ==> Rows(after, m) == Rows(before, m)
  }

  predicate NoneMatch(lower: Lower, rows: seq<Row>, where: seq<Where>) {
    forall i :: 0 <= i < |rows| ==> !Matches(lower, rows[i], where)
  }

  /** Row n is the first that matches. */
  predicate FirstMatch(lower: Lower, rows: seq<Row>, where: seq<Where>, n: nat) {
    n < |rows| && Matches(lower, rows[n], where) && forall i :: 0 <= i < n ==> !Matches(lower, rows[i], where)
  }

  /** Exactly row n is missing; the others keep their order. */
  predicate Missing(before: seq<Row>, after: seq<Row>, n: nat) {
    && n < |before| && |after| == |before| - 1
    && (forall i :: 0 <= i < n ==> after[i] == before[i])
    && (forall i :: n <= i < |after| ==> after[i] == before[i + 1])
  }

  /** Exactly row n is another. */
  predicate Changed(before: seq<Row>, after: seq<Row>, n: nat, row: Row) {
    n < |before| && |after| == |before| && after[n] == row &&
        forall i :: 0 <= i < |before| && i != n ==> after[i] == before[i]
  }

  /** The columns named by the update hold its values, the others what they held. */
  ghost predicate Merged(before: Row, update: Row, after: Row) {
    forall f :: Field(after, f) == if f in update then update[f] else Field(before, f)
  }

  /** The rows left are those at these positions, in order: all that do not match. */
  predicate Survivors(lower: Lower, before: seq<Row>, where: seq<Where>, after: seq<Row>, at: seq<nat>) {
    && |at| == |after| && (forall i, j :: 0 <= i < j < |at| ==> at[i] < at[j])
    && (forall i :: 0 <= i < |at| ==>
         at[i] < |before| && after[i] == before[at[i]] && !Matches(lower, before[at[i]], where))
    && (forall i :: 0 <= i < |before| && !Matches(lower, before[i], where) ==> i in at)
  }

  function Matching(lower: Lower, rows: seq<Row>, where: seq<Where>): set<nat> {
    set i | 0 <= i < |rows| && Matches(lower, rows[i], where)
  }

  /** What is supplied is kept; a declared default fills a column that is not, and nothing else does. */
  ghost predicate Filled(fields: seq<FieldDef>, data: Row, row: Row) {
    && (forall f :: f in data ==> f in row && row[f] == data[f])
    && (forall f :: f in row && f !in data ==> exists i :: FirstDefault(fields, f, i) && row[f] == fields[i].default)
    && (forall i :: 0 <= i < |fields| && fields[i].default != Nil ==> fields[i].name in row)
  }

  predicate FirstDefault(fields: seq<FieldDef>, f: string, i: int) {
    && 0 <= i < |fields| && fields[i].name == f && fields[i].default != Nil
    && forall j :: 0 <= j < i ==> fields[j].name != f || fields[j].default == Nil
  }

  function FieldsOf(schema: Schema, model: string): seq<FieldDef> {
    if model in schema then schema[model].fields else []
  }

  /** A row is appended with its defaults, unless it would conflict with one that is there. */
  ghost predicate Creates(schema: Schema, before: Db, model: string, data: Row, after: Db, out: Outcome) {
    if !Known(schema, model, data.Keys) then out == UnknownField && after == before
    else if out.Found? then
      && Filled(FieldsOf(schema, model), data, out.row) && Rows(after, model) == Rows(before, model) + [out.row]
      && (forall i :: 0 <= i < |Rows(before, model)| ==> !Conflict(schema, model, out.row, Rows(before, model)[i]))
      && OthersKept(before, after, model)
    else
      && out == UniqueViolation && after == before
      && exists row, i :: Filled(FieldsOf(schema, model), data, row) && 0 <= i < |Rows(before, model)| &&
           Conflict(schema, model, row, Rows(before, model)[i])
  }

  ghost predicate Finds(schema: Schema, lower: Lower, before: Db, model: string, where: seq<Where>, out: Outcome) {
    if !Known(schema, model, WhereFields(where)) then out == UnknownField
    else if out.Found? then
        exists n: nat :: FirstMatch(lower, Rows(before, model), where, n) && out.row == Rows(before, model)[n]
    else out == NotFound && NoneMatch(lower, Rows(before, model), where)
  }

  ghost predicate Counts(schema: Schema, lower: Lower, before: Db, model: string, where: seq<Where>, out: Outcome) {
    out == if Known(schema, model, WhereFields(where)) then Affected(|Matching(lower, Rows(before, model), where)|)
           else UnknownField
  }

  predicate ConflictsBeside(schema: Schema, model: string, rows: seq<Row>, n: nat, row: Row) {
    exists i :: 0 <= i < |rows| && i != n && Conflict(schema, model, row, rows[i])
  }

  /** The first matching row, number n, becomes row, unless row would then conflict with another. */
  ghost predicate UpdatesTo(schema: Schema, before: Db, model: string, n: nat, row: Row, after: Db, out: Outcome) {
    if ConflictsBeside(schema, model, Rows(before, model), n, row) then out == UniqueViolation && after == before
    else
      && out == Found(row) && Changed(Rows(before, model), Rows(after, model), n, row)
      && OthersKept(before, after, model)
  }

  ghost predicate Updates(schema: Schema, lower: Lower, before: Db, model: string, where: seq<Where>, update: Row,
                          after: Db, out: Outcome) {
    var rows := Rows(before, model);
    if !Known(schema, model, WhereFields(where)) || !Known(schema, model, update.Keys) then
      out == UnknownField && after == before
    else if NoneMatch(lower, rows, where) then out == NotFound && after == before
    else
      exists n: nat, row ::
        FirstMatch(lower, rows, where, n) && Merged(rows[n], update, row) &&
            UpdatesTo(schema, before, model, n, row, after, out)
  }

  /** Every matching row is merged with the update, whatever conflicts that makes. */
  ghost predicate UpdatesAll(schema: Schema, lower: Lower, before: Db, model: string, where: seq<Where>, update: Row,
                             after: Db, out: Outcome) {
    var rows, rows' := Rows(before, model), Rows(after, model);
    if update == map[] then out == Affected(0) && after == before
    else if !Known(schema, model, WhereFields(where)) || !Known(schema, model, update.Keys) then
      out == UnknownField && after == before
    else
      && out == Affected(|Matching(lower, rows, where)|) && |rows'| == |rows| && OthersKept(before, after, model)
      && forall i :: 0 <= i < |rows| ==> if Matches(lower, rows[i], where) then Merged(rows[i], update, rows'[i])
           else rows'[i] == rows[i]
  }

  /** The first matching row goes, if there is one. */
  ghost predicate Deletes(schema: Schema, lower: Lower, before: Db, model: string, where: seq<Where>, after: Db,
                          out: Outcome) {
    var rows := Rows(before, model);
    if !Known(schema, model, WhereFields(where)) then out == UnknownField && after == before
    else if NoneMatch(lower, rows, where) then out == Done && after == before
    else
      && out == Done && OthersKept(before, after, model)
      && exists n: nat :: FirstMatch(lower, rows, where, n) && Missing(rows, Rows(after, model), n)
  }

  /** All matching rows go, and no others. */
  ghost predicate DeletesAll(schema: Schema, lower: Lower, before: Db, model: string, where: seq<Where>, after: Db,
                             out: Outcome) {
    var rows := Rows(before, model);
    if !Known(schema, model, WhereFields(where)) then out == UnknownField && after == before
    else
      && out == Affected(|Matching(lower, rows, where)|) && OthersKept(before, after, model)
      && exists at :: Survivors(lower, rows, where, Rows(after, model), at)
  }

  // ---- the operations do that ----

  lemma {:induction false} TallyIsSize(lower: Lower, rows: seq<Row>, where: seq<Where>)
    ensures Tally(lower, rows, where) == |Matching(lower, rows, where)|
  {
    if rows != [] {
      var n := |rows| - 1;
      TallyIsSize(lower, rows[..n], where);
      var front := Matching(lower, rows[..n], where);
      assert Matching(lower, rows, where) == front + if Matches(lower, rows[n], where) then {n} else {} by {
        forall i | i in Matching(lower, rows, where) ensures i in front || i == n {
          if i < n { assert rows[..n][i] == rows[i]; }
        }
        forall i | i in front ensures i in Matching(lower, rows, where) {
          assert rows[..n][i] == rows[i];
        }
      }
    }
  }

  lemma {:induction false} RejectSurvives(lower: Lower, rows: seq<Row>, where: seq<Where>) returns (at: seq<nat>)
    ensures Survivors(lower, rows, where, Reject(lower, rows, where), at)
  {
    at := [];
    if rows != [] {
      var n := |rows| - 1;
      var had := RejectSurvives(lower, rows[..n], where);
      at := OneMoreSurvivor(lower, rows, where, Reject(lower, rows[..n], where), had);
    }
  }

  lemma OneMoreSurvivor(lower: Lower, rows: seq<Row>, where: seq<Where>, kept: seq<Row>, had: seq<nat>)
      returns (at: seq<nat>)
    requires rows != [] && Survivors(lower, rows[..|rows| - 1], where, kept, had)
    ensures var last := rows[|rows| - 1];
            Survivors(lower, rows, where, kept + if Matches(lower, last, where) then [] else [last], at)
  {
    var n := |rows| - 1;
    at := had + if Matches(lower, rows[n], where) then [] else [n];
    forall i | 0 <= i < |rows| && !Matches(lower, rows[i], where) ensures i in at {
      if i < n { assert rows[..n][i] == rows[i] && i in had; }
    }
    forall i | 0 <= i < |had| ensures had[i] < n && kept[i] == rows[had[i]] && !Matches(lower, rows[had[i]], where) {
      assert rows[..n][had[i]] == rows[had[i]];
    }
  }

  lemma {:induction false} DefaultsFill(fields: seq<FieldDef>, data: Row)
    ensures Filled(fields, data, WithDefaults(fields, data))
    decreases |fields|
  {
    if fields != [] {
      var f, rest := fields[0], fields[1..];
      var data' := if f.default != Nil && f.name !in data then data[f.name := f.default] else data;
      DefaultsFill(rest, data');
      var row := WithDefaults(fields, data);
      assert row == WithDefaults(rest, data');
      forall g | g in row && g !in data ensures exists i :: FirstDefault(fields, g, i) && row[g] == fields[i].default {
        if g == f.name && f.default != Nil {
          assert FirstDefault(fields, g, 0) && row[g] == data'[g];
        } else {
          var i :| FirstDefault(rest, g, i) && row[g] == rest[i].default;
          assert FirstDefault(fields, g, i + 1);
        }
      }
      forall i | 0 <= i < |fields| && fields[i].default != Nil ensures fields[i].name in row {
        if i > 0 { assert rest[i - 1] == fields[i]; }
      }
    }
  }

  /** The defaults of a row are determined. */
  lemma FilledOneWay(fields: seq<FieldDef>, data: Row, row: Row, other: Row)
    requires Filled(fields, data, row) && Filled(fields, data, other)
    ensures row == other
  {
    FilledWithin(fields, data, row, other);
    FilledWithin(fields, data, other, row);
  }

  lemma FilledWithin(fields: seq<FieldDef>, data: Row, row: Row, other: Row)
    requires Filled(fields, data, row) && Filled(fields, data, other)
    ensures forall f :: f in row ==> f in other && other[f] == row[f]
  {
    forall f | f in row ensures f in other && other[f] == row[f] {
      if f !in data {
        var i :| FirstDefault(fields, f, i) && row[f] == fields[i].default;
        assert f in other;
        var j :| FirstDefault(fields, f, j) && other[f] == fields[j].default;
      }
    }
  }

  lemma CreateMeans(schema: Schema, lower: Lower, db: Db, model: string, data: Row)
    ensures var (after, out) := Apply(schema, lower, db, Create(model, data));
    Creates(schema, db, model, data, after, out)
  {
    DefaultsFill(FieldsOf(schema, model), data);
    assert Filled(FieldsOf(schema, model), data, Defaults(schema, model, data));
  }

  lemma FindMeans(schema: Schema, lower: Lower, db: Db, model: string, where: seq<Where>)
    ensures var (after, out) := Apply(schema, lower, db, FindOne(model, where));
            after == db && Finds(schema, lower, db, model, where, out)
  {
    var n := First(lower, Rows(db, model), where);
    if n < |Rows(db, model)| { assert FirstMatch(lower, Rows(db, model), where, n); }
  }

  lemma CountMeans(schema: Schema, lower: Lower, db: Db, model: string, where: seq<Where>)
    ensures var (after, out) := Apply(schema, lower, db, Count(model, where));
            after == db && Counts(schema, lower, db, model, where, out)
  {
    TallyIsSize(lower, Rows(db, model), where);
  }

  lemma UpdateMeans(schema: Schema, lower: Lower, db: Db, model: string, where: seq<Where>, update: Row)
    ensures var (after, out) := Apply(schema, lower, db, Update(model, where, update));
            Updates(schema, lower, db, model, where, update, after, out)
  {
    var rows := Rows(db, model);
    var n := First(lower, rows, where);
    if n < |rows| {
      var (after, out) := Apply(schema, lower, db, Update(model, where, update));
      var row := rows[n] + update;
      assert FirstMatch(lower, rows, where, n) && Merged(rows[n], update, row);
      if Known(schema, model, WhereFields(where)) && Known(schema, model, update.Keys) {
        assert Violates(schema, model, rows, row, n) <==> ConflictsBeside(schema, model, rows, n, row);
        assert UpdatesTo(schema, db, model, n, row, after, out);
      }
    }
  }

  lemma UpdateManyMeans(schema: Schema, lower: Lower, db: Db, model: string, where: seq<Where>, update: Row)
    ensures var (after, out) := Apply(schema, lower, db, UpdateMany(model, where, update));
            UpdatesAll(schema, lower, db, model, where, update, after, out)
  {
    TallyIsSize(lower, Rows(db, model), where);
  }

  lemma DeleteMeans(schema: Schema, lower: Lower, db: Db, model: string, where: seq<Where>)
    ensures var (after, out) := Apply(schema, lower, db, Delete(model, where));
            Deletes(schema, lower, db, model, where, after, out)
  {
    var rows := Rows(db, model);
    var n := First(lower, rows, where);
    if n < |rows| { assert FirstMatch(lower, rows, where, n) && Missing(rows, rows[..n] + rows[n + 1..], n); }
  }

  lemma DeleteManyMeans(schema: Schema, lower: Lower, db: Db, model: string, where: seq<Where>)
    ensures var (after, out) := Apply(schema, lower, db, DeleteMany(model, where));
            DeletesAll(schema, lower, db, model, where, after, out)
  {
    TallyIsSize(lower, Rows(db, model), where);
    var (after, out) := Apply(schema, lower, db, DeleteMany(model, where));
    if Known(schema, model, WhereFields(where)) {
      var at := RejectSurvives(lower, Rows(db, model), where);
      assert Survivors(lower, Rows(db, model), where, Rows(after, model), at);
    }
  }

  // ---- one operation after another ----

  /** A search for a text in one column by equality. */
  function ByText(f: string, text: string): seq<Where> {
    [Where(f, Eq, Str(text), Unset)]
  }

  lemma ByTextMatches(lower: Lower, row: Row, f: string, text: string)
    ensures Matches(lower, row, ByText(f, text)) <==> f in row && row[f] == Str(text)
    ensures forall unique :: f in unique ==>
              (Matches(lower, row, ByText(f, text)) <==> (f, Str(text)) in Keys(unique, row))
  {
  }

  /** At most one row holds a text in a unique column. */
  lemma OneHolds(schema: Schema, lower: Lower, db: Db, model: string, f: string, text: string, i: nat, j: nat)
    requires DbOk(schema, db) && f in Unique(schema, model) && i < |Rows(db, model)| && j < |Rows(db, model)|
    requires Matches(lower, Rows(db, model)[i], ByText(f, text)) && Matches(lower, Rows(db, model)[j], ByText(f, text))
    ensures i == j
  {
    var u, rows := Unique(schema, model), Rows(db, model);
    assert TableOk(schema, model, rows);
    assert i == j || !SharesKey(u, rows[i], rows[j]);
    ByTextMatches(lower, rows[i], f, text);
    ByTextMatches(lower, rows[j], f, text);
    assert (f, Str(text)) in Keys(u, rows[i]) * Keys(u, rows[j]);
  }

  /** A row holding a text in a unique column is what a search for it finds. */
  lemma HolderIsFound(schema: Schema, lower: Lower, db: Db, model: string, f: string, text: string, n: nat)
    requires DbOk(schema, db) && f in Unique(schema, model) && Known(schema, model, {f})
    requires n < |Rows(db, model)| && f in Rows(db, model)[n] && Rows(db, model)[n][f] == Str(text)
    ensures Apply(schema, lower, db, FindOne(model, ByText(f, text))).1 == Found(Rows(db, model)[n])
  {
    var rows, where := Rows(db, model), ByText(f, text);
    ByTextMatches(lower, rows[n], f, text);
    assert WhereFields(where) == {f} by { assert where[0].field == f; }
    FindMeans(schema, lower, db, model, where);
    var out := Apply(schema, lower, db, FindOne(model, where)).1;
    if out.Found? {
      var k: nat :| FirstMatch(lower, rows, where, k) && out.row == rows[k];
      OneHolds(schema, lower, db, model, f, text, k, n);
    }
  }

  /** What is created is found again by any unique column it holds a text in. */
  lemma CreatedIsFound(schema: Schema, lower: Lower, db: Db, model: string, data: Row, f: string, text: string)
    requires SchemaOk(schema) && DbOk(schema, db) && CallOk(schema, Create(model, data))
    requires f in Unique(schema, model) && Known(schema, model, {f})
    ensures var (after, out) := Apply(schema, lower, db, Create(model, data));
            out.Found? && f in out.row && out.row[f] == Str(text) ==>
              Apply(schema, lower, after, FindOne(model, ByText(f, text))).1 == out
  {
    var (after, out) := Apply(schema, lower, db, Create(model, data));
    CreateMeans(schema, lower, db, model, data);
    ApplyKeepsDbOk(schema, lower, db, Create(model, data));
    if out.Found? && f in out.row && out.row[f] == Str(text) {
      HolderIsFound(schema, lower, after, model, f, text, |Rows(db, model)|);
    }
  }

  /** What is updated is found again as updated. */
  lemma UpdatedIsFound(schema: Schema, lower: Lower, db: Db, model: string, where: seq<Where>, update: Row, f: string,
      text: string)
    requires SchemaOk(schema) && DbOk(schema, db) && CallOk(schema, Update(model, where, update))
    requires f in Unique(schema, model) && Known(schema, model, {f})
    ensures var (after, out) := Apply(schema, lower, db, Update(model, where, update));
            out.Found? && f in out.row && out.row[f] == Str(text) ==>
              Apply(schema, lower, after, FindOne(model, ByText(f, text))).1 == out
  {
    var (after, out) := Apply(schema, lower, db, Update(model, where, update));
    UpdateMeans(schema, lower, db, model, where, update);
    ApplyKeepsDbOk(schema, lower, db, Update(model, where, update));
    if out.Found? && f in out.row && out.row[f] == Str(text) {
      var n: nat, row :| FirstMatch(lower, Rows(db, model), where, n) && Merged(Rows(db, model)[n], update, row) &&
        UpdatesTo(schema, db, model, n, row, after, out);
      HolderIsFound(schema, lower, after, model, f, text, n);
    }
  }

  /** A row that would share a text in a unique column with one that is there is refused. */
  lemma TwinValueIsRefused(schema: Schema, lower: Lower, db: Db, model: string, data: Row, f: string, text: string,
      i: nat)
    requires f in Unique(schema, model) && f in data && data[f] == Str(text) && Known(schema, model, data.Keys)
    requires i < |Rows(db, model)| && f in Rows(db, model)[i] && Rows(db, model)[i][f] == Str(text)
    ensures Apply(schema, lower, db, Create(model, data)) == (db, UniqueViolation)
  {
    var row, other := Defaults(schema, model, data), Rows(db, model)[i];
    DefaultsFill(FieldsOf(schema, model), data);
    assert (f, Str(text)) in Keys(Unique(schema, model), row) * Keys(Unique(schema, model), other);
    assert Conflict(schema, model, row, other);
  }

  /** So is one that holds what another holds in all columns of a composite constraint. */
  lemma TwinTupleIsRefused(schema: Schema, lower: Lower, db: Db, model: string, data: Row, c: nat, i: nat)
    requires c < |Constraints(schema, model)| && i < |Rows(db, model)| && Known(schema, model, data.Keys)
    requires forall f :: f in Constraints(schema, model)[c] ==>
               f in data && data[f] != Nil && f in Rows(db, model)[i] && Rows(db, model)[i][f] == data[f]
    ensures Apply(schema, lower, db, Create(model, data)) == (db, UniqueViolation)
  {
    var row, other, columns := Defaults(schema, model, data), Rows(db, model)[i], Constraints(schema, model)[c];
    DefaultsFill(FieldsOf(schema, model), data);
    forall k | 0 <= k < |columns| ensures columns[k] in row && row[columns[k]] == data[columns[k]] {
      assert columns[k] in columns;
    }
    assert CollideOn(columns, row, other);
    assert Conflict(schema, model, row, other);
  }

  /** A column that is not declared is refused wherever it is named. */
  lemma UndeclaredIsRefused(schema: Schema, lower: Lower, db: Db, model: string, f: string, data: Row, w: Where)
    requires model in schema && (forall i :: 0 <= i < |schema[model].fields| ==> schema[model].fields[i].name != f)
    requires f in data && w.field == f
    ensures Apply(schema, lower, db, Create(model, data)) == (db, UnknownField)
    ensures Apply(schema, lower, db, FindOne(model, [w])) == (db, UnknownField)
    ensures Apply(schema, lower, db, Count(model, [w])) == (db, UnknownField)
    ensures Apply(schema, lower, db, Update(model, [], data)) == (db, UnknownField)
    ensures Apply(schema, lower, db, UpdateMany(model, [], data)) == (db, UnknownField)
    ensures Apply(schema, lower, db, Delete(model, [w])) == (db, UnknownField)
    ensures Apply(schema, lower, db, DeleteMany(model, [w])) == (db, UnknownField)
  {
    assert [w][0].field in WhereFields([w]);
  }

  /** A row deleted by a unique column is gone: the same search finds nothing. */
  lemma DeletedIsGone(schema: Schema, lower: Lower, db: Db, model: string, f: string, text: string)
    requires SchemaOk(schema) && DbOk(schema, db) && f in Unique(schema, model) && Known(schema, model, {f})
    ensures var after := Apply(schema, lower, db, Delete(model, ByText(f, text))).0;
            Apply(schema, lower, after, FindOne(model, ByText(f, text))).1 == NotFound
  {
    var where := ByText(f, text);
    var (after, out) := Apply(schema, lower, db, Delete(model, where));
    var rows, rows' := Rows(db, model), Rows(after, model);
    assert WhereFields(where) == {f} by { assert where[0].field == f; }
    DeleteMeans(schema, lower, db, model, where);
    FindMeans(schema, lower, after, model, where);
    if !NoneMatch(lower, rows, where) {
      var n: nat :| FirstMatch(lower, rows, where, n) && Missing(rows, rows', n);
      forall i | 0 <= i < |rows'| ensures !Matches(lower, rows'[i], where) {
        var j := if i < n then i else i + 1;
        assert rows'[i] == rows[j];
        if Matches(lower, rows[j], where) { OneHolds(schema, lower, db, model, f, text, j, n); }
      }
    }
  }

  lemma SurvivorsDoNotMatch(lower: Lower, before: seq<Row>, where: seq<Where>, after: seq<Row>, at: seq<nat>)
    requires Survivors(lower, before, where, after, at)
    ensures NoneMatch(lower, after, where)
  {
  }

  lemma NothingToFind(schema: Schema, lower: Lower, db: Db, model: string, where: seq<Where>)
    requires Known(schema, model, WhereFields(where)) && NoneMatch(lower, Rows(db, model), where)
    ensures Apply(schema, lower, db, FindOne(model, where)).1 == NotFound
    ensures Apply(schema, lower, db, Count(model, where)).1 == Affected(0)
  {
    FindMeans(schema, lower, db, model, where);
    CountMeans(schema, lower, db, model, where);
    assert Matching(lower, Rows(db, model), where) == {};
  }

  /** After a bulk delete nothing of the kind is left to find or to count. */
  lemma AllDeletedAreGone(schema: Schema, lower: Lower, db: Db, model: string, where: seq<Where>)
    requires Known(schema, model, WhereFields(where))
    ensures var after := Apply(schema, lower, db, DeleteMany(model, where)).0;
            && Apply(schema, lower, after, FindOne(model, where)).1 == NotFound
            && Apply(schema, lower, after, Count(model, where)).1 == Affected(0)
  {
    var after := Apply(schema, lower, db, DeleteMany(model, where)).0;
    DeleteManyMeans(schema, lower, db, model, where);
    var at :| Survivors(lower, Rows(db, model), where, Rows(after, model), at);
    SurvivorsDoNotMatch(lower, Rows(db, model), where, Rows(after, model), at);
    NothingToFind(schema, lower, after, model, where);
  }

  /** No operation touches another table. */
  lemma OtherTablesAlone(schema: Schema, lower: Lower, db: Db, call: Call)
    ensures OthersKept(db, Apply(schema, lower, db, call).0, call.model)
  {
  }

  // ---- a transaction body as a client of the adapter ----

  datatype Move = Do(call: Call) | Finish(ok: bool)

  /** What fn does next, given the outcomes it has seen. */
  type Client = seq<Outcome> -> Move

  function Next(client: Client, history: seq<Outcome>): Move {
    client(history)
  }

  /** Run from these tables, the client ends within the limit, and its calls respect the typing of
      unique columns and keep unique values apart. */
  ghost predicate Polite(schema: Schema, lower: Lower, db: Db, client: Client, limit: nat, history: seq<Outcome>)
    decreases limit
  {
    match Next(client, history)
    case Finish(_) => true
    case Do(call) =>
      && limit > 0 && CallOk(schema, call) && Fits(schema, lower, db, call)
      && var (db', out) := Apply(schema, lower, db, call);
      Polite(schema, lower, db', client, limit - 1, history + [out])
  }

  /** The client's run on plain tables: the state it reaches and its verdict. */
  ghost function Run(schema: Schema, lower: Lower, db: Db, client: Client, limit: nat, history: seq<Outcome>)
      : (Db, bool)
    decreases limit
  {
    match Next(client, history)
    case Finish(ok) => (db, ok)
    case Do(call) =>
      if limit == 0 then (db, false)
      else
        var (db', out) := Apply(schema, lower, db, call);
        Run(schema, lower, db', client, limit - 1, history + [out])
  }

  /** What one call of a polite client comes to. */
  lemma OneCall(schema: Schema, lower: Lower, db: Db, client: Client, limit: nat, history: seq<Outcome>, call: Call)
    requires Polite(schema, lower, db, client, limit, history) && Next(client, history) == Do(call)
    ensures limit > 0 && CallOk(schema, call) && Fits(schema, lower, db, call)
    ensures var (db', out) := Apply(schema, lower, db, call);
            && Polite(schema, lower, db', client, limit - 1, history + [out])
            && Run(schema, lower, db, client, limit, history) ==
                 Run(schema, lower, db', client, limit - 1, history + [out])
  {
  }

  /** A client talking to plain tables: each call is what it says after the outcomes so far, each
      outcome and table what the call brings, until it ends with this verdict. */
  ghost predicate Conversation(schema: Schema, lower: Lower, client: Client, history: seq<Outcome>, dbs: seq<Db>,
                               outs: seq<Outcome>, ok: bool) {
    && |dbs| == |outs| + 1 && Next(client, history + outs) == Finish(ok)
    && forall k :: 0 <= k < |outs| ==>
         && Next(client, history + outs[..k]).Do?
         && Apply(schema, lower, dbs[k], Next(client, history + outs[..k]).call) == (dbs[k + 1], outs[k])
  }

  /** A polite client has a conversation within its limit ... */
  lemma {:induction false} PoliteTalks(schema: Schema, lower: Lower, db: Db, client: Client, limit: nat,
      history: seq<Outcome>)
      returns (dbs: seq<Db>, outs: seq<Outcome>, ok: bool)
    requires Polite(schema, lower, db, client, limit, history)
    ensures Conversation(schema, lower, client, history, dbs, outs, ok) && dbs[0] == db && |outs| <= limit
    decreases limit
  {
    match Next(client, history) {
      case Finish(verdict) =>
        dbs, outs, ok := [db], [], verdict;
        assert history + [] == history;
      case Do(call) =>
        var (db', out) := Apply(schema, lower, db, call);
        var dbs', outs', ok' := PoliteTalks(schema, lower, db', client, limit - 1, history + [out]);
        dbs, outs, ok := [db] + dbs', [out] + outs', ok';
        Prefixed(schema, lower, db, client, history, out, dbs', outs', ok);
    }
  }

  lemma Prefixed(schema: Schema, lower: Lower, db: Db, client: Client, history: seq<Outcome>, out: Outcome,
      dbs: seq<Db>, outs: seq<Outcome>, ok: bool)
    requires Conversation(schema, lower, client, history + [out], dbs, outs, ok) && Next(client, history).Do?
    requires Apply(schema, lower, db, Next(client, history).call) == (dbs[0], out)
    ensures Conversation(schema, lower, client, history, [db] + dbs, [out] + outs, ok)
  {
    assert history + ([out] + outs) == history + [out] + outs;
    forall k | 0 <= k < |outs| + 1
      ensures Next(client, history + ([out] + outs)[..k]).Do?
      ensures Apply(schema, lower, ([db] + dbs)[k], Next(client, history + ([out] + outs)[..k]).call) ==
                (([db] + dbs)[k + 1], ([out] + outs)[k])
    {
      if k == 0 {
        assert history + ([out] + outs)[..0] == history;
      } else {
        assert history + ([out] + outs)[..k] == history + [out] + outs[..k - 1];
      }
    }
  }

  /** ... and every conversation it can have from some tables is the one Run follows. */
  lemma {:induction false} RunFollows(schema: Schema, lower: Lower, client: Client, limit: nat, history: seq<Outcome>,
      dbs: seq<Db>, outs: seq<Outcome>, ok: bool)
    requires Conversation(schema, lower, client, history, dbs, outs, ok) && |outs| <= limit
    ensures Run(schema, lower, dbs[0], client, limit, history) == (dbs[|outs|], ok)
    decreases limit
  {
    assert history + [] == history;
    if outs != [] {
      assert history + outs[..0] == history;
      var next := history + [outs[0]];
      assert next + outs[1..] == history + outs;
      forall k | 0 <= k < |outs| - 1
        ensures Next(client, next + outs[1..][..k]).Do?
        ensures Apply(schema, lower, dbs[1..][k], Next(client, next + outs[1..][..k]).call) ==
                  (dbs[1..][k + 1], outs[1..][k])
      {
        assert next + outs[1..][..k] == history + outs[..k + 1];
      }
      RunFollows(schema, lower, client, limit - 1, next, dbs[1..], outs[1..], ok);
    }
  }
}
