/** buildWhere and the placeholder numbering of UpdateMany, as loops over a growing text. */
module SqlStore {
  import opened Storage
  import opened SqlLike
  import opened SqlWhere
  import opened SqlMeaning
  import opened SqlUpdate

  lemma {:induction false} HoleTailNext(idx: nat, n: nat)
    ensures HoleTail(idx, n + 1) == HoleTail(idx, n) + [Comma, Hole(idx + n)]
    decreases n
  {
    if n != 0 {
      HoleTailNext(idx + 1, n - 1);
    }
  }

  lemma EncodeAllNext(d: Dialect, f: FieldType, vs: seq<Value>, i: nat)
    requires i < |vs|
    ensures EncodeAll(d, f, vs[..i + 1]) == EncodeAll(d, f, vs[..i]) + [Encode(d, f, vs[i])]
  {
  }

  method BuildIn(d: Dialect, f: FieldType, col: Token, vals: seq<Value>, idx: nat)
      returns (expr: seq<Token>, args: seq<SqlVal>)
    requires vals != []
    ensures expr == InList(col, idx, |vals|) && args == EncodeAll(d, f, vals)
  {
    var ph: seq<Token> := [Hole(idx)];
    args := [Encode(d, f, vals[0])];
    var next := idx + 1;
    for i := 1 to |vals|
      invariant next == idx + i
      invariant ph == [Hole(idx)] + HoleTail(idx + 1, i - 1)
      invariant args == EncodeAll(d, f, vals[..i])
    {
      HoleTailNext(idx + 1, i - 1);
      EncodeAllNext(d, f, vals, i);
      ph := ph + [Comma, Hole(next)];
      args := args + [Encode(d, f, vals[i])];
      next := next + 1;
    }
    assert vals[..|vals|] == vals;
    expr := [col, InWord, Open] + ph + [Close];
    assert expr == InList(col, idx, |vals|);
  }

  method BuildClause(d: Dialect, table: seq<ColumnDef>, w: Where, idx: nat) returns (out: Output)
    ensures out == Clause(d, table, w, idx)
  {
    var f := ColumnType(table, w.field);
    if f.None? {
      return UnknownField;
    }
    var col := Column(w.field);
    if w.op == Other {
      return UnsupportedOperator;
    } else if w.op == In {
      if !w.value.List? || |w.value.items| == 0 {
        return Output([OneEqualsZero], []);
      }
      var expr, args := BuildIn(d, f.value, col, w.value.items, idx);
      return Output(expr, args);
    } else if Substring(w.op) {
      var pattern := EscapeLike(d.lower(Sprint(d, w.value)));
      if w.op == Contains {
        pattern := "%" + (pattern + "%");
      } else if w.op == StartsWith {
        pattern := pattern + "%";
      } else {
        pattern := "%" + pattern;
      }
      return Output([LowerWord, Open, col, Close, LikeWord, Hole(idx), EscapeWords], [SText(pattern)]);
    } else if w.value.Nil? && (w.op == Default || w.op == Eq) {
      return Output([col, IsNullWords], []);
    } else if w.value.Nil? && w.op == Ne {
      return Output([col, IsNotNullWords], []);
    }
    return Output([col, Rel(RelationOf(w.op)), Hole(idx)], [Encode(d, f.value, w.value)]);
  }

  lemma {:induction false} RenderFails(d: Dialect, table: seq<ColumnDef>, where: seq<Where>, start: nat, i: nat)
    requires i < |where| && !Render(d, table, where[..i + 1], start).Output?
    ensures Render(d, table, where, start) == Render(d, table, where[..i + 1], start)
    decreases |where|
  {
    var n := |where| - 1;
    if i == n {
      assert where[..n + 1] == where;
    } else {
      assert where[..n][..i + 1] == where[..i + 1];
      RenderFails(d, table, where[..n], start, i);
    }
  }

  lemma RenderOneMore(d: Dialect, table: seq<ColumnDef>, where: seq<Where>, start: nat, i: nat)
    requires i < |where|
    ensures Render(d, table, where[..i + 1], start) ==
              RenderNext(d, table, Render(d, table, where[..i], start), where[i], start, i == 0)
  {
    assert where[..i + 1][..i] == where[..i];
  }

  /** One more clause behind the text so far. */
  method BuildNext(d: Dialect, table: seq<ColumnDef>, w: Where, start: nat, idx: nat, first: bool, acc: seq<Token>,
      args: seq<SqlVal>)
      returns (out: Output)
    requires idx == start + |args|
    ensures out == RenderNext(d, table, Output(acc, args), w, start, first)
  {
    var clause := BuildClause(d, table, w, idx);
    if !clause.Output? {
      return clause;
    }
    if first {
      return Output(clause.tokens, args + clause.args);
    }
    var conn := AndWord;
    if w.conn == Or {
      conn := OrWord;
    }
    return Output([Open] + acc + [Close, conn] + clause.tokens, args + clause.args);
  }

  method BuildWhere(d: Dialect, table: seq<ColumnDef>, where: seq<Where>, startIdx: nat) returns (out: Output)
    ensures out == Render(d, table, where, startIdx)
  {
    if |where| == 0 {
      return Output([], []);
    }
    var acc: seq<Token> := [];
    var args: seq<SqlVal> := [];
    var idx := startIdx;
    for i := 0 to |where|
      invariant idx == startIdx + |args|
      invariant Render(d, table, where[..i], startIdx) == Output(acc, args)
    {
      RenderOneMore(d, table, where, startIdx, i);
      var next := BuildNext(d, table, where[i], startIdx, idx, i == 0, acc, args);
      if !next.Output? {
        RenderFails(d, table, where, startIdx, i);
        return next;
      }
      acc, args, idx := next.tokens, next.args, idx + |next.args| - |args|;
    }
    assert where[..|where|] == where;
    return Output(acc, args);
  }

  // ---- UPDATE ... SET ... WHERE ... ----

  method BuildSets(d: Dialect, table: seq<ColumnDef>, update: Row) returns (sets: seq<Token>, args: seq<SqlVal>, i: nat)
    ensures var cols := Assigned(table, update);
            sets == SetList(cols) && args == SetArgs(d, cols, update) && i == |cols| + 1
  {
    sets, args, i := [], [], 1;
    ghost var cols: seq<ColumnDef> := [];
    for j := 0 to |table|
      invariant cols == Assigned(table[..j], update) && i == |cols| + 1
      invariant sets == SetList(cols) && args == SetArgs(d, cols, update)
    {
      var f := table[j];
      assert table[..j + 1][..j] == table[..j];
      if f.name in update {
        SetNext(cols, cols + [f], f);
        SetArgsNext(d, cols, f, update);
        sets := sets + SetItem(f.name, |sets| == 0, i);
        args := args + [Encode(d, f.ftype, update[f.name])];
        i := i + 1;
        cols := cols + [f];
      }
    }
    assert table[..|table|] == table;
  }

  /** The statement, or why there is none: an undeclared column or operator, or nothing to set. */
  method BuildUpdate(d: Dialect, table: seq<ColumnDef>, where: seq<Where>, update: Row) returns (st: Statement)
    ensures st == UpdateStatement(d, table, where, update)
    ensures st.Statement? <==>
              && update != map[] && (forall f :: f in update ==> ColumnType(table, f).Some?)
              && forall i :: 0 <= i < |where| ==> Compiles(table, where[i])
    ensures st.NothingToSet? <==> update == map[]
    ensures st.Statement? ==> HolesIn(st.sets + st.where) == Range(1, |st.args|)
  {
    StatementExactly(d, table, where, update);
    if UpdateStatement(d, table, where, update).Statement? { StatementHoles(d, table, where, update); }
    if exists f :: f in update && ColumnType(table, f).None? {
      return Rejected;
    }
    var sets, args, i := BuildSets(d, table, update);
    if |sets| == 0 {
      return NothingToSet;
    }
    var w := BuildWhere(d, table, where, i);
    if !w.Output? {
      return Rejected;
    }
    return Statement(sets, w.tokens, args + w.args);
  }
}
