/** What the compiled where clause selects, and which argument each placeholder binds. */
module SqlMeaning {
  import opened Storage
  import opened SqlLike
  import opened SqlWhere
  import opened Timestamps

  // ---- placeholders ----

  /** The placeholder numbers of a text, in the order they occur. */
  function HolesIn(ts: seq<Token>): seq<nat> {
    if ts == [] then [] else (if ts[0].Hole? then [ts[0].index] else []) + HolesIn(ts[1..])
  }

  lemma {:induction false} HolesAppend(a: seq<Token>, b: seq<Token>)
    ensures HolesIn(a + b) == HolesIn(a) + HolesIn(b)
  {
    if a == [] {
      assert a + b == b;
    } else {
      HolesAppend(a[1..], b);
      assert (a + b)[0] == a[0] && (a + b)[1..] == a[1..] + b;
    }
  }

  lemma {:induction false} HolesInTail(idx: nat, n: nat)
    ensures HolesIn(HoleTail(idx, n)) == Range(idx, n)
    decreases n
  {
    if n != 0 {
      HolesInTail(idx + 1, n - 1);
      HolesAppend([Comma, Hole(idx)], HoleTail(idx + 1, n - 1));
      assert [Comma, Hole(idx)][1..] == [Hole(idx)];
      assert HolesIn([Hole(idx)]) == [idx] + HolesIn([]);
      assert [idx] + Range(idx + 1, n - 1) == Range(idx, n);
    }
  }

  predicate NoHoles(ts: seq<Token>) {
    forall i :: 0 <= i < |ts| ==> !ts[i].Hole?
  }

  lemma {:induction false} HolesNone(ts: seq<Token>)
    requires NoHoles(ts)
    ensures HolesIn(ts) == []
  {
    if ts != [] { HolesNone(ts[1..]); }
  }

  lemma OneHole(front: seq<Token>, k: nat, back: seq<Token>)
    requires NoHoles(front) && NoHoles(back)
    ensures HolesIn(front + [Hole(k)] + back) == [k]
  {
    HolesAppend(front + [Hole(k)], back);
    HolesAppend(front, [Hole(k)]);
    HolesNone(front);
    HolesNone(back);
    assert HolesIn([Hole(k)]) == [k] + HolesIn([]);
  }

  lemma InListHoles(col: string, idx: nat, n: nat)
    requires n > 0
    ensures HolesIn(InList(Column(col), idx, n)) == Range(idx, n)
  {
    var front, tail := [Column(col), InWord, Open], HoleTail(idx + 1, n - 1);
    assert InList(Column(col), idx, n) == front + ([Hole(idx)] + (tail + [Close]));
    SkipHoles(front, [Hole(idx)] + (tail + [Close]));
    HolesAppend([Hole(idx)], tail + [Close]);
    OneHole([], idx, []);
    assert [] + [Hole(idx)] + [] == [Hole(idx)];
    HolesAppend(tail, [Close]);
    HolesNone([Close]);
    HolesInTail(idx + 1, n - 1);
    RangeSplit(idx, 1, n - 1);
    assert [idx] == Range(idx, 1) && Range(idx + 1, n - 1) + [] == Range(idx + 1, n - 1);
  }

  lemma LikeHoles(col: string, idx: nat)
    ensures HolesIn([LowerWord, Open, Column(col), Close, LikeWord, Hole(idx), EscapeWords]) == Range(idx, 1)
  {
    var front := [LowerWord, Open, Column(col), Close, LikeWord];
    OneHole(front, idx, [EscapeWords]);
    assert [LowerWord, Open, Column(col), Close, LikeWord, Hole(idx), EscapeWords] ==
        front + [Hole(idx)] + [EscapeWords];
  }

  lemma ComparedHoles(col: string, rel: Relation, idx: nat)
    ensures HolesIn([Column(col), Rel(rel), Hole(idx)]) == Range(idx, 1)
  {
    OneHole([Column(col), Rel(rel)], idx, []);
    assert [Column(col), Rel(rel), Hole(idx)] == [Column(col), Rel(rel)] + [Hole(idx)] + [];
  }

  lemma ClauseHoles(d: Dialect, table: seq<ColumnDef>, w: Where, idx: nat)
    requires Clause(d, table, w, idx).Output?
    ensures HolesIn(Clause(d, table, w, idx).tokens) == Range(idx, Arity(w))
  {
    if w.op == In && w.value.List? && w.value.items != [] {
      InListHoles(w.field, idx, |w.value.items|);
    } else if w.op != In && Substring(w.op) {
      LikeHoles(w.field, idx);
    } else if Arity(w) == 1 {
      ComparedHoles(w.field, RelationOf(w.op), idx);
    } else {
      HolesNone(Clause(d, table, w, idx).tokens);
    }
  }

  /** Placeholders are numbered in the order of their arguments, from `start` on. */
  lemma {:induction false} RenderHoles(d: Dialect, table: seq<ColumnDef>, where: seq<Where>, start: nat)
    requires Render(d, table, where, start).Output?
    ensures HolesIn(Render(d, table, where, start).tokens) == Range(start, TotalArity(where))
  {
    if where != [] {
      var n := |where| - 1;
      var idx, acc, expr := RenderSplits(d, table, where, start);
      RenderHoles(d, table, where[..n], start);
      ExprHoles(d, table, where[n], idx, expr);
      JoinedHoles(n == 0, acc, Word(where[n].conn), expr, start, TotalArity(where[..n]), Arity(where[n]));
    }
  }

  lemma ExprHoles(d: Dialect, table: seq<ColumnDef>, w: Where, idx: nat, expr: seq<Token>)
    requires Clause(d, table, w, idx).Output? && Clause(d, table, w, idx).tokens == expr
    ensures HolesIn(expr) == Range(idx, Arity(w))
  {
    ClauseHoles(d, table, w, idx);
  }

  lemma JoinedHoles(first: bool, acc: seq<Token>, conn: Token, expr: seq<Token>, start: nat, a: nat, b: nat)
    requires !conn.Hole? && (first ==> acc == [])
    requires HolesIn(acc) == Range(start, a) && HolesIn(expr) == Range(start + a, b)
    ensures HolesIn(Wrapped(first, acc, conn, expr)) == Range(start, a + b)
  {
    if !first { WrapHoles(acc, conn, expr); }
    RangeSplit(start, a, b);
  }

  lemma RangeSplit(start: nat, a: nat, b: nat)
    ensures Range(start, a) + Range(start + a, b) == Range(start, a + b)
  {
  }

  lemma WrapHoles(acc: seq<Token>, conn: Token, expr: seq<Token>)
    requires !conn.Hole?
    ensures HolesIn([Open] + acc + [Close, conn] + expr) == HolesIn(acc) + HolesIn(expr)
  {
    SkipHoles([Open], acc);
    SkipHoles([Close, conn], expr);
    HolesAppend([Open] + acc, [Close, conn] + expr);
    assert [Open] + acc + [Close, conn] + expr == ([Open] + acc) + ([Close, conn] + expr);
  }

  lemma SkipHoles(front: seq<Token>, ts: seq<Token>)
    requires NoHoles(front)
    ensures HolesIn(front + ts) == HolesIn(ts)
  {
    HolesAppend(front, ts);
    HolesNone(front);
  }

  // ---- truth ----

  /** A value of the column's type that both sides compare exactly: not every integer, and
      not every instant where instants are text. */
  predicate Typed(d: Dialect, f: FieldType, v: Value) {
    match f
    case StringField => v.Str?
    case TextField => v.Str?
    case BoolField => v.Bool?
    case IntField => v.Int? && -EXACT <= v.n <= EXACT
    case TimeField => v.Time? && v.t != ZERO_TIME && (d.sqlite ==> FourDigitYear(v.t))
  }

  predicate OperandOk(d: Dialect, f: FieldType, w: Where) {
    if w.op == In then w.value.List? ==> forall i :: 0 <= i < |w.value.items| ==> Typed(d, f, w.value.items[i])
    else if Substring(w.op) then (f.StringField? || f.TextField?) && w.value.Str?
    else if w.op == Gt || w.op == Gte || w.op == Lt || w.op == Lte then
        w.value.Nil? || (Typed(d, f, w.value) && !f.BoolField?)
    else w.op != Other && (w.value.Nil? || Typed(d, f, w.value))
  }

  /** Lowering nothing gives nothing. */
  predicate DialectOk(d: Dialect) {
    d.lower([]) == []
  }

  /** srow holds the encoded columns of row, which are typed or missing. */
  ghost predicate Stores(d: Dialect, table: seq<ColumnDef>, row: Row, srow: SqlRow) {
    forall name :: ColumnType(table, name).Some? ==>
        StoresColumn(d, ColumnType(table, name).value, Field(row, name), Cell(srow, name))
  }

  predicate StoresColumn(d: Dialect, f: FieldType, v: Value, cell: SqlVal) {
    (v.Nil? || Typed(d, f, v)) && cell == Encode(d, f, v)
  }

  /** Arguments number idx onwards are those of the clause. */
  predicate Binds(args: seq<SqlVal>, idx: nat, more: seq<SqlVal>) {
    forall k :: 0 <= k < |more| ==> Arg(args, idx + k) == more[k]
  }

  /** The one gap between the two readings: a NULL column under "not equal" or under a
      search for the empty text is in for Matches and unknown to SQL. */
  predicate Gap(d: Dialect, v: Value, w: Where) {
    v.Nil? && ((w.op == Ne && !w.value.Nil?) || (Substring(w.op) && d.lower(Text(w.value)) == []))
  }

  lemma EqualEncodes(d: Dialect, f: FieldType, a: Value, b: Value)
    requires Typed(d, f, a) && Typed(d, f, b)
    ensures SqlCompare(Encode(d, f, a), EqRel, Encode(d, f, b)) == OfBool(Equal(a, b))
    ensures SqlCompare(Encode(d, f, a), NeRel, Encode(d, f, b)) == OfBool(!Equal(a, b))
  {
    match f
    case TimeField => if d.sqlite { LayoutOrder(a.t, b.t); }
    case IntField => SmallIntsExact(a.n, b.n);
    case _ =>
  }

  lemma OrderEncodes(d: Dialect, f: FieldType, a: Value, b: Value, op: Operator)
    requires Typed(d, f, a) && Typed(d, f, b) && !f.BoolField?
    requires op == Gt || op == Gte || op == Lt || op == Lte
    ensures SqlCompare(Encode(d, f, a), RelationOf(op), Encode(d, f, b)) == OfBool(Compare(a, b, op))
  {
    match f
    case TimeField => if d.sqlite { LayoutOrder(a.t, b.t); }
    case IntField => SmallIntsExact(a.n, b.n);
    case _ =>
  }

  /** SQLite, which has no types of its own for them, is handed no instant and no boolean. */
  lemma SqliteValues(d: Dialect, f: FieldType, v: Value)
    requires d.sqlite && (v.Nil? || Typed(d, f, v))
    ensures Encode(d, f, v).Null? || Encode(d, f, v).SText? || Encode(d, f, v).SInt?
    ensures Encode(d, f, v).Null? <==> v.Nil?
  {
  }

  /** What is stored is read back as it was; only time.Time{} comes back as nil. */
  lemma DecodesBack(d: Dialect, f: FieldType, v: Value, other: string -> int)
    requires v.Nil? || Typed(d, f, v) || (f.TimeField? && v == Time(ZERO_TIME))
    ensures Decode(f, Encode(d, f, v), other) == v <==> !(f.TimeField? && v == Time(ZERO_TIME))
  {
    if f.TimeField? && d.sqlite && v.Time? && v.t != ZERO_TIME { LayoutReadsBack(v.t); }
  }

  lemma {:induction false} MemberEncodes(d: Dialect, f: FieldType, v: Value, items: seq<Value>, idx: nat,
      args: seq<SqlVal>)
    requires (v.Nil? || Typed(d, f, v)) && forall i :: 0 <= i < |items| ==> Typed(d, f, items[i])
    requires Binds(args, idx, EncodeAll(d, f, items))
    ensures AnyEqual(Encode(d, f, v), Range(idx, |items|), args) == True <==> Member(v, items)
  {
    var n := |items| - 1;
    var holes := Range(idx, |items|);
    if items != [] {
      assert holes[..n] == Range(idx, n);
      assert EncodeAll(d, f, items[..n]) == EncodeAll(d, f, items)[..n];
      MemberEncodes(d, f, v, items[..n], idx, args);
      assert Arg(args, idx + n) == EncodeAll(d, f, items)[n];
      if Typed(d, f, v) { EqualEncodes(d, f, v, items[n]); }
      MemberLast(v, items);
    }
  }

  lemma MemberLast(v: Value, items: seq<Value>)
    requires items != []
    ensures Member(v, items) <==> Member(v, items[..|items| - 1]) || Equal(v, items[|items| - 1])
  {
    var n := |items| - 1;
    if Member(v, items[..n]) {
      var i :| 0 <= i < n && Equal(v, items[..n][i]);
      assert Equal(v, items[i]);
    }
    if i :| 0 <= i < n && Equal(v, items[i]) {
      assert Equal(v, items[..n][i]);
    }
  }

  /** Where the clause lowers the row's text, the engine lowers it as Go does. */
  predicate LowersAlike(d: Dialect, v: Value, w: Where) {
    Substring(w.op) && v.Str? ==> d.engineLower(v.s) == d.lower(v.s)
  }

  ghost predicate Agree(d: Dialect, row: Row, srow: SqlRow, args: seq<SqlVal>, w: Where, idx: nat) {
    Eval(d.engineLower, ClauseExpr(w, idx), srow, args) == True <==> MatchOne(d.lower, row, w)
  }

  lemma LikeMeaning(d: Dialect, v: Value, f: FieldType, w: Where, idx: nat, args: seq<SqlVal>)
    requires DialectOk(d) && OperandOk(d, f, w) && w.op != In && Substring(w.op) && Typed(d, f, v)
    requires Binds(args, idx, [SText(Pattern(w.op, d.lower(w.value.s)))])
    requires LowersAlike(d, v, w)
    ensures Arg(args, idx).SText? && (Like(Arg(args, idx).s, d.engineLower(v.s)) <==>
              match w.op
              case Contains => HasSubstring(d.lower(Text(v)), d.lower(Text(w.value)))
              case StartsWith => HasPrefix(d.lower(Text(v)), d.lower(Text(w.value)))
              case _ => HasSuffix(d.lower(Text(v)), d.lower(Text(w.value))))
  {
    var s, t := d.lower(w.value.s), d.lower(v.s);
    assert Arg(args, idx + 0) == [SText(Pattern(w.op, s))][0];
    ContainsPattern(s, t);
    StartsPattern(s, t);
    EndsPattern(s, t);
  }

  /** The two lowerings must agree: looking for a text in itself finds it exactly when they do,
      unless they change its length. */
  lemma LoweringMatters(d: Dialect, s: string)
    requires |d.engineLower(s)| == |d.lower(s)|
    ensures Like(Pattern(Contains, d.lower(s)), d.engineLower(s)) <==> d.engineLower(s) == d.lower(s)
  {
    ContainsPattern(d.lower(s), d.engineLower(s));
    if d.engineLower(s) == d.lower(s) { assert HasPrefix(d.engineLower(s)[0..], d.lower(s)); }
  }

  /** One clause selects the same rows on both sides, except exactly at the gap. */
  lemma ClauseMeaning(d: Dialect, table: seq<ColumnDef>, row: Row, srow: SqlRow, w: Where, idx: nat, args: seq<SqlVal>)
    requires DialectOk(d) && Clause(d, table, w, idx).Output? && Stores(d, table, row, srow)
    requires OperandOk(d, ColumnType(table, w.field).value, w) && LowersAlike(d, Field(row, w.field), w)
    requires Binds(args, idx, Clause(d, table, w, idx).args)
    ensures Agree(d, row, srow, args, w, idx) <==> !Gap(d, Field(row, w.field), w)
  {
    var f, v, cell := ColumnType(table, w.field).value, Field(row, w.field), Cell(srow, w.field);
    assert StoresColumn(d, f, v, cell);
    if w.op == In {
      if w.value.List? && w.value.items != [] {
        MemberEncodes(d, f, v, w.value.items, idx, args);
      }
    } else if Substring(w.op) {
      if v.Nil? {
        EmptyText(d.lower(w.value.s));
      } else {
        LikeMeaning(d, v, f, w, idx, args);
      }
    } else if !(w.value.Nil? && (w.op == Default || w.op == Eq || w.op == Ne)) {
      assert Arg(args, idx + 0) == [Encode(d, f, w.value)][0];
      if Typed(d, f, v) && Typed(d, f, w.value) {
        if w.op == Default || w.op == Eq || w.op == Ne {
          EqualEncodes(d, f, v, w.value);
        } else {
          OrderEncodes(d, f, v, w.value, w.op);
        }
      }
    }
  }

  /** Only the empty text is found in the empty text. */
  lemma EmptyText(s: string)
    ensures HasSubstring([], s) <==> s == []
    ensures HasPrefix([], s) <==> s == []
    ensures HasSuffix([], s) <==> s == []
  {
    if s == [] { assert HasPrefix([][0..], s); }
  }

  // ---- the whole clause list ----

  /** An operand of the right type, one lowering for both sides, and not in the gap on this row. */
  predicate ClauseOk(d: Dialect, table: seq<ColumnDef>, row: Row, w: Where) {
    && Compiles(table, w)
    && OperandOk(d, ColumnType(table, w.field).value, w)
    && LowersAlike(d, Field(row, w.field), w)
    && !Gap(d, Field(row, w.field), w)
  }

  predicate Comparable(d: Dialect, table: seq<ColumnDef>, row: Row, where: seq<Where>) {
    forall i :: 0 <= i < |where| ==> ClauseOk(d, table, row, where[i])
  }

  lemma ClauseAgrees(d: Dialect, table: seq<ColumnDef>, row: Row, srow: SqlRow, w: Where, idx: nat, args: seq<SqlVal>,
      more: seq<SqlVal>)
    requires DialectOk(d) && Stores(d, table, row, srow) && ClauseOk(d, table, row, w)
    requires Clause(d, table, w, idx).Output? && Clause(d, table, w, idx).args == more && Binds(args, idx, more)
    ensures Agree(d, row, srow, args, w, idx)
  {
    ClauseMeaning(d, table, row, srow, w, idx, args);
  }

  /** On this row the folded condition is true exactly when Matches accepts. */
  ghost predicate SameRows(d: Dialect, row: Row, srow: SqlRow, args: seq<SqlVal>, where: seq<Where>, start: nat)
    requires where != []
  {
    Eval(d.engineLower, Folded(where, start), srow, args) == True <==> Matches(d.lower, row, where)
  }

  lemma {:induction false} FoldMeaning(d: Dialect, table: seq<ColumnDef>, row: Row, srow: SqlRow, where: seq<Where>,
      start: nat, args: seq<SqlVal>)
    requires DialectOk(d) && where != [] && Render(d, table, where, start).Output? && Stores(d, table, row, srow)
    requires Comparable(d, table, row, where) && Binds(args, start, Render(d, table, where, start).args)
    ensures SameRows(d, row, srow, args, where, start)
  {
    var n := |where| - 1;
    var idx, front, more := SplitArgs(d, table, where, start);
    BindsParts(args, start, front, more);
    ClauseAgrees(d, table, row, srow, where[n], idx, args, more);
    if n > 0 { FoldMeaning(d, table, row, srow, where[..n], start, args); }
    OneMoreClause(d, row, srow, args, where, start, idx);
  }

  lemma OneMoreClause(d: Dialect, row: Row, srow: SqlRow, args: seq<SqlVal>, where: seq<Where>, start: nat, idx: nat)
    requires where != [] && idx == start + TotalArity(where[..|where| - 1])
    requires Agree(d, row, srow, args, where[|where| - 1], idx)
    requires |where| > 1 ==> SameRows(d, row, srow, args, where[..|where| - 1], start)
    ensures SameRows(d, row, srow, args, where, start)
  {
    var n := |where| - 1;
    if n > 0 {
      EvalJoined(d.engineLower, Word(where[n].conn), Folded(where[..n], start), ClauseExpr(where[n], idx), srow, args);
    }
  }

  lemma EvalJoined(lower: Lower, conn: Token, e: Expr, f: Expr, srow: SqlRow, args: seq<SqlVal>)
    ensures Eval(lower, Joined(conn, e, f), srow, args) == True <==>
              if conn == OrWord then Eval(lower, e, srow, args) == True || Eval(lower, f, srow, args) == True
              else Eval(lower, e, srow, args) == True && Eval(lower, f, srow, args) == True
  {
  }

  /** The arguments are those of the earlier clauses and those of the last, which start at idx. */
  lemma SplitArgs(d: Dialect, table: seq<ColumnDef>, where: seq<Where>, start: nat)
      returns (idx: nat, front: seq<SqlVal>, more: seq<SqlVal>)
    requires where != [] && Render(d, table, where, start).Output?
    ensures Render(d, table, where, start).args == front + more
    ensures Render(d, table, where[..|where| - 1], start).Output?
    ensures Render(d, table, where[..|where| - 1], start).args == front
    ensures Clause(d, table, where[|where| - 1], idx).Output? && Clause(d, table, where[|where| - 1], idx).args == more
    ensures idx == start + |front| == start + TotalArity(where[..|where| - 1])
  {
    RenderArity(d, table, where[..|where| - 1], start);
    front := Render(d, table, where[..|where| - 1], start).args;
    idx := start + |front|;
    more := Clause(d, table, where[|where| - 1], idx).args;
  }

  lemma BindsParts(args: seq<SqlVal>, start: nat, front: seq<SqlVal>, more: seq<SqlVal>)
    requires Binds(args, start, front + more)
    ensures Binds(args, start, front) && Binds(args, start + |front|, more)
  {
    forall k | 0 <= k < |front| ensures Arg(args, start + k) == front[k] {
      assert (front + more)[k] == front[k];
    }
    forall k | 0 <= k < |more| ensures Arg(args, start + |front| + k) == more[k] {
      assert (front + more)[|front| + k] == more[k];
    }
  }

  /** The compiled text, parsed under SQL precedence and evaluated in three-valued logic with
      the k-th argument at the k-th placeholder, selects exactly the rows Matches accepts. */
  lemma WhereMeaning(d: Dialect, table: seq<ColumnDef>, row: Row, srow: SqlRow, where: seq<Where>, start: nat,
      args: seq<SqlVal>)
    requires DialectOk(d) && where != [] && Render(d, table, where, start).Output? && Stores(d, table, row, srow)
    requires Comparable(d, table, row, where) && Binds(args, start, Render(d, table, where, start).args)
    ensures ParseOr(Render(d, table, where, start).tokens) == Some((Folded(where, start), []))
    ensures SameRows(d, row, srow, args, where, start)
  {
    var tokens := Render(d, table, where, start).tokens;
    RenderReadsBack(d, table, where, start);
    assert tokens + [] == tokens && Ends([]);
    FoldMeaning(d, table, row, srow, where, start, args);
  }

  predicate Compiles(table: seq<ColumnDef>, w: Where) {
    ColumnType(table, w.field).Some? && w.op != Other
  }

  /** Compilation fails exactly when a clause names an undeclared column or operator. */
  lemma {:induction false} RenderSucceeds(d: Dialect, table: seq<ColumnDef>, where: seq<Where>, start: nat)
    ensures Render(d, table, where, start).Output? <==> forall i :: 0 <= i < |where| ==> Compiles(table, where[i])
  {
    if where != [] {
      var n := |where| - 1;
      RenderSucceeds(d, table, where[..n], start);
      assert forall i :: 0 <= i < n ==> where[..n][i] == where[i];
      if Render(d, table, where[..n], start).Output? {
        var idx := start + |Render(d, table, where[..n], start).args|;
        assert Clause(d, table, where[n], idx).Output? <==> Compiles(table, where[n]);
      }
    }
  }
}
