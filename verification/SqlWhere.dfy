/** The where-clause compiler of storage/sqlstore/sqlstore.go: lexemes out, with a parser
    and a three-valued meaning to read them back. */
module SqlWhere {
  import opened Storage
  import opened SqlLike
  import Timestamps

  // ---- the engine's side: values, lexemes, expressions ----

  datatype SqlVal = Null | SText(s: string) | SInt(n: int) | STime(t: int) | SBool(b: bool) | Unsupported

  datatype Truth = True | False | Unknown

  datatype Relation = EqRel | NeRel | GtRel | GteRel | LtRel | LteRel

  datatype Token =
    | Open | Close | Comma | AndWord | OrWord
    | Column(name: string)
    | Hole(index: nat)
    | Rel(rel: Relation)
    | IsNullWords | IsNotNullWords | InWord | LowerWord | LikeWord | EscapeWords | OneEqualsZero

  datatype Expr =
    | Compared(col: string, rel: Relation, hole: nat)
    | IsNull(col: string)
    | IsNotNull(col: string)
    | InHoles(col: string, holes: seq<nat>)
    | LikeHole(col: string, hole: nat)
    | Never
    | Both(left: Expr, right: Expr)
    | Either(left: Expr, right: Expr)

  // ---- parsing: AND binds tighter than OR, both to the left ----

  type Parsed<T> = Option<(T, seq<Token>)>

  predicate Starts(ts: seq<Token>, t: Token) {
    ts != [] && ts[0] == t
  }

  function ParseOr(ts: seq<Token>): (r: Parsed<Expr>)
    ensures r.Some? ==> |r.value.1| < |ts|
    decreases |ts|, 4
  {
    match ParseAnd(ts)
    case None => None
    case Some((e, rest)) => OrTail(e, rest)
  }

  function OrTail(e: Expr, ts: seq<Token>): (r: Parsed<Expr>)
    ensures r.Some? ==> |r.value.1| <= |ts|
    decreases |ts|, 3
  {
    if !Starts(ts, OrWord) then Some((e, ts))
    else
      match ParseAnd(ts[1..])
      case None => None
      case Some((f, rest)) => OrTail(Either(e, f), rest)
  }

  function ParseAnd(ts: seq<Token>): (r: Parsed<Expr>)
    ensures r.Some? ==> |r.value.1| < |ts|
    decreases |ts|, 2
  {
    match ParsePrimary(ts)
    case None => None
    case Some((e, rest)) => AndTail(e, rest)
  }

  function AndTail(e: Expr, ts: seq<Token>): (r: Parsed<Expr>)
    ensures r.Some? ==> |r.value.1| <= |ts|
    decreases |ts|, 1
  {
    if !Starts(ts, AndWord) then Some((e, ts))
    else
      match ParsePrimary(ts[1..])
      case None => None
      case Some((f, rest)) => AndTail(Both(e, f), rest)
  }

  function ParsePrimary(ts: seq<Token>): (r: Parsed<Expr>)
    ensures r.Some? ==> |r.value.1| < |ts|
    decreases |ts|, 0
  {
    if ts == [] then None
    else if ts[0] == Open then
      match ParseOr(ts[1..])
      case None => None
      case Some((e, rest)) => if Starts(rest, Close) then Some((e, rest[1..])) else None
    else ParseAtom(ts)
  }

  /** col = ?, col IS NULL, col IN (?, ...), LOWER(col) LIKE ? ESCAPE '!', 1=0. */
  function ParseAtom(ts: seq<Token>): (r: Parsed<Expr>)
    ensures r.Some? ==> |r.value.1| < |ts|
  {
    if Starts(ts, OneEqualsZero) then Some((Never, ts[1..]))
    else if |ts| >= 7 && ts[0] == LowerWord && ts[1] == Open && ts[2].Column? && ts[3] == Close && ts[4] == LikeWord &&
        ts[5].Hole? && ts[6] == EscapeWords then
      Some((LikeHole(ts[2].name, ts[5].index), ts[7..]))
    else if |ts| >= 2 && ts[0].Column? && ts[1] == IsNullWords then Some((IsNull(ts[0].name), ts[2..]))
    else if |ts| >= 2 && ts[0].Column? && ts[1] == IsNotNullWords then Some((IsNotNull(ts[0].name), ts[2..]))
    else if |ts| >= 3 && ts[0].Column? && ts[1].Rel? && ts[2].Hole? then
        Some((Compared(ts[0].name, ts[1].rel, ts[2].index), ts[3..]))
    else if |ts| >= 4 && ts[0].Column? && ts[1] == InWord && ts[2] == Open && ts[3].Hole? then
      match ParseHoles([ts[3].index], ts[4..])
      case None => None
      case Some((holes, rest)) => Some((InHoles(ts[0].name, holes), rest))
    else None
  }

  function ParseHoles(seen: seq<nat>, ts: seq<Token>): (r: Parsed<seq<nat>>)
    ensures r.Some? ==> |r.value.1| < |ts|
    decreases |ts|
  {
    if Starts(ts, Close) then Some((seen, ts[1..]))
    else if |ts| >= 2 && ts[0] == Comma && ts[1].Hole? then ParseHoles(seen + [ts[1].index], ts[2..])
    else None
  }

  // ---- meaning ----

  function And3(a: Truth, b: Truth): Truth {
    if a == False || b == False then False else if a == True && b == True then True else Unknown
  }

  function Or3(a: Truth, b: Truth): Truth {
    if a == True || b == True then True else if a == False && b == False then False else Unknown
  }

  function OfBool(b: bool): Truth {
    if b then True else False
  }

  function Decide(less: bool, same: bool, rel: Relation): Truth {
    OfBool(match rel
           case EqRel => same
           case NeRel => !same
           case GtRel => !less && !same
           case GteRel => !less
           case LtRel => less
           case LteRel => less || same)
  }

  /** Comparison of two column values; NULL is unknown, text is in binary order. */
  function SqlCompare(a: SqlVal, rel: Relation, b: SqlVal): Truth {
    match (a, b)
    case (SText(s), SText(t)) => Decide(StrLess(s, t), s == t, rel)
    case (SInt(m), SInt(n)) => Decide(m < n, m == n, rel)
    case (STime(t), STime(u)) => Decide(t < u, t == u, rel)
    case (SBool(p), SBool(q)) => Decide(!p && q, p == q, rel)
    case _ => Unknown
  }

  type SqlRow = map<string, SqlVal>

  function Cell(row: SqlRow, name: string): SqlVal {
    if name in row then row[name] else Null
  }

  /** Argument number k, counted from 1. */
  function Arg(args: seq<SqlVal>, k: nat): SqlVal {
    if 1 <= k <= |args| then args[k - 1] else Null
  }

  function AnyEqual(v: SqlVal, holes: seq<nat>, args: seq<SqlVal>): Truth {
    if holes == [] then False
    else Or3(AnyEqual(v, holes[..|holes| - 1], args), SqlCompare(v, EqRel, Arg(args, holes[|holes| - 1])))
  }

  /** The value of a condition on a row, lower being the engine's LOWER. */
  function Eval(lower: Lower, e: Expr, row: SqlRow, args: seq<SqlVal>): Truth {
    match e
    case Compared(col, rel, hole) => SqlCompare(Cell(row, col), rel, Arg(args, hole))
    case IsNull(col) => OfBool(Cell(row, col) == Null)
    case IsNotNull(col) => OfBool(Cell(row, col) != Null)
    case InHoles(col, holes) => AnyEqual(Cell(row, col), holes, args)
    case LikeHole(col, hole) =>
      var v, p := Cell(row, col), Arg(args, hole);
      if v.SText? && p.SText? then OfBool(Like(p.s, lower(v.s))) else Unknown
    case Never => False
    case Both(l, r) => And3(Eval(lower, l, row, args), Eval(lower, r, row, args))
    case Either(l, r) => Or3(Eval(lower, l, row, args), Eval(lower, r, row, args))
  }

  // ---- the compiler's side ----

  datatype FieldType = StringField | BoolField | IntField | TimeField | TextField
  datatype ColumnDef = ColumnDef(name: string, ftype: FieldType)

  /** The parts of a dialect that reach a where clause: whether it is SQLite, the engine's
      LOWER, and on Go's side strings.ToLower and fmt.Sprint of non-strings. */
  datatype Dialect = Dialect(sqlite: bool, engineLower: Lower, lower: Lower, sprint: Value -> string)

  function ColumnType(table: seq<ColumnDef>, name: string): Option<FieldType> {
    if table == [] then None
    else if table[0].name == name then Some(table[0].ftype)
    else ColumnType(table[1..], name)
  }

  function Raw(v: Value): SqlVal {
    match v
    case Nil => Null
    case Str(s) => SText(s)
    case Bool(b) => SBool(b)
    case Int(n) => SInt(n)
    case Time(t) => STime(t)
    case List(_) => Unsupported
  }

  /** encode: the driver value of v in a column of type f. */
  function Encode(d: Dialect, f: FieldType, v: Value): SqlVal {
    if f.TimeField? && v.Time? then
      if v.t == ZERO_TIME then Null else if d.sqlite then SText(Timestamps.Layout(v.t)) else STime(v.t)
    else if f.BoolField? && v.Bool? && d.sqlite then SInt(if v.b then 1 else 0)
    else Raw(v)
  }

  /** A driver value as it stands. */
  function AsIs(v: SqlVal): Value {
    match v
    case SText(s) => Str(s)
    case SInt(n) => Int(n)
    case STime(t) => Time(t)
    case SBool(b) => Bool(b)
    case _ => Nil
  }

  /** decode: the value a column of type f is read back as; other is what parseTime makes of texts
      in another layout. */
  function Decode(f: FieldType, v: SqlVal, other: string -> int): Value {
    match (f, v)
    case (TimeField, SText(s)) =>
      var t := Timestamps.ParseLayout(s);
      Time(if t.Some? then t.value else other(s))
    case (BoolField, SInt(n)) => Bool(n != 0)
    case _ => AsIs(v)
  }

  function Sprint(d: Dialect, v: Value): string {
    if v.Str? then v.s else d.sprint(v)
  }

  datatype Output = Output(tokens: seq<Token>, args: seq<SqlVal>) | UnknownField | UnsupportedOperator

  function RelationOf(op: Operator): Relation {
    match op
    case Gt => GtRel
    case Gte => GteRel
    case Lt => LtRel
    case Lte => LteRel
    case Ne => NeRel
    case _ => EqRel
  }

  /** Holes idx, idx+1, ..., n of them, each behind a comma. */
  function HoleTail(idx: nat, n: nat): seq<Token>
    decreases n
  {
    if n == 0 then [] else [Comma, Hole(idx)] + HoleTail(idx + 1, n - 1)
  }

  function InList(col: Token, idx: nat, n: nat): seq<Token>
    requires n > 0
  {
    [col, InWord, Open, Hole(idx)] + HoleTail(idx + 1, n - 1) + [Close]
  }

  predicate Substring(op: Operator) {
    op == Contains || op == StartsWith || op == EndsWith
  }

  function EncodeAll(d: Dialect, f: FieldType, vs: seq<Value>): (r: seq<SqlVal>)
    ensures |r| == |vs|
  {
    seq(|vs|, i requires 0 <= i < |vs| => Encode(d, f, vs[i]))
  }

  function Pattern(op: Operator, s: string): string {
    if op == Contains then "%" + (Escape(s) + "%") else if op == StartsWith then Escape(s) + "%" else "%" + Escape(s)
  }

  /** One clause, its first placeholder numbered idx. */
  function Clause(d: Dialect, table: seq<ColumnDef>, w: Where, idx: nat): Output {
    match ColumnType(table, w.field)
    case None => UnknownField
    case Some(f) =>
      var col := Column(w.field);
      match w.op
      case Other => UnsupportedOperator
      case In =>
        if !w.value.List? || w.value.items == [] then Output([OneEqualsZero], [])
        else Output(InList(col, idx, |w.value.items|), EncodeAll(d, f, w.value.items))
      case _ =>
        if Substring(w.op) then
          Output([LowerWord, Open, col, Close, LikeWord, Hole(idx), EscapeWords],
              [SText(Pattern(w.op, d.lower(Sprint(d, w.value))))])
        else if w.value.Nil? && (w.op == Default || w.op == Eq) then Output([col, IsNullWords], [])
        else if w.value.Nil? && w.op == Ne then Output([col, IsNotNullWords], [])
        else Output([col, Rel(RelationOf(w.op)), Hole(idx)], [Encode(d, f, w.value)])
  }

  function Word(conn: Connector): Token {
    if conn == Or then OrWord else AndWord
  }

  /** The last clause joined to the parenthesised rest; alone when it is the first. */
  function Wrapped(first: bool, acc: seq<Token>, conn: Token, expr: seq<Token>): seq<Token> {
    if first then expr else [Open] + acc + [Close, conn] + expr
  }

  /** One more clause after the text so far. */
  function RenderNext(d: Dialect, table: seq<ColumnDef>, front: Output, w: Where, start: nat, first: bool): Output {
    if !front.Output? then front
    else
      var clause := Clause(d, table, w, start + |front.args|);
      if !clause.Output? then clause
      else Output(Wrapped(first, front.tokens, Word(w.conn), clause.tokens), front.args + clause.args)
  }

  /** The clauses folded left, everything so far in parentheses; no text for no clauses. */
  function Render(d: Dialect, table: seq<ColumnDef>, where: seq<Where>, start: nat): Output {
    if where == [] then Output([], [])
    else RenderNext(d, table, Render(d, table, where[..|where| - 1], start), where[|where| - 1], start, |where| == 1)
  }

  // ---- the text reads back as the fold ----

  function Range(idx: nat, n: nat): seq<nat> {
    seq(n, i requires 0 <= i < n => idx + i)
  }

  /** The condition a clause stands for. */
  function ClauseExpr(w: Where, idx: nat): Expr {
    if w.op == In then
      if !w.value.List? || w.value.items == [] then Never else InHoles(w.field, Range(idx, |w.value.items|))
    else if Substring(w.op) then LikeHole(w.field, idx)
    else if w.value.Nil? && (w.op == Default || w.op == Eq) then IsNull(w.field)
    else if w.value.Nil? && w.op == Ne then IsNotNull(w.field)
    else Compared(w.field, RelationOf(w.op), idx)
  }

  /** How many arguments a clause takes. */
  function Arity(w: Where): nat {
    if w.op == In then (if w.value.List? then |w.value.items| else 0)
    else if !Substring(w.op) && w.value.Nil? && (w.op == Default || w.op == Eq || w.op == Ne) then 0
    else 1
  }

  function TotalArity(where: seq<Where>): nat {
    if where == [] then 0 else TotalArity(where[..|where| - 1]) + Arity(where[|where| - 1])
  }

  /** The left fold: each clause joins everything before it by its own connector. */
  function Folded(where: seq<Where>, start: nat): Expr
    requires where != []
  {
    var n := |where| - 1;
    var last := ClauseExpr(where[n], start + TotalArity(where[..n]));
    if n == 0 then last
    else Joined(Word(where[n].conn), Folded(where[..n], start), last)
  }

  lemma {:induction false} HolesReadBack(seen: seq<nat>, idx: nat, n: nat, suffix: seq<Token>)
    ensures ParseHoles(seen, HoleTail(idx, n) + [Close] + suffix) == Some((seen + Range(idx, n), suffix))
    decreases n
  {
    var ts := HoleTail(idx, n) + [Close] + suffix;
    if n == 0 {
      assert ts == [Close] + suffix;
      assert seen + Range(idx, 0) == seen;
    } else {
      assert ts == [Comma, Hole(idx)] + (HoleTail(idx + 1, n - 1) + [Close] + suffix);
      HolesReadBack(seen + [idx], idx + 1, n - 1, suffix);
      assert seen + [idx] + Range(idx + 1, n - 1) == seen + Range(idx, n);
    }
  }

  /** Nothing that could continue a condition follows. */
  predicate Ends(suffix: seq<Token>) {
    suffix == [] || suffix[0] == Close
  }

  /** Whatever follows, the lexemes read as the operand e and no further. */
  ghost predicate ReadsAsOperand(tokens: seq<Token>, e: Expr) {
    forall suffix :: ParsePrimary(tokens + suffix) == Some((e, suffix))
  }

  /** At the end of a text or a parenthesis, the lexemes read as the condition e. */
  ghost predicate ReadsAs(tokens: seq<Token>, e: Expr) {
    forall suffix :: Ends(suffix) ==> ParseOr(tokens + suffix) == Some((e, suffix))
  }

  lemma InReadsBack(col: string, idx: nat, n: nat)
    requires n > 0
    ensures ReadsAsOperand(InList(Column(col), idx, n), InHoles(col, Range(idx, n)))
  {
    forall suffix
        ensures ParsePrimary(InList(Column(col), idx, n) + suffix) == Some((InHoles(col, Range(idx, n)), suffix)) {
      var ts := InList(Column(col), idx, n) + suffix;
      assert ts == [Column(col), InWord, Open, Hole(idx)] + (HoleTail(idx + 1, n - 1) + [Close] + suffix);
      HolesReadBack([idx], idx + 1, n - 1, suffix);
      assert [idx] + Range(idx + 1, n - 1) == Range(idx, n);
    }
  }

  lemma ClauseReadsBack(d: Dialect, table: seq<ColumnDef>, w: Where, idx: nat)
    requires Clause(d, table, w, idx).Output?
    ensures ReadsAsOperand(Clause(d, table, w, idx).tokens, ClauseExpr(w, idx))
  {
    if w.op == In && w.value.List? && w.value.items != [] {
      InReadsBack(w.field, idx, |w.value.items|);
    }
  }

  lemma ClauseArity(d: Dialect, table: seq<ColumnDef>, w: Where, idx: nat)
    requires Clause(d, table, w, idx).Output?
    ensures |Clause(d, table, w, idx).args| == Arity(w)
  {
  }

  lemma PrimaryIsOr(ts: seq<Token>, e: Expr, suffix: seq<Token>)
    requires ParsePrimary(ts) == Some((e, suffix)) && Ends(suffix)
    ensures ParseAnd(ts) == Some((e, suffix)) && ParseOr(ts) == Some((e, suffix))
  {
    assert AndTail(e, suffix) == Some((e, suffix));
    assert OrTail(e, suffix) == Some((e, suffix));
  }

  lemma PrimaryAndPrimary(ts: seq<Token>, e: Expr, more: seq<Token>, f: Expr, suffix: seq<Token>)
    requires ParsePrimary(ts) == Some((e, [AndWord] + more)) && ParsePrimary(more) == Some((f, suffix)) && Ends(suffix)
    ensures ParseOr(ts) == Some((Both(e, f), suffix))
  {
    assert ([AndWord] + more)[1..] == more;
    assert AndTail(Both(e, f), suffix) == Some((Both(e, f), suffix));
    assert AndTail(e, [AndWord] + more) == Some((Both(e, f), suffix));
    assert ParseAnd(ts) == Some((Both(e, f), suffix));
  }

  lemma PrimaryOrPrimary(ts: seq<Token>, e: Expr, more: seq<Token>, f: Expr, suffix: seq<Token>)
    requires ParsePrimary(ts) == Some((e, [OrWord] + more)) && ParsePrimary(more) == Some((f, suffix)) && Ends(suffix)
    ensures ParseOr(ts) == Some((Either(e, f), suffix))
  {
    assert ([OrWord] + more)[1..] == more;
    assert AndTail(e, [OrWord] + more) == Some((e, [OrWord] + more));
    assert ParseAnd(ts) == Some((e, [OrWord] + more));
    PrimaryIsOr(more, f, suffix);
    assert OrTail(Either(e, f), suffix) == Some((Either(e, f), suffix));
    assert OrTail(e, [OrWord] + more) == Some((Either(e, f), suffix));
  }

  lemma Parenthesised(ts: seq<Token>, inner: seq<Token>, e: Expr, rest: seq<Token>)
    requires ts == [Open] + inner && ParseOr(inner) == Some((e, [Close] + rest))
    ensures ParsePrimary(ts) == Some((e, rest))
  {
    assert ts[1..] == inner && ([Close] + rest)[1..] == rest;
  }

  lemma OperandReads(tokens: seq<Token>, e: Expr)
    requires ReadsAsOperand(tokens, e)
    ensures ReadsAs(tokens, e)
  {
    forall suffix | Ends(suffix) ensures ParseOr(tokens + suffix) == Some((e, suffix)) {
      PrimaryIsOr(tokens + suffix, e, suffix);
    }
  }

  function Joined(conn: Token, e: Expr, f: Expr): Expr {
    if conn == OrWord then Either(e, f) else Both(e, f)
  }

  lemma JoinReadsBack(acc: seq<Token>, e: Expr, conn: Token, expr: seq<Token>, f: Expr, suffix: seq<Token>,
      rest: seq<Token>)
    requires (conn == OrWord || conn == AndWord) && rest == [conn] + (expr + suffix)
    requires ParseOr(acc + ([Close] + rest)) == Some((e, [Close] + rest))
    requires ParsePrimary(expr + suffix) == Some((f, suffix)) && Ends(suffix)
    ensures ParseOr([Open] + acc + [Close, conn] + expr + suffix) == Some((Joined(conn, e, f), suffix))
  {
    var ts := [Open] + acc + [Close, conn] + expr + suffix;
    assert ts == [Open] + (acc + ([Close] + rest));
    Parenthesised(ts, acc + ([Close] + rest), e, rest);
    if conn == OrWord {
      PrimaryOrPrimary(ts, e, expr + suffix, f, suffix);
    } else {
      PrimaryAndPrimary(ts, e, expr + suffix, f, suffix);
    }
  }

  lemma JoinReads(acc: seq<Token>, e: Expr, conn: Token, expr: seq<Token>, f: Expr)
    requires conn == OrWord || conn == AndWord
    requires ReadsAs(acc, e) && ReadsAsOperand(expr, f)
    ensures ReadsAs([Open] + acc + [Close, conn] + expr, Joined(conn, e, f))
  {
    forall suffix | Ends(suffix)
      ensures ParseOr([Open] + acc + [Close, conn] + expr + suffix) == Some((Joined(conn, e, f), suffix))
    {
      JoinReadsBack(acc, e, conn, expr, f, suffix, [conn] + (expr + suffix));
    }
  }

  lemma {:induction false} RenderArity(d: Dialect, table: seq<ColumnDef>, where: seq<Where>, start: nat)
    requires Render(d, table, where, start).Output?
    ensures |Render(d, table, where, start).args| == TotalArity(where)
  {
    if where != [] {
      var n := |where| - 1;
      RenderArity(d, table, where[..n], start);
      ClauseArity(d, table, where[n], start + |Render(d, table, where[..n], start).args|);
    }
  }

  /** The text of the clauses before the last, and of the last, whose arguments start at idx. */
  lemma RenderSplits(d: Dialect, table: seq<ColumnDef>, where: seq<Where>, start: nat)
      returns (idx: nat, acc: seq<Token>, expr: seq<Token>)
    requires where != [] && Render(d, table, where, start).Output?
    ensures Render(d, table, where[..|where| - 1], start).Output?
    ensures Render(d, table, where[..|where| - 1], start).tokens == acc
    ensures idx == start + TotalArity(where[..|where| - 1])
    ensures Clause(d, table, where[|where| - 1], idx).Output?
    ensures Clause(d, table, where[|where| - 1], idx).tokens == expr
    ensures Render(d, table, where, start).tokens == Wrapped(|where| == 1, acc, Word(where[|where| - 1].conn), expr)
    ensures |where| == 1 ==> acc == []
  {
    var front := where[..|where| - 1];
    RenderArity(d, table, front, start);
    idx := start + TotalArity(front);
    acc := Render(d, table, front, start).tokens;
    expr := Clause(d, table, where[|where| - 1], idx).tokens;
  }

  lemma LastReads(d: Dialect, table: seq<ColumnDef>, where: seq<Where>, start: nat)
      returns (idx: nat, acc: seq<Token>, expr: seq<Token>)
    requires where != [] && Render(d, table, where, start).Output?
    ensures Render(d, table, where[..|where| - 1], start).Output?
    ensures Render(d, table, where[..|where| - 1], start).tokens == acc
    ensures Render(d, table, where, start).tokens == Wrapped(|where| == 1, acc, Word(where[|where| - 1].conn), expr)
    ensures idx == start + TotalArity(where[..|where| - 1]) && ReadsAsOperand(expr, ClauseExpr(where[|where| - 1], idx))
  {
    idx, acc, expr := RenderSplits(d, table, where, start);
    ClauseTextReads(d, table, where[|where| - 1], idx, expr);
  }

  lemma ClauseTextReads(d: Dialect, table: seq<ColumnDef>, w: Where, idx: nat, expr: seq<Token>)
    requires Clause(d, table, w, idx).Output? && Clause(d, table, w, idx).tokens == expr
    ensures ReadsAsOperand(expr, ClauseExpr(w, idx))
  {
    ClauseReadsBack(d, table, w, idx);
  }

  lemma FoldedStep(where: seq<Where>, start: nat)
    requires where != []
    ensures var n := |where| - 1; var e := ClauseExpr(where[n], start + TotalArity(where[..n]));
            Folded(where, start) == if n == 0 then e else Joined(Word(where[n].conn), Folded(where[..n], start), e)
  {
  }

  /** Parsed with AND binding tighter than OR, the text is the left fold of the clauses. */
  lemma {:induction false} RenderReadsBack(d: Dialect, table: seq<ColumnDef>, where: seq<Where>, start: nat)
    requires where != [] && Render(d, table, where, start).Output?
    ensures ReadsAs(Render(d, table, where, start).tokens, Folded(where, start))
  {
    var n := |where| - 1;
    var w := where[n];
    var idx, acc, expr := LastReads(d, table, where, start);
    FoldedStep(where, start);
    if n == 0 {
      OperandReads(expr, ClauseExpr(w, idx));
    } else {
      RenderReadsBack(d, table, where[..n], start);
      WrappedReads(acc, Folded(where[..n], start), Word(w.conn), expr, ClauseExpr(w, idx));
    }
  }

  lemma WrappedReads(acc: seq<Token>, e: Expr, conn: Token, expr: seq<Token>, f: Expr)
    requires conn == AndWord || conn == OrWord
    requires ReadsAs(acc, e) && ReadsAsOperand(expr, f)
    ensures ReadsAs(Wrapped(false, acc, conn, expr), Joined(conn, e, f))
  {
    JoinReads(acc, e, conn, expr, f);
  }
}
