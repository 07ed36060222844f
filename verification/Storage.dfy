/** Records, where clauses and their reference meaning: Matches and matchOne of
    storage/storage.go over the comparisons of storage/compare.go. */
module Storage {
  datatype Option<+T> = None | Some(value: T)

  /** The values a record can hold. Times are nanoseconds since 1970; ZERO_TIME is time.Time{}. */
  datatype Value = Nil | Str(s: string) | Bool(b: bool) | Int(n: int) | Time(t: int) | List(items: seq<Value>)

  const SECOND := 1_000_000_000
  const MINUTE := 60 * SECOND

  const ZERO_TIME: int := -62_135_596_800 * SECOND

  type Row = map<string, Value>

  datatype Operator = Default | Eq | Ne | Gt | Gte | Lt | Lte | In | Contains | StartsWith | EndsWith | Other
  datatype Connector = Unset | And | Or
  datatype Where = Where(field: string, op: Operator, value: Value, conn: Connector)

  // ---- storage/compare.go ----

  const EXACT: int := 0x20_0000_0000_0000  // 2^53

  /** The float64 nearest to n, ties to even. */
  function ToFloat(n: int): int {
    if n < 0 then 0 - Nearest(-n, false, false) else Nearest(n, false, false)
  }

  /** Halves n until it fits; half is the last bit dropped, rest whether any before it was set. */
  function Nearest(n: nat, half: bool, rest: bool): nat {
    if n < EXACT then (if half && (rest || n % 2 == 1) then n + 1 else n)
    else 2 * Nearest(n / 2, n % 2 == 1, half || rest)
  }

  predicate Equal(a: Value, b: Value) {
    if a.Int? && b.Int? then ToFloat(a.n) == ToFloat(b.n) else a == b
  }

  /** Go's < on strings: bytewise, hence code point by code point. */
  predicate StrLess(a: string, b: string) {
    b != [] && (a == [] || a[0] < b[0] || (a[0] == b[0] && StrLess(a[1..], b[1..])))
  }

  lemma {:induction false} StrOrder(a: string, b: string)
    ensures !StrLess(a, a)
    ensures StrLess(a, b) || StrLess(b, a) || a == b
    ensures !(StrLess(a, b) && StrLess(b, a))
  {
    if a != [] {
      if b == [] { StrOrder(a[1..], []); } else { StrOrder(a[1..], b[1..]); }
      if b != [] && a[0] == b[0] && a[1..] == b[1..] { assert a == [a[0]] + a[1..] && b == [b[0]] + b[1..]; }
    }
  }

  lemma {:induction false} StrTransitive(a: string, b: string, c: string)
    requires StrLess(a, b) && StrLess(b, c)
    ensures StrLess(a, c)
  {
    if a != [] && a[0] == b[0] && b[0] == c[0] { StrTransitive(a[1..], b[1..], c[1..]); }
  }

  predicate Ordered(less: bool, same: bool, op: Operator) {
    match op
    case Gt => !less && !same
    case Gte => !less
    case Lt => less
    case Lte => less || same
    case _ => false
  }

  predicate Compare(a: Value, b: Value, op: Operator) {
    match (a, b)
    case (Time(t), Time(u)) => Ordered(t < u, t == u, op)
    case (Int(m), Int(n)) => Ordered(ToFloat(m) < ToFloat(n), ToFloat(m) == ToFloat(n), op)
    case (Str(s), Str(t)) => Ordered(StrLess(s, t), s == t, op)
    case _ => false
  }

  predicate HasPrefix(t: string, p: string) {
    |p| <= |t| && t[..|p|] == p
  }

  predicate HasSuffix(t: string, p: string) {
    |p| <= |t| && t[|t| - |p|..] == p
  }

  predicate HasSubstring(t: string, p: string) {
    exists i :: 0 <= i <= |t| && HasPrefix(t[i..], p)
  }

  /** str: a missing or non-string value reads as the empty string. */
  function Text(v: Value): string {
    if v.Str? then v.s else ""
  }

  // ---- storage/storage.go ----

  /** strings.ToLower, which this model does not look into. */
  type Lower = string -> string

  function Field(row: Row, name: string): Value {
    if name in row then row[name] else Nil
  }

  predicate Member(v: Value, items: seq<Value>) {
    exists i :: 0 <= i < |items| && Equal(v, items[i])
  }

  predicate MatchOne(lower: Lower, row: Row, w: Where) {
    var v := Field(row, w.field);
    match w.op
    case Default => Equal(v, w.value)
    case Eq => Equal(v, w.value)
    case Ne => !Equal(v, w.value)
    case In => w.value.List? && Member(v, w.value.items)
    case Contains => HasSubstring(lower(Text(v)), lower(Text(w.value)))
    case StartsWith => HasPrefix(lower(Text(v)), lower(Text(w.value)))
    case EndsWith => HasSuffix(lower(Text(v)), lower(Text(w.value)))
    case Other => false
    case _ => Compare(v, w.value, w.op)
  }

  /** The left fold of the clauses: each joins everything before it. */
  predicate Matches(lower: Lower, row: Row, where: seq<Where>) {
    if where == [] then true
    else
      var n := |where| - 1;
      var last := MatchOne(lower, row, where[n]);
      if n == 0 then last
      else if where[n].conn == Or then Matches(lower, row, where[..n]) || last
      else Matches(lower, row, where[..n]) && last
  }

  /** Matches as the source computes it. */
  method EvalMatches(lower: Lower, row: Row, where: seq<Where>) returns (result: bool)
    ensures result == Matches(lower, row, where)
  {
    if |where| == 0 {
      return true;
    }
    result := true;
    var first := true;
    for i := 0 to |where|
      invariant first == (i == 0)
      invariant result == Matches(lower, row, where[..i])
    {
      var ok := MatchOne(lower, row, where[i]);
      assert where[..i + 1][..i] == where[..i];
      if first {
        result, first := ok, false;
      } else if where[i].conn == Or {
        result := result || ok;
      } else {
        result := result && ok;
      }
    }
    assert where[..|where|] == where;
  }

  /** Integers up to 2^53 are compared exactly ... */
  lemma SmallIntsExact(m: int, n: int)
    requires -EXACT <= m <= EXACT && -EXACT <= n <= EXACT
    ensures Equal(Int(m), Int(n)) <==> m == n
    ensures ToFloat(m) < ToFloat(n) <==> m < n
  {
    SmallIntExact(m);
    SmallIntExact(n);
  }

  lemma SmallIntExact(n: int)
    requires -EXACT <= n <= EXACT
    ensures ToFloat(n) == n
  {
  }

  /** ... and the next one is not: it equals its neighbour. */
  lemma LargeIntsCollide()
    ensures Equal(Int(EXACT + 1), Int(EXACT))
  {
    var h := EXACT / 2;
    assert h % 2 == 0 && (EXACT + 1) / 2 == h && (EXACT + 1) % 2 == 1;
    assert Nearest(h, true, false) == h && Nearest(h, false, false) == h;
    assert Nearest(EXACT + 1, false, false) == 2 * Nearest(h, true, false);
    assert Nearest(EXACT, false, false) == 2 * Nearest(h, false, false);
  }
}
