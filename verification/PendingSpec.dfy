/** plugins/twofactor/twofactor.go: one pending two-factor challenge over the token protocol.
    A wrong guess claims the challenge's token, then stores it again with the count advanced;
    completing claims it and mints a session. Every storage call is one event. */
module PendingSpec {
  import opened Storage
  import opened Decimals
  import opened TokenSpec

  const MAX_ATTEMPTS := 5
  const MAX_INT := 0x7fff_ffff_ffff_ffff

  // ---- the stored value: the user id, then "|" and the attempts made ----

  /** strconv.Itoa on the counts written. */
  function Itoa(n: nat): (s: string)
    ensures |s| > 0
  {
    Digits(n, 1)
  }

  /** The int that strconv.Atoi returns: zero for anything but an optionally signed decimal,
      the nearest int64 when out of range. */
  function Atoi(s: string): int {
    var digits := if s != "" && s[0] in {'+', '-'} then s[1..] else s;
    if digits == "" || !AllDigits(digits) then 0
    else
      var n: int := Decimal(digits);
      if s[0] == '-' then (if n > MAX_INT + 1 then -MAX_INT - 1 else -n)
      else if n > MAX_INT then MAX_INT
      else n
  }

  /** strings.Cut at the first separator. */
  function CutAt(s: string): nat {
    if s == "" || s[0] == '|' then 0 else 1 + CutAt(s[1..])
  }

  function ParsePending(value: string): (string, int) {
    var i := CutAt(value);
    if i >= |value| then (value, 0) else (value[..i], Atoi(value[i + 1..]))
  }

  function PendingValue(user: string, attempts: nat): string {
    user + "|" + Itoa(attempts)
  }

  lemma AtoiItoa(n: nat)
    requires n <= MAX_INT
    ensures Atoi(Itoa(n)) == n
  {
    DigitsDecimal(n, 1);
    assert IsDigit(Itoa(n)[0]);
  }

  lemma {:induction false} CutFinds(user: string, rest: string)
    ensures CutAt(user + "|" + rest) <= |user|
    ensures CutAt(user + "|" + rest) == |user| <==> '|' !in user
  {
    var s := user + "|" + rest;
    if user != "" && user[0] != '|' {
      CutFinds(user[1..], rest);
      assert s[1..] == user[1..] + "|" + rest;
      assert user == [user[0]] + user[1..];
    }
  }

  lemma {:induction false} CutMisses(user: string)
    requires '|' !in user
    ensures CutAt(user) == |user|
  {
    if user != "" {
      CutMisses(user[1..]);
    }
  }

  /** A stored count reads back exactly for the user ids without the separator. */
  lemma PendingReadsBack(user: string, attempts: nat)
    requires attempts <= MAX_INT
    ensures ParsePending(PendingValue(user, attempts)) == (user, attempts) <==> '|' !in user
    ensures '|' !in user ==> ParsePending(user) == (user, 0)
  {
    var value := PendingValue(user, attempts);
    CutFinds(user, Itoa(attempts));
    AtoiItoa(attempts);
    if '|' !in user {
      CutMisses(user);
      assert value[..|user|] == user && value[|user| + 1..] == Itoa(attempts);
    } else {
      assert |ParsePending(value).0| < |user|;
    }
  }

  lemma {:induction false} CutSplits(s: string)
    requires '|' in s
    ensures CutAt(s) < |s| && s[CutAt(s)] == '|' && '|' !in s[..CutAt(s)]
  {
    if s[0] != '|' {
      CutSplits(s[1..]);
      assert s[..CutAt(s)] == [s[0]] + s[1..][..CutAt(s[1..])];
    }
  }

  /** With the separator in the user id, every stored count reads back as zero. */
  lemma BarHidesCount(user: string, attempts: nat)
    requires '|' in user
    ensures ParsePending(PendingValue(user, attempts)).1 == 0
  {
    var value := PendingValue(user, attempts);
    CutFinds(user, Itoa(attempts));
    var i := CutAt(value);
    assert value[|user|] == '|';
    var rest := value[i + 1..];
    assert rest[|user| - i - 1] == '|';
    var digits := if rest != "" && rest[0] in {'+', '-'} then rest[1..] else rest;
    assert digits == rest || digits[|user| - i - 2] == '|';
  }

  // ---- the protocol ----

  /** An operation that claimed the challenge's token: it took the value; its wrong guess advances
      the count, first clearing the identifier and then storing it again; or it is refused for
      good, completes, or stops short after a failed call. */
  datatype Stage = Taken | Wrong(count: nat) | Cleared(count: nat) | Reinstated | Locked | Right | Minted | Stopped

  /** One challenge: its identifier, the user it is for, and the counts of the wrong guesses
      acknowledged so far, in the order they were. */
  datatype Challenge = Challenge(t: State, identifier: string, user: string, stages: map<nat, Stage>, wrong: seq<nat>)

  datatype Step =
    | Base(e: Event)                   // any token event but a store under this identifier
    | Fail(op: nat)
    | ClearOld(op: nat)
    | Reinstate(op: nat, at: int, ttl: int)
    | Complete(op: nat)
    | Mint(op: nat)
    | Stop(op: nat)                    // a failed store, or a later sign-in guard taking over

  predicate At(c: Challenge, op: nat, stage: Stage) {
    op in c.stages && c.stages[op] == stage
  }

  /** The count read from the claimed value, one further. */
  function CountAfter(c: Challenge, op: nat): int
    requires op in c.t.phases && c.t.phases[op].Served?
  {
    ParsePending(c.t.phases[op].v.value).1 + 1
  }

  predicate IsServed(c: Challenge, op: nat) {
    op in c.t.phases && c.t.phases[op].Served?
  }

  predicate StepAllowed(c: Challenge, e: Step) {
    match e
    case Base(b) => Allowed(c.t, b) && !Stores(b, c.identifier) && b != Remove(c.identifier)
    case Fail(op) => At(c, op, Taken) && IsServed(c, op) && CountAfter(c, op) >= 0
    case ClearOld(op) => op in c.stages && c.stages[op].Wrong?
    case Reinstate(op, at, _) => op in c.stages && c.stages[op].Cleared? && at <= c.t.clock
    case Complete(op) => At(c, op, Taken)
    case Mint(op) => At(c, op, Right)
    case Stop(op) => op in c.stages && (c.stages[op].Wrong? || c.stages[op].Cleared? || c.stages[op].Right?)
  }

  predicate Claims(c: Challenge, b: Event)
    requires Allowed(c.t, b)
  {
    b.Claim? && c.t.phases[b.op].id in c.t.rows && c.t.phases[b.op].v.identifier == c.identifier
  }

  function After(c: Challenge, e: Step): Challenge
    requires StepAllowed(c, e)
  {
    match e
    case Base(b) =>
      c.(t := Next(c.t, b), stages := if Claims(c, b) then c.stages[b.op := Taken] else c.stages)
    case Fail(op) =>
      var n := CountAfter(c, op);
      c.(stages := c.stages[op := if n >= MAX_ATTEMPTS then Locked else Wrong(n)], wrong := c.wrong + [n])
    case ClearOld(op) => c.(t := Next(c.t, Remove(c.identifier)), stages := c.stages[op := Cleared(c.stages[op].count)])
    case Reinstate(op, at, ttl) =>
      var value := PendingValue(c.user, c.stages[op].count);
      c.(t := Next(c.t, Create(c.identifier, value, at, ttl)), stages := c.stages[op := Reinstated])
    case Complete(op) => c.(stages := c.stages[op := Right])
    case Mint(op) => c.(stages := c.stages[op := Minted])
    case Stop(op) => c.(stages := c.stages[op := Stopped])
  }

  predicate AllSteps(c: Challenge, es: seq<Step>)
    decreases |es|
  {
    es == [] || (StepAllowed(c, es[0]) && AllSteps(After(c, es[0]), es[1..]))
  }

  function Through(c: Challenge, es: seq<Step>): Challenge
    requires AllSteps(c, es)
    decreases |es|
  {
    if es == [] then c else Through(After(c, es[0]), es[1..])
  }

  // ---- the invariant ----

  /** Operations that took the token and have not put it back. */
  function Spent(c: Challenge): set<nat> {
    set op | op in c.stages && c.stages[op] != Reinstated
  }

  function MintedBy(c: Challenge): set<nat> {
    set op | op in c.stages && c.stages[op] == Minted
  }

  /** The value stored for the number of wrong guesses so far. */
  function Current(c: Challenge): string {
    if c.wrong == [] then c.user else PendingValue(c.user, |c.wrong|)
  }

  predicate StageOk(c: Challenge, op: nat, stage: Stage) {
    && IsServed(c, op) && c.t.phases[op].v.identifier == c.identifier
    && (stage.Taken? ==> |c.wrong| < MAX_ATTEMPTS && c.t.phases[op].v.value == Current(c))
    && (stage.Wrong? || stage.Cleared? ==> 0 < |c.wrong| < MAX_ATTEMPTS && stage.count == |c.wrong|)
  }

  /** At most one of: the row, a guess between its claim and its reinstatement, a session. */
  predicate OneToken(c: Challenge) {
    |Ids(c.t.rows, c.identifier)| + |Spent(c)| <= 1
  }

  /** 1, 2, 3, ..., up to the limit. */
  predicate Counted(wrong: seq<nat>) {
    |wrong| <= MAX_ATTEMPTS && forall i :: 0 <= i < |wrong| ==> wrong[i] == i + 1
  }

  predicate Sound(c: Challenge) {
    && Inv(c.t) && '|' !in c.user && OneToken(c)
    && Counted(c.wrong)
    && (forall op :: op in Spent(c) ==> StageOk(c, op, c.stages[op]))
    && (forall id :: id in Ids(c.t.rows, c.identifier) ==> c.t.rows[id].value == Current(c) && |c.wrong| < MAX_ATTEMPTS)
  }

  lemma CountIs(c: Challenge, op: nat)
    requires Sound(c) && At(c, op, Taken)
    ensures IsServed(c, op) && CountAfter(c, op) == |c.wrong| + 1
  {
    assert op in Spent(c);
    PendingReadsBack(c.user, |c.wrong|);
  }

  /** A served operation is finished with the token protocol. */
  lemma ServedStays(t: State, b: Event, op: nat)
    requires Allowed(t, b) && op in t.phases && t.phases[op].Served?
    ensures op in Next(t, b).phases && Next(t, b).phases[op] == t.phases[op]
  {
  }

  lemma RowsOnlyLeave(t: State, b: Event, identifier: string)
    requires Inv(t) && Allowed(t, b) && !Stores(b, identifier)
    ensures Ids(Next(t, b).rows, identifier) <= Ids(t.rows, identifier)
    ensures forall id :: id in Ids(Next(t, b).rows, identifier) ==> Next(t, b).rows[id] == t.rows[id]
  {
  }

  lemma ClaimStep(c: Challenge, b: Event)
    requires Sound(c) && StepAllowed(c, Base(b)) && Claims(c, b)
    ensures Sound(After(c, Base(b)))
  {
    var d, op := After(c, Base(b)), b.op;
    var id := c.t.phases[op].id;
    InvStep(c.t, b);
    assert PhaseOk(c.t, c.t.phases[op]);
    assert id in Ids(c.t.rows, c.identifier);
    OneFewer(Ids(d.t.rows, c.identifier), Ids(c.t.rows, c.identifier), id);
    assert Spent(c) == {};
    assert Spent(d) == {op};
  }

  lemma OtherBaseStep(c: Challenge, b: Event)
    requires Sound(c) && StepAllowed(c, Base(b)) && !Claims(c, b)
    ensures Sound(After(c, Base(b)))
  {
    var d := After(c, Base(b));
    InvStep(c.t, b);
    RowsOnlyLeave(c.t, b, c.identifier);
    SubsetSize(Ids(d.t.rows, c.identifier), Ids(c.t.rows, c.identifier));
    assert Spent(d) == Spent(c);
    forall op | op in Spent(d) ensures StageOk(d, op, d.stages[op]) {
      ServedStays(c.t, b, op);
    }
  }

  /** While one operation has the token, no row is left and no other operation has it. */
  lemma Alone(c: Challenge, op: nat)
    requires Sound(c) && op in Spent(c)
    ensures Ids(c.t.rows, c.identifier) == {} && Spent(c) == {op}
  {
    var others := Spent(c) - {op};
    assert |others| == |Spent(c)| - 1;
    assert others == {};
  }

  /** Moving the one operation to another stage that keeps the token. */
  lemma StageMoves(c: Challenge, op: nat, stage: Stage)
    requires Sound(c) && op in Spent(c) && !stage.Taken? && !stage.Reinstated?
    requires stage.Wrong? || stage.Cleared? ==> 0 < |c.wrong| < MAX_ATTEMPTS && stage.count == |c.wrong|
    ensures Sound(c.(stages := c.stages[op := stage]))
  {
    var d := c.(stages := c.stages[op := stage]);
    Alone(c, op);
    assert Spent(d) == {op};
    assert StageOk(c, op, c.stages[op]);
  }

  lemma OneHolder(d: Challenge, op: nat)
    requires Inv(d.t) && '|' !in d.user && Counted(d.wrong) && Ids(d.t.rows, d.identifier) == {}
    requires Spent(d) == {op} && StageOk(d, op, d.stages[op])
    ensures Sound(d)
  {
  }

  lemma FailStep(c: Challenge, op: nat)
    requires Sound(c) && StepAllowed(c, Fail(op))
    ensures Sound(After(c, Fail(op)))
  {
    var d, n := After(c, Fail(op)), |c.wrong| + 1;
    assert op in Spent(c) && StageOk(c, op, Taken);
    CountIs(c, op);
    Alone(c, op);
    assert Spent(d) == {op};
    assert d.wrong == c.wrong + [n];
    OneHolder(d, op);
  }

  lemma ClearStep(c: Challenge, op: nat)
    requires Sound(c) && StepAllowed(c, ClearOld(op))
    ensures Sound(After(c, ClearOld(op)))
  {
    assert op in Spent(c);
    Alone(c, op);
    StageMoves(c, op, Cleared(c.stages[op].count));
    var mid := c.(stages := c.stages[op := Cleared(c.stages[op].count)]);
    InvStep(c.t, Remove(c.identifier));
    var d := After(c, ClearOld(op));
    assert Ids(d.t.rows, c.identifier) == {} && Spent(d) == Spent(mid);
    assert StageOk(mid, op, mid.stages[op]);
  }

  lemma ReinstateStep(c: Challenge, op: nat, at: int, ttl: int)
    requires Sound(c) && StepAllowed(c, Reinstate(op, at, ttl))
    ensures Sound(After(c, Reinstate(op, at, ttl)))
  {
    var d := After(c, Reinstate(op, at, ttl));
    assert op in Spent(c);
    Alone(c, op);
    assert StageOk(c, op, c.stages[op]);
    InvStep(c.t, Create(c.identifier, PendingValue(c.user, c.stages[op].count), at, ttl));
    assert Spent(d) == {};
    assert Ids(d.t.rows, c.identifier) == {|c.t.made|};
  }

  lemma SoundStep(c: Challenge, e: Step)
    requires Sound(c) && StepAllowed(c, e)
    ensures Sound(After(c, e))
  {
    match e
    case Base(b) => if Claims(c, b) { ClaimStep(c, b); } else { OtherBaseStep(c, b); }
    case Fail(op) => FailStep(c, op);
    case ClearOld(op) => ClearStep(c, op);
    case Reinstate(op, at, ttl) => ReinstateStep(c, op, at, ttl);
    case Complete(op) => StageMoves(c, op, Right);
    case Mint(op) => StageMoves(c, op, Minted);
    case Stop(op) => StageMoves(c, op, Stopped);
  }

  lemma {:induction false} SoundThrough(c: Challenge, es: seq<Step>)
    requires Sound(c) && AllSteps(c, es)
    ensures Sound(Through(c, es))
    decreases |es|
  {
    if es != [] {
      SoundStep(c, es[0]);
      SoundThrough(After(c, es[0]), es[1..]);
    }
  }

  /** The challenge as sign-in stores it, under a token nobody has used. */
  function Issue(t: State, identifier: string, user: string, at: int, ttl: int): Challenge
    requires at <= t.clock
  {
    Challenge(Next(t, Create(identifier, user, at, ttl)), identifier, user, map[], [])
  }

  lemma IssueIsSound(t: State, identifier: string, user: string, at: int, ttl: int)
    requires Inv(t) && at <= t.clock && '|' !in user && Ids(t.rows, identifier) == {}
    ensures Sound(Issue(t, identifier, user, at, ttl))
  {
    var c := Issue(t, identifier, user, at, ttl);
    InvStep(t, Create(identifier, user, at, ttl));
    assert Ids(c.t.rows, identifier) == {|t.made|} && Spent(c) == {};
  }

  /** Over every interleaving of guesses, completions and cleanup on one challenge: what is
      stored, being put back, and minted adds up to at most one, so at most one session comes
      of it; acknowledged wrong guesses are counted 1, 2, 3, ..., and there are at most five. */
  lemma OneSession(t: State, identifier: string, user: string, at: int, ttl: int, es: seq<Step>)
    requires Inv(t) && at <= t.clock && '|' !in user && Ids(t.rows, identifier) == {}
    requires AllSteps(Issue(t, identifier, user, at, ttl), es)
    ensures var c := Through(Issue(t, identifier, user, at, ttl), es);
            && |Ids(c.t.rows, identifier)| + |Spent(c)| <= 1 && MintedBy(c) <= Spent(c) && |MintedBy(c)| <= 1
            && |c.wrong| <= 5 && Counted(c.wrong)
  {
    IssueIsSound(t, identifier, user, at, ttl);
    SoundThrough(Issue(t, identifier, user, at, ttl), es);
    var c := Through(Issue(t, identifier, user, at, ttl), es);
    KeepsIdentifier(Issue(t, identifier, user, at, ttl), es);
    SubsetSize(MintedBy(c), Spent(c));
  }

  lemma {:induction false} KeepsIdentifier(c: Challenge, es: seq<Step>)
    requires AllSteps(c, es)
    ensures Through(c, es).identifier == c.identifier && Through(c, es).user == c.user
    decreases |es|
  {
    if es != [] {
      KeepsIdentifier(After(c, es[0]), es[1..]);
    }
  }
}
