/** token.go and store.go: one-time tokens as a protocol. Every storage call is one atomic event,
    and the events of any number of operations interleave. */
module TokenSpec {
  import opened Storage

  datatype Verification = Verification(identifier: string, value: string, expiresAt: int, createdAt: int)

  /** How far one LookupToken or ConsumeToken has come: it has read the rows of its identifier;
      it holds the row it will claim; it found none live at `at` and will delete the expired
      ones; its delete removed the row and the value is handed over; or it was refused. */
  datatype Phase =
    | Reading(identifier: string, found: map<nat, Verification>)
    | Holding(id: nat, v: Verification)
    | Sweeping(identifier: string, at: int)
    | Served(id: nat, v: Verification)
    | Refused

  datatype Grant = Grant(op: nat, id: nat, v: Verification)

  /** made[id] is the row as created under id; rows are those still stored. */
  datatype State = State(clock: int, rows: map<nat, Verification>, made: seq<Verification>, phases: map<nat, Phase>,
      grants: seq<Grant>)

  datatype Event =
    | Tick(to: int)
    | Create(identifier: string, value: string, at: int, ttl: int)
    | Remove(identifier: string)
    | Read(op: nat, identifier: string)
    | Decide(op: nat, chosen: Option<nat>)
    | Sweep(op: nat)
    | Claim(op: nat)
    | ClaimLost(op: nat)  // the delete took effect but its answer was lost
    | Cleanup(at: int)

  predicate Live(v: Verification, now: int) {
    v.expiresAt > now
  }

  /** The rows of an identifier. */
  function Under(rows: map<nat, Verification>, identifier: string): map<nat, Verification> {
    map id | id in rows && rows[id].identifier == identifier :: rows[id]
  }

  /** A latest live row, or none when none is live. */
  predicate IsLatest(found: map<nat, Verification>, now: int, chosen: Option<nat>) {
    match chosen
    case None => forall id :: id in found ==> !Live(found[id], now)
    case Some(c) =>
        c in found && Live(found[c], now) &&
            forall id :: id in found && Live(found[id], now) ==> found[id].createdAt <= found[c].createdAt
  }

  predicate InPhase(s: State, op: nat) {
    op in s.phases
  }

  /** A clock reading used by a call was taken before it. */
  predicate Allowed(s: State, e: Event) {
    match e
    case Tick(to) => s.clock <= to
    case Create(_, _, at, _) => at <= s.clock
    case Remove(_) => true
    case Read(op, _) => !InPhase(s, op) || s.phases[op].Holding? || s.phases[op].Refused?
    case Decide(op, chosen) => InPhase(s, op) && s.phases[op].Reading? && IsLatest(s.phases[op].found, s.clock, chosen)
    case Sweep(op) => InPhase(s, op) && s.phases[op].Sweeping?
    case Claim(op) => InPhase(s, op) && s.phases[op].Holding?
    case ClaimLost(op) => InPhase(s, op) && s.phases[op].Holding?
    case Cleanup(at) => at <= s.clock
  }

  function WithoutExpired(rows: map<nat, Verification>, at: int): map<nat, Verification> {
    map id | id in rows && Live(rows[id], at) :: rows[id]
  }

  function WithoutExpiredUnder(rows: map<nat, Verification>, identifier: string, at: int): map<nat, Verification> {
    map id | id in rows && (rows[id].identifier != identifier || Live(rows[id], at)) :: rows[id]
  }

  function WithoutIdentifier(rows: map<nat, Verification>, identifier: string): map<nat, Verification> {
    map id | id in rows && rows[id].identifier != identifier :: rows[id]
  }

  function Next(s: State, e: Event): State
    requires Allowed(s, e)
  {
    match e
    case Tick(to) => s.(clock := to)
    case Create(identifier, value, at, ttl) =>
      var v := Verification(identifier, value, at + ttl, at);
      s.(rows := s.rows[|s.made| := v], made := s.made + [v])
    case Remove(identifier) => s.(rows := WithoutIdentifier(s.rows, identifier))
    case Read(op, identifier) => s.(phases := s.phases[op := Reading(identifier, Under(s.rows, identifier))])
    case Decide(op, chosen) =>
      var p := s.phases[op];
      s.(phases := s.phases[op := if chosen.Some? then Holding(chosen.value, p.found[chosen.value])
          else Sweeping(p.identifier, s.clock)])
    case Sweep(op) =>
      var p := s.phases[op];
      s.(rows := WithoutExpiredUnder(s.rows, p.identifier, p.at), phases := s.phases[op := Refused])
    case Claim(op) =>
      var p := s.phases[op];
      if p.id in s.rows then
        s.(rows := s.rows - {p.id}, phases := s.phases[op := Served(p.id, p.v)],
            grants := s.grants + [Grant(op, p.id, p.v)])
      else s.(phases := s.phases[op := Refused])
    case ClaimLost(op) => s.(rows := s.rows - {s.phases[op].id}, phases := s.phases[op := Refused])
    case Cleanup(at) => s.(rows := WithoutExpired(s.rows, at))
  }

  predicate AllAllowed(s: State, es: seq<Event>)
    decreases |es|
  {
    es == [] || (Allowed(s, es[0]) && AllAllowed(Next(s, es[0]), es[1..]))
  }

  function Run(s: State, es: seq<Event>): State
    requires AllAllowed(s, es)
    decreases |es|
  {
    if es == [] then s else Run(Next(s, es[0]), es[1..])
  }

  function Start(clock: int): State {
    State(clock, map[], [], map[], [])
  }

  // ---- the invariant ----

  predicate Made(s: State, id: nat, v: Verification) {
    id < |s.made| && s.made[id] == v
  }

  predicate PhaseOk(s: State, p: Phase) {
    match p
    case Reading(identifier, found) =>
        forall id :: id in found ==> Made(s, id, found[id]) && found[id].identifier == identifier
    case Holding(id, v) => Made(s, id, v)
    case Sweeping(_, at) => at <= s.clock
    case Served(id, v) => Made(s, id, v)
    case Refused => true
  }

  /** Stored and handed-over rows are rows as created; a row handed over is gone, and no two
      operations were handed the same row. */
  predicate Inv(s: State) {
    && (forall id :: id in s.rows ==> Made(s, id, s.rows[id]))
    && (forall op :: op in s.phases ==> PhaseOk(s, s.phases[op]))
    && (forall i :: 0 <= i < |s.grants| ==> Made(s, s.grants[i].id, s.grants[i].v) && s.grants[i].id !in s.rows)
    && (forall i, j :: 0 <= i < j < |s.grants| ==> s.grants[i].id != s.grants[j].id)
  }

  lemma PhaseKept(s: State, t: State, p: Phase)
    requires PhaseOk(s, p) && s.clock <= t.clock && s.made <= t.made
    ensures PhaseOk(t, p)
  {
  }

  lemma InvStep(s: State, e: Event)
    requires Inv(s) && Allowed(s, e)
    ensures Inv(Next(s, e))
  {
    var t := Next(s, e);
    forall op | op in t.phases ensures PhaseOk(t, t.phases[op]) {
      if op in s.phases && t.phases[op] == s.phases[op] {
        PhaseKept(s, t, s.phases[op]);
      }
    }
  }

  lemma {:induction false} InvRun(s: State, es: seq<Event>)
    requires Inv(s) && AllAllowed(s, es)
    ensures Inv(Run(s, es))
    decreases |es|
  {
    if es != [] {
      InvStep(s, es[0]);
      InvRun(Next(s, es[0]), es[1..]);
    }
  }

  lemma StartInv(clock: int)
    ensures Inv(Start(clock))
  {
  }

  // ---- single use ----

  function Ids(rows: map<nat, Verification>, identifier: string): set<nat> {
    set id | id in rows && rows[id].identifier == identifier
  }

  function GrantsUnder(grants: seq<Grant>, identifier: string): nat {
    if grants == [] then 0
    else
      var last := grants[|grants| - 1];
      GrantsUnder(grants[..|grants| - 1], identifier) + if last.v.identifier == identifier then 1 else 0
  }

  /** Uses an identifier still has, and has had. */
  function Uses(s: State, identifier: string): nat {
    |Ids(s.rows, identifier)| + GrantsUnder(s.grants, identifier)
  }

  predicate Stores(e: Event, identifier: string) {
    e.Create? && e.identifier == identifier
  }

  function StoresIn(es: seq<Event>, identifier: string): nat {
    if es == [] then 0 else (if Stores(es[0], identifier) then 1 else 0) + StoresIn(es[1..], identifier)
  }

  lemma {:induction false} SubsetSize(a: set<nat>, b: set<nat>)
    requires a <= b
    ensures |a| <= |b|
  {
    assert b == a + (b - a);
  }

  lemma OneFewer(a: set<nat>, b: set<nat>, id: nat)
    requires id in b && a == b - {id}
    ensures |a| == |b| - 1
  {
  }

  lemma ClaimMovesOne(s: State, op: nat, identifier: string)
    requires Inv(s) && Allowed(s, Claim(op)) && s.phases[op].id in s.rows
    ensures Uses(Next(s, Claim(op)), identifier) == Uses(s, identifier)
  {
    var t, p := Next(s, Claim(op)), s.phases[op];
    assert t.grants[..|t.grants| - 1] == s.grants;
    assert PhaseOk(s, p);
    if p.v.identifier == identifier {
      OneFewer(Ids(t.rows, identifier), Ids(s.rows, identifier), p.id);
    } else {
      assert Ids(t.rows, identifier) == Ids(s.rows, identifier);
    }
  }

  lemma UsesStep(s: State, e: Event, identifier: string)
    requires Inv(s) && Allowed(s, e)
    ensures Uses(Next(s, e), identifier) <= Uses(s, identifier) + if Stores(e, identifier) then 1 else 0
  {
    var t := Next(s, e);
    var had, has := Ids(s.rows, identifier), Ids(t.rows, identifier);
    if Stores(e, identifier) {
      assert has == had + {|s.made|};
    } else if e.Claim? && s.phases[e.op].id in s.rows {
      ClaimMovesOne(s, e.op, identifier);
    } else {
      SubsetSize(has, had);
    }
  }

  /** Whatever interleaves, uses of an identifier come only from stores under it: what is handed
      out in a run, with what is left to hand out, is what was there plus what was stored. */
  lemma {:induction false} UsesRun(s: State, es: seq<Event>, identifier: string)
    requires Inv(s) && AllAllowed(s, es)
    ensures Uses(Run(s, es), identifier) <= Uses(s, identifier) + StoresIn(es, identifier)
    decreases |es|
  {
    if es != [] {
      UsesStep(s, es[0], identifier);
      InvStep(s, es[0]);
      UsesRun(Next(s, es[0]), es[1..], identifier);
    }
  }

  /** Over every interleaving from an empty table: no row's value is handed out twice, each is
      the value stored, and successful consumes under an identifier never exceed its stores. */
  lemma SingleUse(clock: int, es: seq<Event>, identifier: string)
    requires AllAllowed(Start(clock), es)
    ensures var t := Run(Start(clock), es);
            && (forall i, j :: 0 <= i < j < |t.grants| ==> t.grants[i].id != t.grants[j].id)
            && (forall i :: 0 <= i < |t.grants| ==> Made(t, t.grants[i].id, t.grants[i].v))
            && GrantsUnder(t.grants, identifier) <= StoresIn(es, identifier)
  {
    StartInv(clock);
    InvRun(Start(clock), es);
    assert Ids(Start(clock).rows, identifier) == {};
    UsesRun(Start(clock), es, identifier);
  }

  // ---- storing anew ----

  /** An id that has been used and whose row is gone never has a row again. */
  lemma {:induction false} GoneStaysGone(s: State, es: seq<Event>, id: nat)
    requires AllAllowed(s, es) && id < |s.made| && id !in s.rows
    ensures id !in Run(s, es).rows && s.made <= Run(s, es).made
    decreases |es|
  {
    if es != [] { GoneStaysGone(Next(s, es[0]), es[1..], id); }
  }

  /** Rows made in a run under an identifier, whether or not they are still there. */
  predicate MadeBetween(s: State, t: State, identifier: string, id: nat) {
    |s.made| <= id < |t.made| && t.made[id].identifier == identifier
  }

  lemma {:induction false} MadeByStores(s: State, es: seq<Event>, identifier: string)
    requires AllAllowed(s, es)
    ensures s.made <= Run(s, es).made
    ensures StoresIn(es, identifier) > 0 <==> exists id :: MadeBetween(s, Run(s, es), identifier, id)
    decreases |es|
  {
    if es != [] {
      var u, t := Next(s, es[0]), Run(s, es);
      MadeByStores(u, es[1..], identifier);
      if Stores(es[0], identifier) { assert MadeBetween(s, t, identifier, |s.made|); }
      if id: nat :| MadeBetween(s, t, identifier, id) {
        if id >= |u.made| { assert MadeBetween(u, t, identifier, id); }
      }
      if id: nat :| MadeBetween(u, t, identifier, id) { assert MadeBetween(s, t, identifier, id); }
    }
  }

  /** StoreTokenValue, with anything between its two calls: the new row is the only one of its
      identifier exactly when every row stored under it in between has left again. */
  lemma StoreReplaces(s: State, mid: seq<Event>, identifier: string, value: string, at: int, ttl: int)
    requires Inv(s) && AllAllowed(Next(s, Remove(identifier)), mid) && at <= Run(Next(s, Remove(identifier)), mid).clock
    ensures var u := Run(Next(s, Remove(identifier)), mid);
            var t := Next(u, Create(identifier, value, at, ttl));
            && |u.made| in t.rows && t.rows[|u.made|].value == value
            && (Ids(t.rows, identifier) == {|u.made|} <==>
                 forall id :: MadeBetween(s, u, identifier, id) ==> id !in u.rows)
            && (StoresIn(mid, identifier) == 0 ==> Ids(t.rows, identifier) == {|u.made|})
  {
    var r := Next(s, Remove(identifier));
    var u := Run(r, mid);
    var t := Next(u, Create(identifier, value, at, ttl));
    InvStep(s, Remove(identifier));
    InvRun(r, mid);
    MadeByStores(r, mid, identifier);
    forall id | id in Ids(u.rows, identifier) ensures MadeBetween(s, u, identifier, id) {
      assert Made(u, id, u.rows[id]);
      if id < |s.made| {
        assert id !in r.rows;
        GoneStaysGone(r, mid, id);
      }
    }
    forall id | MadeBetween(s, u, identifier, id) && id in u.rows ensures id in Ids(t.rows, identifier) {
      assert Made(u, id, u.rows[id]);
    }
    forall id | MadeBetween(s, u, identifier, id) ensures MadeBetween(r, u, identifier, id) {
    }
  }

  lemma RunOfOne(s: State, e: Event)
    requires Allowed(s, e)
    ensures AllAllowed(s, [e]) && Run(s, [e]) == Next(s, e)
  {
    assert [e][1..] == [];
    assert AllAllowed(Next(s, e), []) && Run(Next(s, e), []) == Next(s, e);
  }

  lemma RunOfTwo(s: State, d: Event, e: Event)
    requires Allowed(s, d) && Allowed(Next(s, d), e)
    ensures AllAllowed(s, [d, e]) && Run(s, [d, e]) == Next(Next(s, d), e)
  {
    assert [d, e][1..] == [e];
    RunOfOne(Next(s, d), e);
  }

  /** A second store under the identifier between the two calls of the first leaves both rows. */
  lemma OverlappingStoresLeaveTwo(s: State, identifier: string, value: string, other: string, at: int, ttl: int)
    requires Inv(s) && at <= s.clock
    ensures var r, mid := Next(s, Remove(identifier)), [Remove(identifier), Create(identifier, other, at, ttl)];
            && AllAllowed(r, mid) && at <= Run(r, mid).clock
            && Ids(Next(Run(r, mid), Create(identifier, value, at, ttl)).rows, identifier) == {|s.made|, |s.made| + 1}
  {
    RunOfTwo(Next(s, Remove(identifier)), Remove(identifier), Create(identifier, other, at, ttl));
  }

  // ---- cleanup ----

  /** A row still live leaves the table only by being claimed, or by its identifier being stored
      anew: no sweep or cleanup takes it, however old the clock reading they act on. */
  lemma CleanupSparesLiveRows(s: State, e: Event, id: nat)
    requires Inv(s) && Allowed(s, e) && id in s.rows && Live(s.rows[id], s.clock)
    ensures id !in Next(s, e).rows ==>
              e == Remove(s.rows[id].identifier) ||
                  ((e.Claim? || e.ClaimLost?) && s.phases[e.op] == Holding(id, s.rows[id]))
  {
    if e.Sweep? { assert PhaseOk(s, s.phases[e.op]); }
    if e.Claim? || e.ClaimLost? { assert PhaseOk(s, s.phases[e.op]); }
  }
}
