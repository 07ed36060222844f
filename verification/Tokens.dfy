/** token.go and store.go as code: each operation makes its storage calls one at a time, and the
    events of the other operations may come in before every one of them. */
module Tokens {
  import opened Storage
  import opened TokenSpec
  import Sessions

  function OpOf(e: Event): Option<nat> {
    match e
    case Read(op, _) => Some(op)
    case Decide(op, _) => Some(op)
    case Sweep(op) => Some(op)
    case Claim(op) => Some(op)
    case ClaimLost(op) => Some(op)
    case _ => None
  }

  type SessionTable = map<string, Sessions.Session>

  /** What the rest of the system does between two calls, given what it sees, and which calls'
      answers are lost after they took effect. */
  datatype Rest = Rest(events: (nat, State) -> seq<Event>, sessions: (nat, SessionTable) -> SessionTable,
      answerLost: nat -> bool)

  function EventsOf(rest: Rest, n: nat, s: State): seq<Event> {
    rest.events(n, s)
  }

  function IsLost(rest: Rest, n: nat): bool {
    rest.answerLost(n)
  }

  predicate NotOf(es: seq<Event>, me: nat) {
    forall e :: e in es ==> OpOf(e) != Some(me)
  }

  /** The others follow the protocol and are not this operation. */
  ghost predicate Fair(rest: Rest, me: nat) {
    forall n, s {:trigger EventsOf(rest, n, s)} ::
        AllAllowed(s, EventsOf(rest, n, s)) && NotOf(EventsOf(rest, n, s), me)
  }

  /** No other operation does anything, and no answer is lost. */
  ghost predicate Idle(rest: Rest) {
    && (forall n, s {:trigger EventsOf(rest, n, s)} :: EventsOf(rest, n, s) == [])
    && (forall n {:trigger IsLost(rest, n)} :: !IsLost(rest, n))
  }

  lemma {:induction false} RunAppend(s: State, es: seq<Event>, more: seq<Event>)
    requires AllAllowed(s, es) && AllAllowed(Run(s, es), more)
    ensures AllAllowed(s, es + more) && Run(s, es + more) == Run(Run(s, es), more)
    decreases |es|
  {
    if es == [] {
      assert es + more == more;
    } else {
      RunAppend(Next(s, es[0]), es[1..], more);
      assert (es + more)[1..] == es[1..] + more;
    }
  }

  predicate SamePhase(s: State, t: State, op: nat) {
    (op in t.phases <==> op in s.phases) && (op in s.phases ==> t.phases[op] == s.phases[op])
  }

  /** Time goes on, rows made stay made, and those gone stay gone. */
  predicate Later(s: State, t: State) {
    s.clock <= t.clock && s.made <= t.made && forall id :: 0 <= id < |s.made| && id !in s.rows ==> id !in t.rows
  }

  lemma LaterStep(s: State, e: Event, t: State)
    requires Allowed(s, e) && Later(Next(s, e), t)
    ensures Later(s, t)
  {
  }

  /** The others leave this operation's progress alone. */
  lemma {:induction false} OthersKeep(s: State, es: seq<Event>, me: nat)
    requires AllAllowed(s, es) && NotOf(es, me)
    ensures SamePhase(s, Run(s, es), me) && Later(s, Run(s, es))
    decreases |es|
  {
    if es != [] {
      assert es[0] in es;
      OthersKeep(Next(s, es[0]), es[1..], me);
      LaterStep(s, es[0], Run(s, es));
    }
  }

  /** Rows by creation time, newest first. */
  predicate NewestFirst(recs: seq<(nat, Verification)>, found: map<nat, Verification>) {
    && (forall i, j :: 0 <= i < j < |recs| ==> recs[i].1.createdAt >= recs[j].1.createdAt && recs[i].0 != recs[j].0)
    && (forall i :: 0 <= i < |recs| ==> recs[i].0 in found && found[recs[i].0] == recs[i].1)
    && (forall id :: id in found ==> exists i :: 0 <= i < |recs| && recs[i].0 == id)
  }

  lemma HasNewest(found: map<nat, Verification>) returns (top: nat)
    requires found.Keys != {}
    ensures top in found && forall id :: id in found ==> found[id].createdAt <= found[top].createdAt
  {
    top :| top in found;
    if found.Keys != {top} {
      var rest := found - {top};
      assert rest.Keys == found.Keys - {top};
      var other := HasNewest(rest);
      if found[other].createdAt > found[top].createdAt {
        forall id | id in found ensures found[id].createdAt <= found[other].createdAt {
          if id != top { assert id in rest; }
        }
        top := other;
      } else {
        forall id | id in found ensures found[id].createdAt <= found[top].createdAt {
          if id != top { assert id in rest; }
        }
      }
    }
  }

  /** The rows taken out so far, newest first, and those left, none of them newer. */
  ghost predicate Taken(recs: seq<(nat, Verification)>, left: map<nat, Verification>, found: map<nat, Verification>) {
    && (forall id :: id in left ==> id in found && left[id] == found[id])
    && (forall i, j :: 0 <= i < j < |recs| ==> recs[i].1.createdAt >= recs[j].1.createdAt && recs[i].0 != recs[j].0)
    && (forall i, id :: 0 <= i < |recs| && id in left ==> recs[i].1.createdAt >= left[id].createdAt)
    && (forall i :: 0 <= i < |recs| ==> recs[i].0 in found && recs[i].0 !in left && found[recs[i].0] == recs[i].1)
    && (forall id :: id in found && id !in left ==> exists i :: 0 <= i < |recs| && recs[i].0 == id)
  }

  lemma TakeOne(recs: seq<(nat, Verification)>, left: map<nat, Verification>, found: map<nat, Verification>, top: nat)
    requires Taken(recs, left, found) && top in left
    requires forall id :: id in left ==> left[id].createdAt <= left[top].createdAt
    ensures Taken(recs + [(top, left[top])], left - {top}, found)
  {
    var more := recs + [(top, left[top])];
    assert more[|recs|].0 == top;
    forall id | id in found && id !in left - {top} ensures exists i :: 0 <= i < |more| && more[i].0 == id {
      if id != top {
        var i :| 0 <= i < |recs| && recs[i].0 == id;
        assert more[i].0 == id;
      }
    }
  }

  method SortNewestFirst(found: map<nat, Verification>) returns (recs: seq<(nat, Verification)>)
    ensures NewestFirst(recs, found)
  {
    recs := [];
    var left := found;
    while left.Keys != {}
      invariant Taken(recs, left, found)
      decreases left.Keys
    {
      ghost var _ := HasNewest(left);
      var top :| top in left.Keys && forall id :: id in left ==> left[id].createdAt <= left[top].createdAt;
      TakeOne(recs, left, found, top);
      recs, left := recs + [(top, left[top])], left - {top};
    }
  }

  method FirstLive(recs: seq<(nat, Verification)>, now: int) returns (first: nat)
    ensures first <= |recs| && (first < |recs| ==> Live(recs[first].1, now))
    ensures forall k :: 0 <= k < first ==> !Live(recs[k].1, now)
  {
    for i := 0 to |recs|
      invariant forall k :: 0 <= k < i ==> !Live(recs[k].1, now)
    {
      if Live(recs[i].1, now) {
        return i;
      }
    }
    return |recs|;
  }

  /** The first live row of a list sorted newest first is a latest one. */
  lemma FirstIsLatest(recs: seq<(nat, Verification)>, found: map<nat, Verification>, now: int, first: nat)
    requires NewestFirst(recs, found) && first <= |recs| && (first < |recs| ==> Live(recs[first].1, now))
    requires forall k :: 0 <= k < first ==> !Live(recs[k].1, now)
    ensures IsLatest(found, now, if first < |recs| then Some(recs[first].0) else None)
  {
    forall id | id in found && Live(found[id], now)
      ensures first < |recs| && found[id].createdAt <= recs[first].1.createdAt
    {
      var i :| 0 <= i < |recs| && recs[i].0 == id;
    }
  }

  function Unexpired(sessions: SessionTable, now: int): SessionTable {
    map token | token in sessions && !Sessions.Expired(sessions[token], now) :: sessions[token]
  }

  /** What a delete removes. */
  function Fewer<K, V>(before: map<K, V>, after: map<K, V>): int {
    |before| - |after|
  }

  /** A row that a decision at the time `at` chose out of those read, or that none was live. */
  predicate Chosen(read: State, identifier: string, at: int, found: Option<(nat, Verification)>) {
    IsLatest(Under(read.rows, identifier), at, if found.Some? then Some(found.value.0) else None)
  }

  class Server {
    const rest: Rest
    var db: State
    var sessions: SessionTable
    var calls: nat
    ghost const start: State
    ghost var trace: seq<Event>

    constructor (clock: int, rest: Rest)
      ensures Valid() && this.rest == rest && db == start == Start(clock) && sessions == map[]
    {
      this.rest, db, sessions, calls, start, trace := rest, Start(clock), map[], 0, Start(clock), [];
      new;
      StartInv(clock);
    }

    /** The table is what the whole trace of events has made of it. */
    ghost predicate Valid()
      reads `db, `trace
    {
      Inv(start) && AllAllowed(start, trace) && db == Run(start, trace)
    }

    ghost method Extend(es: seq<Event>)
      requires Inv(start) && AllAllowed(start, trace) && AllAllowed(Run(start, trace), es)
      requires db == Run(Run(start, trace), es)
      modifies `trace
      ensures Valid() && trace == old(trace) + es
    {
      RunAppend(start, trace, es);
      trace := trace + es;
    }

    /** The other operations make progress. */
    method Others(ghost me: nat)
      requires Valid() && Fair(rest, me)
      modifies this
      ensures Valid() && old(trace) <= trace
      ensures SamePhase(old(db), db, me) && Later(old(db), db)
      ensures calls == old(calls) + 1 && (Idle(rest) ==> db == old(db))
    {
      var es := EventsOf(rest, calls, db);
      OthersKeep(db, es, me);
      db := Run(db, es);
      sessions := rest.sessions(calls, sessions);
      calls := calls + 1;
      Extend(es);
    }

    method Do(e: Event)
      requires Valid() && Allowed(db, e)
      modifies `db, `trace
      ensures Valid() && db == Next(old(db), e) && trace == old(trace) + [e]
    {
      assert [e][1..] == [];
      db := Next(db, e);
      Extend([e]);
    }

    /** FindMany on the identifier, newest first, of the table as `read` was. */
    method ReadNewest(me: nat, identifier: string) returns (recs: seq<(nat, Verification)>, ghost read: seq<Event>)
      requires Valid() && Fair(rest, me) && me !in db.phases
      modifies this
      ensures Valid() && old(trace) <= read <= trace && AllAllowed(start, read) && old(db).clock <= db.clock
      ensures me in db.phases && db.phases[me] == Reading(identifier, Under(Run(start, read).rows, identifier))
      ensures NewestFirst(recs, Under(Run(start, read).rows, identifier))
      ensures calls == old(calls) + 1
      ensures (Idle(rest) ==> Run(start, read) == old(db) && db == old(db).(phases := db.phases))
    {
      Others(me);
      read := trace;
      recs := SortNewestFirst(Under(db.rows, identifier));
      Do(Read(me, identifier));
    }

    /** A latest live row of the identifier as it was read, held for claiming; when none was live
        the expired ones are deleted. */
    method FindVerification(me: nat, identifier: string)
        returns (found: Option<(nat, Verification)>, ghost read: seq<Event>, ghost at: int)
      requires Valid() && Fair(rest, me) && me !in db.phases
      modifies this
      ensures Valid() && old(trace) <= read <= trace && AllAllowed(start, read)
      ensures old(db).clock <= at <= db.clock && Chosen(Run(start, read), identifier, at, found)
      ensures me in db.phases
      ensures match found
              case Some(f) =>
                && db.phases[me] == Holding(f.0, f.1) && f.1.identifier == identifier && Made(db, f.0, f.1)
                && trace[|trace| - 1..] == [Decide(me, Some(f.0))]
              case None =>
                && db.phases[me] == Refused && Decide(me, None) in trace && trace[|trace| - 1..] == [Sweep(me)]
                && forall id :: id in Ids(db.rows, identifier) ==> Live(db.rows[id], at)
      ensures calls > old(calls) && (Idle(rest) ==> Run(start, read) == old(db) && at == old(db).clock)
      ensures Idle(rest) && found.Some? ==> db.rows == old(db).rows
    {
      var recs, saw := ReadNewest(me, identifier);
      read := saw;
      Others(me);
      var now := db.clock;
      at := now;
      var i := FirstLive(recs, now);
      FirstIsLatest(recs, db.phases[me].found, now, i);
      if i < |recs| {
        Hold(me, identifier, recs[i]);
        return Some(recs[i]), read, at;
      }
      SweepExpired(me, identifier);
      return None, read, at;
    }

    method Hold(me: nat, identifier: string, rec: (nat, Verification))
      requires Valid() && me in db.phases && db.phases[me].Reading? && db.phases[me].identifier == identifier
      requires rec.0 in db.phases[me].found && db.phases[me].found[rec.0] == rec.1
      requires IsLatest(db.phases[me].found, db.clock, Some(rec.0))
      modifies `db, `trace
      ensures Valid() && trace == old(trace) + [Decide(me, Some(rec.0))] && db == old(db).(phases := db.phases)
      ensures me in db.phases && db.phases[me] == Holding(rec.0, rec.1) && rec.1.identifier == identifier
      ensures Made(db, rec.0, rec.1)
    {
      InvRun(start, trace);
      assert PhaseOk(db, db.phases[me]);
      Do(Decide(me, Some(rec.0)));
    }

    method SweepExpired(me: nat, identifier: string)
      requires Valid() && Fair(rest, me) && me in db.phases && db.phases[me].Reading?
      requires db.phases[me].identifier == identifier
      requires IsLatest(db.phases[me].found, db.clock, None)
      modifies this
      ensures Valid() && old(trace) <= trace && Decide(me, None) in trace && trace[|trace| - 1..] == [Sweep(me)]
      ensures old(db).clock <= db.clock && me in db.phases && db.phases[me] == Refused && calls == old(calls) + 1
      ensures forall id :: id in Ids(db.rows, identifier) ==> Live(db.rows[id], old(db).clock)
    {
      Do(Decide(me, None));
      assert trace[|old(trace)|] == Decide(me, None);
      Others(me);
      Do(Sweep(me));
    }

    /** The delete that claims the row held. It is refused only when the row is gone already, and
        otherwise the value is returned unless the answer is lost. */
    method ClaimHeld(me: nat, ghost identifier: string, held: (nat, Verification)) returns (value: Option<string>)
      requires Valid() && Fair(rest, me) && me in db.phases && db.phases[me] == Holding(held.0, held.1)
      requires held.1.identifier == identifier && Made(db, held.0, held.1)
      modifies this
      ensures Valid() && old(trace) <= trace && me in db.phases && calls == old(calls) + 1
      ensures value.Some? <==> db.phases[me] == Served(held.0, held.1)
      ensures value.Some? ==>
                value.value == held.1.value && Made(db, held.0, held.1) && Grant(me, held.0, held.1) in db.grants
      ensures value.None? ==> db.phases[me] == Refused && (IsLost(rest, calls) || GoneBeforeClaim(me, held.0))
      ensures Idle(rest) ==> (value.Some? <==> held.0 in old(db).rows)
    {
      Others(me);
      if IsLost(rest, calls) {
        Do(ClaimLost(me));
        return None;
      }
      ghost var before := trace;
      var claimed := held.0 in db.rows;
      Do(Claim(me));
      if !claimed {
        assert trace[..|trace| - 1] == before;
        return None;
      }
      assert db.grants[|db.grants| - 1] == Grant(me, held.0, held.1);
      return Some(held.1.value);
    }

    /** The last event is this operation's claim, of a row that had left the table before it. */
    ghost predicate GoneBeforeClaim(me: nat, id: nat)
      reads `trace
    {
      && |trace| > 0 && trace[|trace| - 1] == Claim(me)
      && AllAllowed(start, trace[..|trace| - 1]) && id !in Run(start, trace[..|trace| - 1]).rows
    }

    /** ConsumeToken: the value goes to the caller whose delete removed the row. A caller gets
        nothing only when no row was live, the one it held was gone before its delete, or the
        answer was lost; so undisturbed it gets the value exactly when there is a live row. */
    method ConsumeToken(me: nat, identifier: string)
        returns (value: Option<string>, ghost held: Option<(nat, Verification)>, ghost read: seq<Event>, ghost at: int)
      requires Valid() && Fair(rest, me) && me !in db.phases
      modifies this
      ensures Valid() && old(trace) <= read <= trace && AllAllowed(start, read) && me in db.phases
      ensures old(db).clock <= at && Chosen(Run(start, read), identifier, at, held)
      ensures value.Some? <==> db.phases[me].Served?
      ensures value.Some? ==> var p := db.phases[me];
                held == Some((p.id, p.v)) && value.value == p.v.value && p.v.identifier == identifier &&
                Made(db, p.id, p.v) && Grant(me, p.id, p.v) in db.grants
      ensures value.None? ==>
                || held.None?
                || GoneBeforeClaim(me, held.value.0)
                || exists n :: old(calls) < n <= calls && IsLost(rest, n)
      ensures Idle(rest) ==>
                (value.Some? <==>
                    exists id :: id in Under(old(db).rows, identifier) && Live(old(db).rows[id], old(db).clock))
    {
      var found, saw, when := FindVerification(me, identifier);
      held, read, at := found, saw, when;
      if found.None? {
        return None, held, read, at;
      }
      value := ClaimHeld(me, identifier, found.value);
    }

    /** DeleteVerificationsByIdentifier: of the rows made so far none of the identifier is left. */
    method RemoveOld(ghost me: nat, identifier: string)
      requires Valid() && Fair(rest, me)
      modifies this
      ensures Valid() && old(trace) <= trace && Later(old(db), db)
      ensures forall i :: i in db.rows && db.rows[i].identifier == identifier ==> i >= |old(db).made|
      ensures forall i :: i in db.rows ==> Made(db, i, db.rows[i])
    {
      Others(me);
      Do(Remove(identifier));
      InvRun(start, trace);
    }

    /** StoreTokenValue: earlier rows of the identifier are removed before the new one is created. */
    method StoreTokenValue(ghost me: nat, identifier: string, value: string, ttl: int) returns (id: nat)
      requires Valid() && Fair(rest, me)
      modifies this
      ensures Valid() && old(trace) <= trace
      ensures id in db.rows && db.rows[id].identifier == identifier && db.rows[id].value == value
      ensures id !in old(db).rows && id >= |old(db).made|
      ensures db.rows[id].expiresAt == db.rows[id].createdAt + ttl && old(db).clock <= db.rows[id].createdAt <= db.clock
      ensures forall i :: i in old(db).rows && old(db).rows[i].identifier == identifier ==> i !in db.rows
      ensures forall i :: i in db.rows && db.rows[i].identifier == identifier ==> i >= |old(db).made|
    {
      InvRun(start, trace);
      assert forall i :: i in db.rows ==> Made(db, i, db.rows[i]);
      RemoveOld(me, identifier);
      ghost var cleared := db;
      var at := db.clock;
      Others(me);
      InvRun(start, trace);
      assert forall i :: i in db.rows ==> Made(db, i, db.rows[i]);
      id := |db.made|;
      Do(Create(identifier, value, at, ttl));
    }

    /** Of the rows made by now none that expired by `now` is left. */
    ghost predicate Cleaned(made: nat, now: int)
      reads `db
    {
      forall id :: id in db.rows && id < made ==> Live(db.rows[id], now)
    }

    method CleanRows(ghost me: nat, now: int) returns (removed: int, ghost found: State)
      requires Valid() && Fair(rest, me) && now <= db.clock
      modifies this
      ensures Valid() && old(trace) <= trace && Cleanup(now) in trace
      ensures Cleaned(|db.made|, now) && |old(db).made| <= |db.made|
      ensures removed == Fewer(found.rows, WithoutExpired(found.rows, now))
    {
      Others(me);
      found := db;
      removed := Fewer(db.rows, WithoutExpired(db.rows, now));
      Do(Cleanup(now));
      assert trace[|trace| - 1] == Cleanup(now);
    }

    /** Letting the others go on brings no cleaned row back. */
    method OthersAfter(ghost me: nat, ghost made: nat, ghost now: int)
      requires Valid() && Fair(rest, me) && Cleaned(made, now) && made <= |db.made|
      modifies this
      ensures Valid() && old(trace) <= trace && Cleaned(made, now)
    {
      InvRun(start, trace);
      assert forall id :: id in db.rows ==> Made(db, id, db.rows[id]);
      Others(me);
      InvRun(start, trace);
      assert forall id :: id in db.rows ==> Made(db, id, db.rows[id]);
    }

    /** CleanupExpired acts on one clock reading, taken before its calls: of the rows there were,
        none that had expired is left; the sessions are those found unexpired. */
    method CleanupExpired(ghost me: nat) returns (removed: int, ok: bool, ghost found: State, ghost had: SessionTable)
      requires Valid() && Fair(rest, me)
      modifies this
      ensures Valid() && old(trace) <= trace && Cleanup(old(db).clock) in trace
      ensures Cleaned(|old(db).made|, old(db).clock)
      ensures ok ==> sessions == Unexpired(had, old(db).clock)
      ensures ok ==> forall t :: t in sessions <==> t in had && had[t].expiresAt > old(db).clock
      ensures ok ==> forall t :: t in sessions ==> sessions[t] == had[t]
      ensures ok ==> removed == Fewer(found.rows, WithoutExpired(found.rows, old(db).clock)) + Fewer(had, sessions)
    {
      var now := db.clock;
      removed, found := CleanRows(me, now);
      had := sessions;
      if IsLost(rest, calls) {
        return 0, false, found, had;
      }
      OthersAfter(me, |old(db).made|, now);
      had := sessions;
      var left := Unexpired(sessions, now);
      removed, sessions := removed + Fewer(sessions, left), left;
      ok := !IsLost(rest, calls);
    }
  }

  /** So a server that starts from an empty table never hands a row out twice, whatever
      operations it runs and whatever runs between their calls. */
  lemma HandedOutOnce(srv: Server, clock: int, identifier: string)
    requires srv.Valid() && srv.start == Start(clock)
    ensures GrantsUnder(srv.db.grants, identifier) <= StoresIn(srv.trace, identifier)
    ensures forall i, j :: 0 <= i < j < |srv.db.grants| ==> srv.db.grants[i].id != srv.db.grants[j].id
  {
    InvRun(srv.start, srv.trace);
    UsesRun(srv.start, srv.trace, identifier);
    assert Ids(srv.start.rows, identifier) == {};
  }
}
