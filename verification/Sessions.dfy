/** session.go: resolving a session by its token, with sliding expiration. Times are nanoseconds. */
module Sessions {
  import opened Storage

  datatype Session = Session(token: string, createdAt: int, expiresAt: int)

  datatype Config = Config(expiresIn: int, updateAge: int, disableRefresh: bool)

  predicate Sensible(cfg: Config) {
    SECOND <= cfg.updateAge < cfg.expiresIn
  }

  predicate Expired(s: Session, now: int) {
    s.expiresAt <= now
  }

  /** sessionRefreshable. */
  predicate Refreshable(cfg: Config, s: Session) {
    s.createdAt != ZERO_TIME && s.expiresAt - s.createdAt >= cfg.expiresIn - SECOND
  }

  predicate Overdue(cfg: Config, s: Session, now: int) {
    now > s.expiresAt - cfg.expiresIn + cfg.updateAge
  }

  /** One lookup: when it read the clock, whether the user was found, and whether the refresh was written. */
  datatype Lookup = Lookup(now: int, userFound: bool, writes: bool)

  predicate Refreshes(cfg: Config, s: Session, l: Lookup) {
    !Expired(s, l.now) && l.userFound && l.writes && !cfg.disableRefresh && Refreshable(cfg, s) &&
        Overdue(cfg, s, l.now)
  }

  /** What a lookup leaves stored. */
  function Looked(cfg: Config, row: Option<Session>, l: Lookup): Option<Session> {
    if row.None? || Expired(row.value, l.now) then None
    else if Refreshes(cfg, row.value, l) then Some(row.value.(expiresAt := l.now + cfg.expiresIn))
    else row
  }

  /** The table with a token's row put in place, or gone. */
  function WithRow(rows: map<string, Session>, token: string, row: Option<Session>): map<string, Session> {
    if row.Some? then rows[token := row.value] else rows - {token}
  }

  class Store {
    const cfg: Config
    var rows: map<string, Session>

    constructor (cfg: Config)
      ensures this.cfg == cfg && rows == map[]
    {
      this.cfg, rows := cfg, map[];
    }

    function Row(token: string): Option<Session>
      reads this
    {
      if token in rows then Some(rows[token]) else None
    }

    method CreateSession(token: string, createdAt: int, expiresAt: int)
      modifies this
      ensures rows == old(rows)[token := Session(token, createdAt, expiresAt)]
    {
      rows := rows[token := Session(token, createdAt, expiresAt)];
    }

    method Delete(token: string)
      modifies this
      ensures rows == old(rows) - {token}
    {
      rows := rows - {token};
    }

    /** GetSessionFromToken; accepted says whether the session guards let the session through. */
    method GetSessionFromToken(token: string, l: Lookup, accepted: bool) returns (found: Option<Session>)
      modifies this
      ensures Row(token) == Looked(cfg, old(Row(token)), l) && rows == WithRow(old(rows), token, Row(token))
      ensures token in rows ==>
                && token in old(rows) && l.now < old(rows)[token].expiresAt
                && rows[token] == old(rows)[token].(expiresAt := rows[token].expiresAt)
                && rows[token].expiresAt in {old(rows)[token].expiresAt, l.now + cfg.expiresIn}
      ensures token !in rows ==> token !in old(rows) || old(rows)[token].expiresAt <= l.now
      ensures found == if l.userFound && accepted then Row(token) else None
    {
      if token !in rows {
        assert rows == rows - {token};
        return None;
      }
      assert rows == rows[token := rows[token]];
      var sess := rows[token];
      if Expired(sess, l.now) {
        rows := rows - {token};
        return None;
      }
      if !l.userFound {
        return None;
      }
      if !cfg.disableRefresh && Refreshable(cfg, sess) {
        var updateAt := sess.expiresAt - cfg.expiresIn + cfg.updateAge;
        if l.now > updateAt && l.writes {
          sess := sess.(expiresAt := l.now + cfg.expiresIn);
          rows := rows[token := sess];
        }
      }
      found := if accepted then Some(sess) else None;
    }
  }

  // ---- over a run of lookups ----

  function Replay(cfg: Config, row: Option<Session>, ls: seq<Lookup>): Option<Session>
    decreases |ls|
  {
    if ls == [] then row else Replay(cfg, Looked(cfg, row, ls[0]), ls[1..])
  }

  /** The sessions that are never refreshed: refreshing is off, or the session was created for
      less than the configured lifetime, or at no known time. */
  predicate Fixed(cfg: Config, s: Session) {
    cfg.disableRefresh || s.createdAt == ZERO_TIME || s.expiresAt - s.createdAt < cfg.expiresIn - SECOND
  }

  /** Such a session keeps its first expiry for good, and goes exactly when found expired. */
  lemma {:induction false} FixedSessionsKeepExpiry(cfg: Config, s: Session, ls: seq<Lookup>)
    requires Fixed(cfg, s)
    ensures Replay(cfg, Some(s), ls) in {None, Some(s)}
    ensures Replay(cfg, Some(s), ls).None? <==> exists i :: 0 <= i < |ls| && s.expiresAt <= ls[i].now
    decreases |ls|
  {
    if ls != [] {
      if Expired(s, ls[0].now) {
        NothingComesBack(cfg, ls[1..]);
      } else {
        FixedSessionsKeepExpiry(cfg, s, ls[1..]);
        if i :| 0 <= i < |ls| && Expired(s, ls[i].now) {
          assert ls[1..][i - 1] == ls[i];
        }
      }
    }
  }

  lemma {:induction false} NothingComesBack(cfg: Config, ls: seq<Lookup>)
    ensures Replay(cfg, None, ls) == None
    decreases |ls|
  {
    if ls != [] {
      NothingComesBack(cfg, ls[1..]);
    }
  }

  /** Every lookup comes less than ExpiresIn - UpdateAge after the one before, finds the user and writes. */
  predicate Steady(cfg: Config, from: int, ls: seq<Lookup>)
    decreases |ls|
  {
    ls == [] ||
        (from <= ls[0].now < from + cfg.expiresIn - cfg.updateAge && ls[0].userFound && ls[0].writes &&
            Steady(cfg, ls[0].now, ls[1..]))
  }

  /** A lookup that finds a refreshable session leaves it refreshable, with more than
      ExpiresIn - UpdateAge to go. */
  lemma LookupLeavesTime(cfg: Config, s: Session, l: Lookup)
    requires Sensible(cfg) && !cfg.disableRefresh && Refreshable(cfg, s) && !Expired(s, l.now) && l.userFound
    requires l.writes
    ensures var t := Looked(cfg, Some(s), l);
            t.Some? && Refreshable(cfg, t.value) && t.value.expiresAt >= l.now + cfg.expiresIn - cfg.updateAge &&
                t.value.expiresAt >= s.expiresAt
  {
  }

  lemma {:induction false} StaysAlive(cfg: Config, s: Session, from: int, ls: seq<Lookup>)
    requires Sensible(cfg) && !cfg.disableRefresh && Refreshable(cfg, s)
    requires s.expiresAt >= from + cfg.expiresIn - cfg.updateAge
    requires Steady(cfg, from, ls)
    ensures var t := Replay(cfg, Some(s), ls); t.Some? && Refreshable(cfg, t.value) && t.value.expiresAt >= s.expiresAt
    decreases |ls|
  {
    if ls != [] {
      LookupLeavesTime(cfg, s, ls[0]);
      StaysAlive(cfg, Looked(cfg, Some(s), ls[0]).value, ls[0].now, ls[1..]);
    }
  }

  /** A refreshable session used steadily from its creation never expires. */
  lemma SteadyUseNeverExpires(cfg: Config, s: Session, ls: seq<Lookup>)
    requires Sensible(cfg) && !cfg.disableRefresh && Refreshable(cfg, s) && Steady(cfg, s.createdAt, ls)
    ensures Replay(cfg, Some(s), ls).Some?
  {
    StaysAlive(cfg, s, s.createdAt, ls);
  }

  /** The gap is exact: waiting just ExpiresIn - UpdateAge can be too long. */
  lemma GapIsExact(cfg: Config, token: string, t: int)
    requires Sensible(cfg) && t != ZERO_TIME
    ensures var s := Session(token, t, t + cfg.expiresIn);
            var ls :=
                [Lookup(t + cfg.updateAge, true, true),
                    Lookup(t + cfg.updateAge + (cfg.expiresIn - cfg.updateAge), true, true)];
            Refreshable(cfg, s) && Replay(cfg, Some(s), ls).None?
  {
    var s := Session(token, t, t + cfg.expiresIn);
    var a, b :=
        Lookup(t + cfg.updateAge, true, true), Lookup(t + cfg.updateAge + (cfg.expiresIn - cfg.updateAge), true, true);
    assert [a, b][1..] == [b] && [b][1..] == [];
    assert Looked(cfg, Some(s), a) == Some(s);
    assert Looked(cfg, Some(s), b) == None;
    assert Replay(cfg, Some(s), [a, b]) == Replay(cfg, Some(s), [b]);
  }

  /** A lookup that writes a refresh at ls[i]. */
  predicate WritesAt(cfg: Config, row: Option<Session>, ls: seq<Lookup>, i: nat)
    requires i < |ls|
  {
    var before := Replay(cfg, row, ls[..i]);
    before.Some? && Refreshes(cfg, before.value, ls[i])
  }

  lemma {:induction false} ReplayStep(cfg: Config, row: Option<Session>, ls: seq<Lookup>, i: nat)
    requires i < |ls|
    ensures Replay(cfg, row, ls[..i + 1]) == Looked(cfg, Replay(cfg, row, ls[..i]), ls[i])
    decreases |ls|
  {
    if i > 0 {
      ReplayStep(cfg, Looked(cfg, row, ls[0]), ls[1..], i - 1);
      assert ls[1..][..i - 1] == ls[..i][1..] && ls[1..][..i] == ls[..i + 1][1..] && ls[1..][i - 1] == ls[i];
    } else {
      assert ls[..1] == [ls[0]] && ls[..1][1..] == [] && ls[..0] == [];
    }
  }

  /** Once written at ls[i], the expiry stays above ls[i].now + ExpiresIn as long as the row is there. */
  lemma {:induction false} ExpiryOnlyGrows(cfg: Config, row: Option<Session>, ls: seq<Lookup>, i: nat, j: nat)
    requires Sensible(cfg) && i < j <= |ls| && WritesAt(cfg, row, ls, i)
    ensures var t := Replay(cfg, row, ls[..j]); t.Some? ==> t.value.expiresAt >= ls[i].now + cfg.expiresIn
    decreases j
  {
    ReplayStep(cfg, row, ls, j - 1);
    if j > i + 1 {
      ExpiryOnlyGrows(cfg, row, ls, i, j - 1);
    }
  }

  /** Over any run, a later refresh is written more than UpdateAge after an earlier one. */
  lemma RefreshesAreApart(cfg: Config, row: Option<Session>, ls: seq<Lookup>, i: nat, j: nat)
    requires Sensible(cfg) && i < j < |ls| && WritesAt(cfg, row, ls, i) && WritesAt(cfg, row, ls, j)
    ensures ls[j].now > ls[i].now + cfg.updateAge
  {
    ExpiryOnlyGrows(cfg, row, ls, i, j);
  }

  /** No write of a refresh in ls[i..j]. */
  predicate NoWrites(cfg: Config, row: Option<Session>, ls: seq<Lookup>, i: nat, j: nat)
    requires j <= |ls|
  {
    forall k :: i <= k < j ==> !WritesAt(cfg, row, ls, k)
  }

  /** The last refresh written in ls[..n] is at ls[i]. */
  predicate LastWrite(cfg: Config, s: Session, ls: seq<Lookup>, i: nat, n: nat)
    requires n <= |ls|
  {
    i < n && WritesAt(cfg, Some(s), ls, i) && NoWrites(cfg, Some(s), ls, i + 1, n)
  }

  /** Over any run the row that is left is the first one, with its first expiry or, from the last
      refresh written on, that lookup's time plus ExpiresIn. */
  lemma {:induction false} ExpiryExactly(cfg: Config, s: Session, ls: seq<Lookup>, n: nat)
    requires n <= |ls| && Replay(cfg, Some(s), ls[..n]).Some?
    ensures var t := Replay(cfg, Some(s), ls[..n]).value;
            || (t == s && NoWrites(cfg, Some(s), ls, 0, n))
            || exists i: nat :: LastWrite(cfg, s, ls, i, n) && t == s.(expiresAt := ls[i].now + cfg.expiresIn)
  {
    if n > 0 {
      var before := Replay(cfg, Some(s), ls[..n - 1]);
      ReplayStep(cfg, Some(s), ls, n - 1);
      ExpiryExactly(cfg, s, ls, n - 1);
      if Refreshes(cfg, before.value, ls[n - 1]) {
        assert LastWrite(cfg, s, ls, n - 1, n);
      } else if before.value != s || !NoWrites(cfg, Some(s), ls, 0, n - 1) {
        var i: nat :| LastWrite(cfg, s, ls, i, n - 1) && before.value == s.(expiresAt := ls[i].now + cfg.expiresIn);
        assert LastWrite(cfg, s, ls, i, n);
      }
    } else {
      assert ls[..0] == [];
    }
  }

  /** So no expiry is later than the first one and ExpiresIn past every lookup so far. */
  lemma ExpiryBounded(cfg: Config, s: Session, ls: seq<Lookup>, last: int)
    requires Replay(cfg, Some(s), ls).Some? && forall i :: 0 <= i < |ls| ==> ls[i].now <= last
    ensures var t := Replay(cfg, Some(s), ls).value;
            t.expiresAt <= if s.expiresAt < last + cfg.expiresIn then last + cfg.expiresIn else s.expiresAt
  {
    assert ls[..|ls|] == ls;
    ExpiryExactly(cfg, s, ls, |ls|);
    var t := Replay(cfg, Some(s), ls).value;
    if t != s {
      var i: nat :| LastWrite(cfg, s, ls, i, |ls|) && t == s.(expiresAt := ls[i].now + cfg.expiresIn);
    }
  }

  /** And a session past its first expiry that nobody looked up for ExpiresIn is gone at the next lookup. */
  lemma IdleSessionsGo(cfg: Config, s: Session, ls: seq<Lookup>, last: int, l: Lookup)
    requires forall i :: 0 <= i < |ls| ==> ls[i].now <= last
    requires l.now >= s.expiresAt && l.now >= last + cfg.expiresIn
    ensures Replay(cfg, Some(s), ls + [l]) == None
  {
    ReplayStep(cfg, Some(s), ls + [l], |ls|);
    assert (ls + [l])[..|ls|] == ls && (ls + [l])[..|ls| + 1] == ls + [l];
    if Replay(cfg, Some(s), ls).Some? { ExpiryBounded(cfg, s, ls, last); }
  }

  /** A lookup in time refreshes a refreshable session exactly when more than UpdateAge of its
      lifetime is used up, and then to a full ExpiresIn from now. */
  lemma RefreshedExactly(cfg: Config, s: Session, l: Lookup)
    requires Sensible(cfg) && !Fixed(cfg, s) && l.now < s.expiresAt && l.userFound && l.writes
    ensures var used := cfg.expiresIn - (s.expiresAt - l.now);
            Looked(cfg, Some(s), l) == Some(if used > cfg.updateAge then s.(expiresAt := l.now + cfg.expiresIn) else s)
  {
  }
}
