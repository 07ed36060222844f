/** oauth2/oidc.go: JWKSCache.Key as two locked steps around an unlocked fetch. Any number of
    callers interleave; each step reads a clock that never runs backwards. */
module JwksSpec {
  import opened Storage

  /** Durations after defaults. */
  datatype Limits = Limits(ttl: int, minRefresh: int, staleGrace: int, fetchTimeout: int)

  predicate Positive(l: Limits) {
    l.ttl > 0 && l.minRefresh > 0 && l.staleGrace > 0 && l.fetchTimeout > 0
  }

  type KeySet = map<string, nat>

  /** fetchedAt and lastAttempt start as the zero time, further back than any duration. */
  datatype Cache = Cache(keys: KeySet, fetchedAt: Option<int>, lastAttempt: Option<int>)

  /** A caller past its first step: fetching since `start`, or with its fetch ended. */
  datatype Call = Fetching(kid: string, start: int) | Fetched(kid: string, answer: Option<KeySet>)

  /** A key handed out: when its age was checked, and when its set was stored. */
  datatype Handed = Handed(at: int, storedAt: Option<int>)

  datatype State = State(clock: int, cache: Cache, calls: map<nat, Call>, starts: seq<int>, handed: seq<Handed>)

  /** The clock readings of a locked step: fresh?, recently attempted?, and the one after. */
  datatype Event =
    | Tick(to: int)
    | Enter(caller: nat, kid: string, t1: int, t2: int, t3: int)
    | FetchEnds(caller: nat, answer: Option<KeySet>)
    | Leave(caller: nat, at: int)

  /** time.Since(then) < span. */
  predicate Within(then_: Option<int>, now: int, span: int) {
    then_.Some? && now - then_.value < span
  }

  /** A fetch in flight ends by its timeout. */
  predicate InTime(l: Limits, s: State, now: int) {
    forall c :: c in s.calls && s.calls[c].Fetching? ==> now <= s.calls[c].start + l.fetchTimeout
  }

  predicate Allowed(l: Limits, s: State, e: Event) {
    match e
    case Tick(to) => s.clock <= to && InTime(l, s, to)
    case Enter(c, _, t1, t2, t3) => c !in s.calls && s.clock <= t1 <= t2 <= t3 && InTime(l, s, t3)
    case FetchEnds(c, _) => c in s.calls && s.calls[c].Fetching?
    case Leave(c, at) => c in s.calls && s.calls[c].Fetched? && s.clock <= at && InTime(l, s, at)
  }

  function HandOut(s: State, at: int): State {
    s.(handed := s.handed + [Handed(at, s.cache.fetchedAt)])
  }

  function AfterEnter(l: Limits, s: State, c: nat, kid: string, t1: int, t2: int, t3: int): State {
    var v := s.(clock := t3);
    if kid in s.cache.keys && Within(s.cache.fetchedAt, t1, l.ttl) then HandOut(v, t1)
    else if Within(s.cache.lastAttempt, t2, l.minRefresh) then
      if kid in s.cache.keys && Within(s.cache.fetchedAt, t3, l.ttl + l.staleGrace) then HandOut(v, t3) else v
    else v.(cache := s.cache.(lastAttempt := Some(t3)), calls := s.calls[c := Fetching(kid, t3)],
        starts := s.starts + [t3])
  }

  function AfterLeave(l: Limits, s: State, c: nat, at: int): State
    requires c in s.calls && s.calls[c].Fetched?
  {
    var call := s.calls[c];
    var v := s.(clock := at, calls := s.calls - {c});
    if call.answer.None? then
      if call.kid in s.cache.keys && Within(s.cache.fetchedAt, at, l.ttl + l.staleGrace) then HandOut(v, at) else v
    else
      var u := v.(cache := s.cache.(keys := call.answer.value, fetchedAt := Some(at)));
      if call.kid in call.answer.value then HandOut(u, at) else u
  }

  function Next(l: Limits, s: State, e: Event): State
    requires Allowed(l, s, e)
  {
    match e
    case Tick(to) => s.(clock := to)
    case Enter(c, kid, t1, t2, t3) => AfterEnter(l, s, c, kid, t1, t2, t3)
    case FetchEnds(c, answer) => s.(calls := s.calls[c := Fetched(s.calls[c].kid, answer)])
    case Leave(c, at) => AfterLeave(l, s, c, at)
  }

  predicate AllAllowed(l: Limits, s: State, es: seq<Event>)
    decreases |es|
  {
    es == [] || (Allowed(l, s, es[0]) && AllAllowed(l, Next(l, s, es[0]), es[1..]))
  }

  function Run(l: Limits, s: State, es: seq<Event>): State
    requires AllAllowed(l, s, es)
    decreases |es|
  {
    if es == [] then s else Run(l, Next(l, s, es[0]), es[1..])
  }

  function Start(clock: int): State {
    State(clock, Cache(map[], None, None), map[], [], [])
  }

  // ---- the invariant ----

  predicate StartsOk(l: Limits, s: State) {
    && (forall i :: 0 <= i < |s.starts| - 1 ==> s.starts[i + 1] - s.starts[i] >= l.minRefresh)
    && (if s.starts == [] then s.cache.lastAttempt == None
         else s.cache.lastAttempt == Some(s.starts[|s.starts| - 1]) && s.starts[|s.starts| - 1] <= s.clock)
  }

  /** Fetches in flight began at recorded starts and have not timed out, and no two share a start. */
  predicate CallsOk(l: Limits, s: State) {
    && InTime(l, s, s.clock)
    && (forall c :: c in s.calls && s.calls[c].Fetching? ==> s.calls[c].start in s.starts)
    && (forall c, d :: c in s.calls && d in s.calls && s.calls[c].Fetching? && s.calls[d].Fetching? && c != d ==>
          s.calls[c].start != s.calls[d].start)
  }

  predicate HandedOk(l: Limits, h: Handed) {
    h.storedAt.Some? && h.at - h.storedAt.value < l.ttl + l.staleGrace
  }

  predicate Inv(l: Limits, s: State) {
    StartsOk(l, s) && CallsOk(l, s) && forall i :: 0 <= i < |s.handed| ==> HandedOk(l, s.handed[i])
  }

  lemma {:induction false} StartsAscend(l: Limits, s: State, i: nat, j: nat)
    requires Positive(l) && StartsOk(l, s) && i < j < |s.starts|
    ensures s.starts[j] - s.starts[i] >= l.minRefresh
    decreases j
  {
    if i < j - 1 {
      StartsAscend(l, s, i, j - 1);
    }
  }

  lemma EnterKeeps(l: Limits, s: State, c: nat, kid: string, t1: int, t2: int, t3: int)
    requires Positive(l) && Inv(l, s) && Allowed(l, s, Enter(c, kid, t1, t2, t3))
    ensures Inv(l, AfterEnter(l, s, c, kid, t1, t2, t3))
  {
    var v := AfterEnter(l, s, c, kid, t1, t2, t3);
    if v.starts != s.starts {
      forall i | 0 <= i < |s.starts| ensures s.starts[i] < t3 {
        if i < |s.starts| - 1 { StartsAscend(l, s, i, |s.starts| - 1); }
      }
      forall d | d in s.calls && s.calls[d].Fetching? ensures v.calls[d].start != t3 {
        assert s.calls[d].start in s.starts;
      }
    }
  }

  lemma LeaveKeeps(l: Limits, s: State, c: nat, at: int)
    requires Positive(l) && Inv(l, s) && Allowed(l, s, Leave(c, at))
    ensures Inv(l, AfterLeave(l, s, c, at))
  {
  }

  lemma InvStep(l: Limits, s: State, e: Event)
    requires Positive(l) && Inv(l, s) && Allowed(l, s, e)
    ensures Inv(l, Next(l, s, e))
  {
    match e
    case Enter(c, kid, t1, t2, t3) => EnterKeeps(l, s, c, kid, t1, t2, t3);
    case Leave(c, at) => LeaveKeeps(l, s, c, at);
    case _ =>
  }

  lemma {:induction false} InvRun(l: Limits, s: State, es: seq<Event>)
    requires Positive(l) && Inv(l, s) && AllAllowed(l, s, es)
    ensures Inv(l, Run(l, s, es))
    decreases |es|
  {
    if es != [] {
      InvStep(l, s, es[0]);
      InvRun(l, Next(l, s, es[0]), es[1..]);
    }
  }

  function InFlight(s: State): set<nat> {
    set c | c in s.calls && s.calls[c].Fetching?
  }

  /** With a timeout below the refresh interval, one fetch has ended before another may start. */
  lemma OneInFlight(l: Limits, s: State, c: nat, d: nat)
    requires Positive(l) && Inv(l, s) && l.fetchTimeout < l.minRefresh && c in InFlight(s) && d in InFlight(s)
    ensures c == d
  {
    var i :| 0 <= i < |s.starts| && s.starts[i] == s.calls[c].start;
    var j :| 0 <= j < |s.starts| && s.starts[j] == s.calls[d].start;
    var last := |s.starts| - 1;
    if i < last { StartsAscend(l, s, i, last); }
    if j < last { StartsAscend(l, s, j, last); }
  }

  lemma LimitsHold(l: Limits, s: State)
    requires Positive(l) && Inv(l, s)
    ensures forall i, j :: 0 <= i < j < |s.starts| ==> s.starts[j] - s.starts[i] >= l.minRefresh
    ensures forall i :: 0 <= i < |s.handed| ==> HandedOk(l, s.handed[i])
    ensures l.fetchTimeout < l.minRefresh ==> forall c, d :: c in InFlight(s) && d in InFlight(s) ==> c == d
  {
    forall i, j | 0 <= i < j < |s.starts|
        ensures s.starts[j] - s.starts[i] >= l.minRefresh { StartsAscend(l, s, i, j); }
    if l.fetchTimeout < l.minRefresh {
      forall c, d | c in InFlight(s) && d in InFlight(s) ensures c == d { OneInFlight(l, s, c, d); }
    }
  }

  /** Over every interleaving of callers: fetches start at least MinRefreshInterval apart, at most
      one is in flight when the timeout is below that, and every key handed out came from a set
      stored less than TTL + StaleGrace before. */
  lemma FetchesApart(l: Limits, clock: int, es: seq<Event>)
    requires Positive(l) && AllAllowed(l, Start(clock), es)
    ensures var s := Run(l, Start(clock), es);
            && (forall i, j :: 0 <= i < j < |s.starts| ==> s.starts[j] - s.starts[i] >= l.minRefresh)
            && (forall i :: 0 <= i < |s.handed| ==> HandedOk(l, s.handed[i]))
            && (l.fetchTimeout < l.minRefresh ==> forall c, d :: c in InFlight(s) && d in InFlight(s) ==> c == d)
  {
    InvRun(l, Start(clock), es);
    LimitsHold(l, Run(l, Start(clock), es));
  }
}
