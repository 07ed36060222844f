/** oauth2/oidc.go as code: looking a key up, other callers coming in before, during and after the fetch. */
module Jwks {
  import opened Storage
  import opened JwksSpec

  /** What the other callers and the clock do between two steps. */
  datatype Rest = Rest(events: (nat, State) -> seq<Event>)

  function EventsOf(rest: Rest, n: nat, s: State): seq<Event> {
    rest.events(n, s)
  }

  predicate NotBy(es: seq<Event>, me: nat) {
    forall i :: 0 <= i < |es| ==> es[i].Tick? || es[i].caller != me
  }

  ghost predicate Fair(l: Limits, rest: Rest, me: nat) {
    forall n, s {:trigger EventsOf(rest, n, s)} ::
        AllAllowed(l, s, EventsOf(rest, n, s)) && NotBy(EventsOf(rest, n, s), me)
  }

  /** Nobody else calls, and time stands still. */
  ghost predicate Alone(rest: Rest) {
    forall n, s {:trigger EventsOf(rest, n, s)} :: EventsOf(rest, n, s) == []
  }

  predicate SameCall(s: State, t: State, me: nat) {
    (me in s.calls <==> me in t.calls) && (me in s.calls ==> t.calls[me] == s.calls[me])
  }

  lemma {:induction false} OthersKeep(l: Limits, s: State, es: seq<Event>, me: nat)
    requires AllAllowed(l, s, es) && NotBy(es, me)
    ensures SameCall(s, Run(l, s, es), me)
    decreases |es|
  {
    if es != [] {
      OthersKeep(l, Next(l, s, es[0]), es[1..], me);
    }
  }

  lemma {:induction false} RunAppend(l: Limits, s: State, es: seq<Event>, more: seq<Event>)
    requires AllAllowed(l, s, es) && AllAllowed(l, Run(l, s, es), more)
    ensures AllAllowed(l, s, es + more) && Run(l, s, es + more) == Run(l, Run(l, s, es), more)
    decreases |es|
  {
    if es == [] {
      assert es + more == more;
    } else {
      RunAppend(l, Next(l, s, es[0]), es[1..], more);
      assert (es + more)[1..] == es[1..] + more;
    }
  }

  class JwksCache {
    const l: Limits
    const rest: Rest
    var keys: KeySet
    var fetchedAt: Option<int>
    var lastAttempt: Option<int>
    /** The clock, the calls in flight and what was handed out, beside the cache. */
    var s: State
    var calls: nat
    ghost const from: int
    ghost var trace: seq<Event>

    constructor (l: Limits, rest: Rest, clock: int)
      requires Positive(l)
      ensures Valid() && this.l == l && this.rest == rest && s == Start(clock)
    {
      this.l, this.rest, s, calls, from, trace := l, rest, Start(clock), 0, clock, [];
      keys, fetchedAt, lastAttempt := map[], None, None;
    }

    /** The state is what the whole trace of events has made of it. */
    ghost predicate Linked()
      reads `s, `trace
    {
      Positive(l) && AllAllowed(l, Start(from), trace) && s == Run(l, Start(from), trace)
    }

    /** And the fields the code keeps are the cache of that state. */
    ghost predicate Valid()
      reads `s, `trace, `keys, `fetchedAt, `lastAttempt
    {
      Linked() && Held() == s.cache
    }

    ghost function Held(): Cache
      reads `keys, `fetchedAt, `lastAttempt
    {
      Cache(keys, fetchedAt, lastAttempt)
    }

    ghost method Extend(es: seq<Event>)
      requires Positive(l) && AllAllowed(l, Start(from), trace) && AllAllowed(l, Run(l, Start(from), trace), es)
      requires s == Run(l, Run(l, Start(from), trace), es)
      modifies `trace
      ensures Linked() && trace == old(trace) + es
    {
      RunAppend(l, Start(from), trace, es);
      trace := trace + es;
    }

    method Others(ghost me: nat)
      requires Valid() && Fair(l, rest, me)
      modifies this
      ensures Valid() && old(trace) <= trace && SameCall(old(s), s, me)
      ensures Alone(rest) ==> s == old(s)
    {
      var es := EventsOf(rest, calls, s);
      OthersKeep(l, s, es, me);
      s := Run(l, s, es);
      keys, fetchedAt, lastAttempt := s.cache.keys, s.cache.fetchedAt, s.cache.lastAttempt;
      calls := calls + 1;
      Extend(es);
    }

    /** The fields as the event leaves them. */
    method Do(e: Event)
      requires Linked() && Allowed(l, s, e) && Held() == Next(l, s, e).cache
      modifies `s, `trace
      ensures Valid() && s == Next(l, old(s), e) && trace == old(trace) + [e]
    {
      assert [e][1..] == [];
      s := Next(l, s, e);
      Extend([e]);
    }

    /** The last key handed out came from a set young enough. */
    ghost predicate JustHanded()
      reads `s
    {
      |s.handed| > 0 && HandedOk(l, s.handed[|s.handed| - 1])
    }

    /** The first locked step: answer from the set held, or claim the refresh slot. */
    method Enter(me: nat, kid: string) returns (key: Option<nat>, fetch: bool)
      requires Valid() && me !in s.calls
      modifies `s, `trace, `lastAttempt
      ensures Valid() && trace == old(trace) + [JwksSpec.Enter(me, kid, s.clock, s.clock, s.clock)]
      ensures s.clock == old(s).clock
      ensures var young := kid in keys && Within(fetchedAt, s.clock, l.ttl);
              var cooling := Within(old(lastAttempt), s.clock, l.minRefresh);
              && (fetch <==> !young && !cooling)
              && (key.Some? <==> young || (cooling && kid in keys && Within(fetchedAt, s.clock, l.ttl + l.staleGrace)))
      ensures key.Some? ==> key.value == keys[kid] && JustHanded()
      ensures key.Some? <==> |s.handed| == |old(s).handed| + 1
      ensures lastAttempt == if fetch then Some(s.clock) else old(lastAttempt)
      ensures if fetch then
                s.calls == old(s).calls[me := Fetching(kid, s.clock)] && s.starts == old(s).starts + [s.clock]
              else s.calls == old(s).calls && s.starts == old(s).starts
    {
      InvRun(l, Start(from), trace);
      var now := s.clock;
      EnterKeeps(l, s, me, kid, now, now, now);
      key, fetch := None, false;
      if kid in keys && Within(fetchedAt, now, l.ttl) {
        key := Some(keys[kid]);
      } else if Within(lastAttempt, now, l.minRefresh) {
        if kid in keys && Within(fetchedAt, now, l.ttl + l.staleGrace) {
          key := Some(keys[kid]);
        }
      } else {
        lastAttempt, fetch := Some(now), true;
      }
      Do(JwksSpec.Enter(me, kid, now, now, now));
    }

    /** The second locked step: store the set fetched, or fall back on the one held. */
    method Leave(me: nat, kid: string, answer: Option<KeySet>) returns (key: Option<nat>)
      requires Valid() && me in s.calls && s.calls[me] == Fetched(kid, answer)
      modifies `s, `trace, `keys, `fetchedAt
      ensures Valid() && trace == old(trace) + [JwksSpec.Leave(me, s.clock)] && s.clock == old(s).clock
      ensures s.calls == old(s).calls - {me}
      ensures answer.None? ==> keys == old(keys) && fetchedAt == old(fetchedAt)
      ensures answer.None? ==> (key.Some? <==> kid in keys && Within(fetchedAt, s.clock, l.ttl + l.staleGrace))
      ensures answer.Some? ==> keys == answer.value && fetchedAt == Some(s.clock)
      ensures answer.Some? ==> (key.Some? <==> kid in keys)
      ensures key.Some? ==> key.value == keys[kid] && JustHanded()
      ensures key.Some? <==> |s.handed| == |old(s).handed| + 1
    {
      InvRun(l, Start(from), trace);
      var now := s.clock;
      LeaveKeeps(l, s, me, now);
      key := None;
      if answer.None? {
        if kid in keys && Within(fetchedAt, now, l.ttl + l.staleGrace) {
          key := Some(keys[kid]);
        }
      } else {
        keys, fetchedAt := answer.value, Some(now);
        if kid in answer.value {
          key := Some(answer.value[kid]);
        }
      }
      Do(JwksSpec.Leave(me, now));
    }

    /** Key, the set fetched being whatever the provider answers: a key from a set young enough, and
        refused only when the set held lacks it or is past its TTL. What a fetch brings is stored. */
    method Key(me: nat, kid: string, answer: Option<KeySet>) returns (key: Option<nat>, ghost fetched: bool)
      requires Valid() && Fair(l, rest, me) && me !in s.calls
      modifies this
      ensures Valid() && old(trace) <= trace && me !in s.calls
      ensures key.Some? ==> kid in keys && key.value == keys[kid] && JustHanded()
      ensures key.None? ==> kid !in keys || !Within(fetchedAt, s.clock, l.ttl)
      ensures fetched ==> FetchEnds(me, answer) in trace && trace[|trace| - 1] == JwksSpec.Leave(me, s.clock)
      ensures !fetched ==> |trace| > 0 && trace[|trace| - 1] == JwksSpec.Enter(me, kid, s.clock, s.clock, s.clock)
      ensures fetched && answer.Some? ==> keys == answer.value && fetchedAt == Some(s.clock)
      ensures fetched && answer.None? ==>
                (key.Some? <==> kid in keys && Within(fetchedAt, s.clock, l.ttl + l.staleGrace))
      ensures Alone(rest) ==>
                var young := kid in old(keys) && Within(old(fetchedAt), old(s).clock, l.ttl);
                && (fetched <==> !young && !Within(old(lastAttempt), old(s).clock, l.minRefresh))
                && (!fetched || answer.None? ==> keys == old(keys) && fetchedAt == old(fetchedAt))
    {
      Others(me);
      var fetch;
      key, fetch := Enter(me, kid);
      fetched := fetch;
      if !fetch {
        return;
      }
      key := Finish(me, kid, answer);
    }

    /** The fetch ends, and the second step follows. */
    method Finish(me: nat, kid: string, answer: Option<KeySet>) returns (key: Option<nat>)
      requires Valid() && Fair(l, rest, me) && me in s.calls && s.calls[me].Fetching? && s.calls[me].kid == kid
      modifies this
      ensures Valid() && old(trace) <= trace && me !in s.calls && FetchEnds(me, answer) in trace
      ensures trace[|trace| - 1] == JwksSpec.Leave(me, s.clock)
      ensures answer.Some? ==> keys == answer.value && fetchedAt == Some(s.clock) && (key.Some? <==> kid in keys)
      ensures answer.None? ==> (key.Some? <==> kid in keys && Within(fetchedAt, s.clock, l.ttl + l.staleGrace))
      ensures key.Some? ==> key.value == keys[kid] && JustHanded()
      ensures Alone(rest) && answer.None? ==> keys == old(keys) && fetchedAt == old(fetchedAt)
    {
      Others(me);
      Do(FetchEnds(me, answer));
      assert trace[|trace| - 1] == FetchEnds(me, answer);
      Others(me);
      key := Leave(me, kid, answer);
    }
  }

  /** Whatever callers a cache serves, and whatever runs between their steps. */
  lemma CacheKeepsItsLimits(c: JwksCache)
    requires c.Valid()
    ensures forall i, j :: 0 <= i < j < |c.s.starts| ==> c.s.starts[j] - c.s.starts[i] >= c.l.minRefresh
    ensures forall i :: 0 <= i < |c.s.handed| ==> HandedOk(c.l, c.s.handed[i])
    ensures c.l.fetchTimeout < c.l.minRefresh ==> forall a, b :: a in InFlight(c.s) && b in InFlight(c.s) ==> a == b
  {
    InvRun(c.l, Start(c.from), c.trace);
    LimitsHold(c.l, c.s);
  }
}
