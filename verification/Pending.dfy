/** plugins/twofactor/twofactor.go as code: answering one pending challenge, other operations
    coming in before every storage call. */
module Pending {
  import opened Storage
  import opened TokenSpec
  import opened PendingSpec
  import opened Tokens

  /** What the rest of the system does to the challenge between two calls. */
  datatype Crowd = Crowd(steps: (nat, Challenge) -> seq<Step>, fails: nat -> bool)

  function StepsOf(crowd: Crowd, n: nat, c: Challenge): seq<Step> {
    crowd.steps(n, c)
  }

  function CallFails(crowd: Crowd, n: nat): bool {
    crowd.fails(n)
  }

  predicate Involves(e: Step, me: nat) {
    match e
    case Base(b) => OpOf(b) == Some(me)
    case Fail(op) => op == me
    case ClearOld(op) => op == me
    case Reinstate(op, _, _) => op == me
    case Complete(op) => op == me
    case Mint(op) => op == me
    case Stop(op) => op == me
  }

  predicate NoneInvolve(es: seq<Step>, me: nat) {
    forall e :: e in es ==> !Involves(e, me)
  }

  ghost predicate FairCrowd(crowd: Crowd, me: nat) {
    forall n, c {:trigger StepsOf(crowd, n, c)} ::
        AllSteps(c, StepsOf(crowd, n, c)) && NoneInvolve(StepsOf(crowd, n, c), me)
  }

  /** No other operation does anything, and no call fails. */
  ghost predicate IdleCrowd(crowd: Crowd) {
    && (forall n, c {:trigger StepsOf(crowd, n, c)} :: StepsOf(crowd, n, c) == [])
    && (forall n {:trigger CallFails(crowd, n)} :: !CallFails(crowd, n))
  }

  /** A live row of the challenge. */
  predicate Redeemable(c: Challenge) {
    exists id :: id in Under(c.t.rows, c.identifier) && Live(c.t.rows[id], c.t.clock)
  }

  /** This operation's place in the protocol. */
  predicate SamePlace(c: Challenge, d: Challenge, me: nat) {
    && SamePhase(c.t, d.t, me) && d.identifier == c.identifier && d.user == c.user
    && (me in d.stages <==> me in c.stages) && (me in c.stages ==> d.stages[me] == c.stages[me])
    && c.t.clock <= d.t.clock && c.wrong <= d.wrong
  }

  lemma {:induction false} CrowdKeeps(c: Challenge, es: seq<Step>, me: nat)
    requires AllSteps(c, es) && NoneInvolve(es, me)
    ensures SamePlace(c, Through(c, es), me)
    decreases |es|
  {
    if es != [] {
      assert es[0] in es;
      CrowdKeeps(After(c, es[0]), es[1..], me);
    }
  }

  lemma {:induction false} ThroughAppend(c: Challenge, es: seq<Step>, more: seq<Step>)
    requires AllSteps(c, es) && AllSteps(Through(c, es), more)
    ensures AllSteps(c, es + more) && Through(c, es + more) == Through(Through(c, es), more)
    decreases |es|
  {
    if es == [] {
      assert es + more == more;
    } else {
      ThroughAppend(After(c, es[0]), es[1..], more);
      assert (es + more)[1..] == es[1..] + more;
    }
  }

  datatype Reply = Unauthorized | InvalidCode | TooManyAttempts | SignedIn | NoSession

  class Desk {
    const crowd: Crowd
    var c: Challenge
    var calls: nat
    ghost const start: Challenge
    ghost var trace: seq<Step>

    constructor (c: Challenge, crowd: Crowd)
      requires Sound(c)
      ensures Valid() && this.c == start == c && this.crowd == crowd && trace == []
    {
      this.c, this.crowd, calls, start, trace := c, crowd, 0, c, [];
    }

    /** The challenge is what the whole trace of steps has made of it. */
    ghost predicate Valid()
      reads `c, `trace
    {
      Sound(start) && AllSteps(start, trace) && c == Through(start, trace)
    }

    ghost method Extend(es: seq<Step>)
      requires Sound(start) && AllSteps(start, trace) && AllSteps(Through(start, trace), es)
      requires c == Through(Through(start, trace), es)
      modifies `trace
      ensures Valid() && trace == old(trace) + es
    {
      ThroughAppend(start, trace, es);
      trace := trace + es;
    }

    method Others(ghost me: nat)
      requires Valid() && FairCrowd(crowd, me)
      modifies this
      ensures Valid() && old(trace) <= trace && SamePlace(old(c), c, me)
      ensures calls == old(calls) + 1 && (IdleCrowd(crowd) ==> c == old(c))
    {
      var es := StepsOf(crowd, calls, c);
      CrowdKeeps(c, es, me);
      c := Through(c, es);
      calls := calls + 1;
      Extend(es);
    }

    method Do(e: Step)
      requires Valid() && StepAllowed(c, e)
      modifies `c, `trace
      ensures Valid() && c == After(old(c), e) && trace == old(trace) + [e]
    {
      assert [e][1..] == [];
      c := After(c, e);
      Extend([e]);
    }

    /** A call since the one numbered n failed. */
    ghost predicate FailedSince(n: nat)
      reads `calls
    {
      exists k :: n < k <= calls && CallFails(crowd, k)
    }

    /** FindMany on the challenge's identifier, newest first, of the table as `read` made it. */
    method ReadRows(me: nat) returns (recs: seq<(nat, Verification)>, ghost read: seq<Step>)
      requires Valid() && FairCrowd(crowd, me) && me !in c.t.phases && me !in c.stages
      modifies this
      ensures Valid() && old(trace) <= read <= trace && AllSteps(start, read)
      ensures c.identifier == old(c).identifier && old(c).wrong <= c.wrong && me !in c.stages && calls == old(calls) + 1
      ensures me in c.t.phases
      ensures c.t.phases[me] == Reading(c.identifier, Under(Through(start, read).t.rows, c.identifier))
      ensures NewestFirst(recs, Under(Through(start, read).t.rows, c.identifier))
      ensures IdleCrowd(crowd) ==> Through(start, read) == old(c) && c == old(c).(t := old(c).t.(phases := c.t.phases))
    {
      Others(me);
      read := trace;
      recs := SortNewestFirst(Under(c.t.rows, c.identifier));
      Do(Base(Read(me, c.identifier)));
    }

    /** What was decided at the time `at` on the rows as `read` made them. */
    ghost predicate DecidedOn(read: seq<Step>, at: int, held: Option<nat>)
      reads `c
    {
      AllSteps(start, read) && IsLatest(Under(Through(start, read).t.rows, c.identifier), at, held)
    }

    /** The challenge's row, held for claiming. */
    method Lookup(me: nat) returns (held: Option<nat>, ghost read: seq<Step>, ghost at: int)
      requires Valid() && FairCrowd(crowd, me) && me !in c.t.phases && me !in c.stages
      modifies this
      ensures Valid() && old(trace) <= read <= trace && DecidedOn(read, at, held)
      ensures c.identifier == old(c).identifier && old(c).wrong <= c.wrong && me !in c.stages && me in c.t.phases
      ensures held.Some? ==>
                c.t.phases[me].Holding? && c.t.phases[me].id == held.value &&
                    c.t.phases[me].v.identifier == c.identifier
      ensures calls > old(calls)
      ensures IdleCrowd(crowd) ==> Through(start, read) == old(c) && at == old(c).t.clock
      ensures IdleCrowd(crowd) && held.Some? ==> c == old(c).(t := old(c).t.(phases := c.t.phases))
    {
      var recs, saw := ReadRows(me);
      read := saw;
      Others(me);
      var i := FirstLive(recs, c.t.clock);
      at := c.t.clock;
      FirstIsLatest(recs, c.t.phases[me].found, c.t.clock, i);
      held := if i < |recs| then Some(recs[i].0) else None;
      Settle(me, held);
    }

    method Settle(me: nat, chosen: Option<nat>)
      requires Valid() && FairCrowd(crowd, me) && me in c.t.phases && me !in c.stages && c.t.phases[me].Reading?
      requires c.t.phases[me].identifier == c.identifier && IsLatest(c.t.phases[me].found, c.t.clock, chosen)
      modifies this
      ensures Valid() && old(trace) <= trace && old(calls) <= calls
      ensures c.identifier == old(c).identifier && old(c).wrong <= c.wrong && me !in c.stages && me in c.t.phases
      ensures chosen.Some? ==>
                && c == old(c).(t := old(c).t.(phases := c.t.phases))
                && c.t.phases[me].Holding? && c.t.phases[me].id == chosen.value
                && c.t.phases[me].v.identifier == c.identifier
    {
      Choose(me, chosen);
      if chosen.None? {
        Others(me);
        Do(Base(TokenSpec.Sweep(me)));
      }
    }

    /** The row chosen is held; with none live, the operation goes on to delete the expired ones. */
    method Choose(me: nat, chosen: Option<nat>)
      requires Valid() && me in c.t.phases && me !in c.stages && c.t.phases[me].Reading?
      requires c.t.phases[me].identifier == c.identifier
      requires IsLatest(c.t.phases[me].found, c.t.clock, chosen)
      modifies `c, `trace
      ensures Valid() && trace == old(trace) + [Base(Decide(me, chosen))]
      ensures c == old(c).(t := old(c).t.(phases := c.t.phases))
      ensures me in c.t.phases
      ensures match c.t.phases[me]
              case Holding(id, v) => chosen == Some(id) && v.identifier == c.identifier
              case Sweeping(_, _) => chosen == None
              case _ => false
    {
      SoundThrough(start, trace);
      assert PhaseOk(c.t, c.t.phases[me]);
      Do(Base(Decide(me, chosen)));
    }

    /** The last step is this operation's claim, of a row that had left the table before it. */
    ghost predicate GoneBeforeClaim(me: nat, id: nat)
      reads `trace
    {
      && |trace| > 0 && trace[|trace| - 1] == Base(Claim(me))
      && AllSteps(start, trace[..|trace| - 1]) && id !in Through(start, trace[..|trace| - 1]).t.rows
    }

    /** The token is not taken only when no row was live, when the one held was gone before the
        claim, or when a call failed. */
    ghost predicate Excused(me: nat, read: seq<Step>, at: int, held: Option<nat>, n: nat)
      reads `c, `trace, `calls
    {
      DecidedOn(read, at, held) && (held.None? || GoneBeforeClaim(me, held.value) || FailedSince(n))
    }

    /** ConsumeToken on the challenge's token. */
    method Consume(me: nat) returns (taken: bool, ghost held: Option<nat>, ghost read: seq<Step>, ghost at: int)
      requires Valid() && FairCrowd(crowd, me) && me !in c.t.phases && me !in c.stages
      modifies this
      ensures Valid() && old(trace) <= read <= trace && c.identifier == old(c).identifier && old(c).wrong <= c.wrong
      ensures if taken then At(c, me, Taken) else me !in c.stages
      ensures !taken ==> Excused(me, read, at, held, old(calls))
      ensures calls > old(calls) && (IdleCrowd(crowd) ==> (taken <==> Redeemable(old(c))))
      ensures IdleCrowd(crowd) && taken ==> c.wrong == old(c).wrong
    {
      var id, saw, when := Lookup(me);
      held, read, at := id, saw, when;
      if id.None? {
        return false, held, read, at;
      }
      taken := ClaimHeld(me, id.value);
    }

    method ClaimHeld(me: nat, id: nat) returns (taken: bool)
      requires Valid() && FairCrowd(crowd, me) && me in c.t.phases && me !in c.stages
      requires c.t.phases[me].Holding? && c.t.phases[me].id == id && c.t.phases[me].v.identifier == c.identifier
      modifies this
      ensures Valid() && old(trace) <= trace && c.identifier == old(c).identifier && old(c).wrong <= c.wrong
      ensures if taken then At(c, me, Taken) else me !in c.stages
      ensures calls == old(calls) + 1
      ensures !taken ==> CallFails(crowd, calls) || GoneBeforeClaim(me, id)
      ensures IdleCrowd(crowd) ==> (taken <==> id in old(c).t.rows) && c.wrong == old(c).wrong
    {
      Others(me);
      if CallFails(crowd, calls) {
        Do(Base(ClaimLost(me)));
        return false;
      }
      ghost var before := trace;
      taken := id in c.t.rows;
      Do(Base(Claim(me)));
      assert trace[..|trace| - 1] == before;
    }

    /** The one row of the challenge holds the number of wrong guesses so far, for ttl. */
    ghost predicate CountStored(ttl: int)
      reads `c
    {
      && |Ids(c.t.rows, c.identifier)| == 1
      && forall id :: id in Ids(c.t.rows, c.identifier) ==>
           var v := c.t.rows[id];
           v.value == PendingValue(c.user, |c.wrong|) && v.expiresAt == v.createdAt + ttl
    }

    /** Put the token back with the count advanced; only a failed call loses it. */
    method PutBack(me: nat, ttl: int)
      requires Valid() && FairCrowd(crowd, me) && me in c.stages && c.stages[me].Wrong?
      modifies this
      ensures Valid() && old(trace) <= trace && old(c).wrong <= c.wrong && calls > old(calls)
      ensures (At(c, me, Reinstated) && CountStored(ttl)) || (At(c, me, Stopped) && FailedSince(old(calls)))
      ensures IdleCrowd(crowd) ==> c.wrong == old(c).wrong
    {
      Others(me);
      if CallFails(crowd, calls) {
        Do(Stop(me));
        return;
      }
      Do(ClearOld(me));
      var at := c.t.clock;
      Others(me);
      if CallFails(crowd, calls) {
        Do(Stop(me));
        return;
      }
      Store(me, at, ttl);
    }

    method Store(me: nat, at: int, ttl: int)
      requires Valid() && StepAllowed(c, Reinstate(me, at, ttl))
      modifies `c, `trace
      ensures Valid() && trace == old(trace) + [Reinstate(me, at, ttl)] && c.wrong == old(c).wrong
      ensures At(c, me, Reinstated) && CountStored(ttl)
    {
      SoundThrough(start, trace);
      Alone(c, me);
      assert StageOk(c, me, c.stages[me]);
      ghost var id := |c.t.made|;
      Do(Reinstate(me, at, ttl));
      assert Ids(c.t.rows, c.identifier) == {id};
    }

    /** failAttempt: a wrong guess takes the token, and puts it back with the count advanced
        unless the budget is spent. Only a failed call keeps it from being put back; undisturbed,
        a guess at a live challenge always counts one more. */
    method FailAttempt(me: nat, ttl: int)
        returns (reply: Reply, ghost held: Option<nat>, ghost read: seq<Step>, ghost at: int)
      requires Valid() && FairCrowd(crowd, me) && me !in c.t.phases && me !in c.stages
      modifies this
      ensures Valid() && old(trace) <= read <= trace && old(c).wrong <= c.wrong
      ensures reply == Unauthorized <==> me !in c.stages
      ensures reply == Unauthorized ==> Excused(me, read, at, held, old(calls))
      ensures reply == TooManyAttempts <==> At(c, me, Locked)
      ensures reply == TooManyAttempts ==> |c.wrong| == MAX_ATTEMPTS
      ensures reply == InvalidCode ==>
                && |old(c).wrong| < |c.wrong|
                && ((At(c, me, Reinstated) && CountStored(ttl)) || (At(c, me, Stopped) && FailedSince(old(calls))))
      ensures reply in {Unauthorized, InvalidCode, TooManyAttempts}
      ensures IdleCrowd(crowd) && Redeemable(old(c)) ==>
                && |c.wrong| == |old(c).wrong| + 1
                && reply == if |c.wrong| == MAX_ATTEMPTS then TooManyAttempts else InvalidCode
    {
      var taken, row, saw, when := Consume(me);
      held, read, at := row, saw, when;
      if !taken {
        return Unauthorized, held, read, at;
      }
      reply := Judge(me, ttl);
    }

    /** The guess is counted, and the token put back or not. */
    method Judge(me: nat, ttl: int) returns (reply: Reply)
      requires Valid() && FairCrowd(crowd, me) && At(c, me, Taken)
      modifies this
      ensures Valid() && old(trace) <= trace && |old(c).wrong| < |c.wrong| && old(c).wrong <= c.wrong
      ensures reply == TooManyAttempts <==> At(c, me, Locked)
      ensures reply == TooManyAttempts ==> |c.wrong| == MAX_ATTEMPTS
      ensures reply == InvalidCode ==>
                (At(c, me, Reinstated) && CountStored(ttl)) || (At(c, me, Stopped) && FailedSince(old(calls)))
      ensures reply in {InvalidCode, TooManyAttempts} && me in c.stages
      ensures IdleCrowd(crowd) ==>
                && |c.wrong| == |old(c).wrong| + 1
                && reply == if |c.wrong| == MAX_ATTEMPTS then TooManyAttempts else InvalidCode
    {
      SoundThrough(start, trace);
      CountIs(c, me);
      var n := CountAfter(c, me);
      Do(Fail(me));
      if n >= MAX_ATTEMPTS {
        SoundThrough(start, trace);
        return TooManyAttempts;
      }
      PutBack(me, ttl);
      return InvalidCode;
    }

    /** completePending: the session goes to the caller that took the token, unless a guard takes
        over or a call fails. */
    method CompletePending(me: nat, guarded: bool)
        returns (reply: Reply, ghost held: Option<nat>, ghost read: seq<Step>, ghost at: int)
      requires Valid() && FairCrowd(crowd, me) && me !in c.t.phases && me !in c.stages
      modifies this
      ensures Valid() && old(trace) <= read <= trace
      ensures reply == SignedIn <==> At(c, me, Minted)
      ensures reply == SignedIn ==> MintedBy(c) == {me} && Ids(c.t.rows, c.identifier) == {}
      ensures reply == Unauthorized <==> me !in c.stages
      ensures reply == Unauthorized ==> Excused(me, read, at, held, old(calls))
      ensures reply == NoSession ==> guarded || FailedSince(old(calls))
      ensures reply in {SignedIn, Unauthorized, NoSession}
      ensures IdleCrowd(crowd) ==> (reply == SignedIn <==> Redeemable(old(c)) && !guarded)
    {
      var taken, row, saw, when := Consume(me);
      held, read, at := row, saw, when;
      if !taken {
        return Unauthorized, held, read, at;
      }
      reply := Finish(me, guarded);
    }

    method Finish(me: nat, guarded: bool) returns (reply: Reply)
      requires Valid() && FairCrowd(crowd, me) && At(c, me, Taken)
      modifies this
      ensures Valid() && old(trace) <= trace && me in c.stages && reply in {SignedIn, NoSession}
      ensures reply == SignedIn <==> At(c, me, Minted)
      ensures reply == SignedIn ==> MintedBy(c) == {me} && Ids(c.t.rows, c.identifier) == {}
      ensures reply == NoSession ==> guarded || FailedSince(old(calls))
      ensures guarded ==> reply == NoSession
    {
      Do(Complete(me));
      Others(me);
      if guarded || CallFails(crowd, calls) {
        Do(Stop(me));
        return NoSession;
      }
      MintFor(me);
      return SignedIn;
    }

    method MintFor(me: nat)
      requires Valid() && At(c, me, Right)
      modifies `c, `trace
      ensures Valid() && trace == old(trace) + [Mint(me)]
      ensures At(c, me, Minted) && MintedBy(c) == {me} && Ids(c.t.rows, c.identifier) == {}
    {
      Do(Mint(me));
      SoundThrough(start, trace);
      assert me in Spent(c);
      Alone(c, me);
      assert MintedBy(c) <= Spent(c) && me in MintedBy(c);
    }
  }
}
