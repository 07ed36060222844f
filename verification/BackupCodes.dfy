/** plugins/twofactor/twofactor.go as code: the handlers that read and rewrite one twoFactor row,
    other operations coming in before every storage call. */
module BackupCodes {
  import opened Storage
  import opened Keyring
  import opened ReencryptSpec
  import opened BackupSpec

  /** What the rest of the system does to the row between two calls, and whose answers are lost. */
  datatype World = World(events: (nat, Factor) -> seq<Event>, answerLost: nat -> bool)

  function EventsOf(w: World, n: nat, s: Factor): seq<Event> {
    w.events(n, s)
  }

  function IsLost(w: World, n: nat): bool {
    w.answerLost(n)
  }

  predicate OthersOnly(es: seq<Event>, me: nat) {
    forall i :: 0 <= i < |es| ==> es[i].Regenerate? || es[i].op != me
  }

  ghost predicate FairWorld(p: Setup, w: World, me: nat)
    requires p.ring.keys != [] && p.model != ""
  {
    forall n, s {:trigger EventsOf(w, n, s)} :: AllAllowed(p, s, EventsOf(w, n, s)) && OthersOnly(EventsOf(w, n, s), me)
  }

  /** No other operation does anything, and no answer is lost. */
  ghost predicate IdleWorld(w: World) {
    && (forall n, s {:trigger EventsOf(w, n, s)} :: EventsOf(w, n, s) == [])
    && (forall n {:trigger IsLost(w, n)} :: !IsLost(w, n))
  }

  predicate SameRead(s: Factor, t: Factor, me: nat) {
    (me in s.loaded ==> me in t.loaded && t.loaded[me] == s.loaded[me])
  }

  lemma {:induction false} OthersKeep(p: Setup, s: Factor, es: seq<Event>, me: nat)
    requires p.ring.keys != [] && p.model != "" && AllAllowed(p, s, es) && OthersOnly(es, me)
    ensures SameRead(s, Run(p, s, es), me)
    decreases |es|
  {
    if es != [] {
      OthersKeep(p, Next(p, s, es[0]), es[1..], me);
    }
  }

  lemma {:induction false} RunAppend(p: Setup, s: Factor, es: seq<Event>, more: seq<Event>)
    requires p.ring.keys != [] && p.model != "" && AllAllowed(p, s, es) && AllAllowed(p, Run(p, s, es), more)
    ensures AllAllowed(p, s, es + more) && Run(p, s, es + more) == Run(p, Run(p, s, es), more)
    decreases |es|
  {
    if es == [] {
      assert es + more == more;
    } else {
      RunAppend(p, Next(p, s, es[0]), es[1..], more);
      assert (es + more)[1..] == es[1..] + more;
    }
  }

  method FindCode(codes: seq<string>, want: string) returns (idx: int)
    ensures want in codes ==> idx == IndexOf(codes, want)
    ensures want !in codes ==> idx == -1
  {
    idx := -1;
    for i := 0 to |codes|
      invariant idx == -1 && forall k :: 0 <= k < i ==> codes[k] != want
    {
      if codes[i] == want {
        FirstAt(codes, want, i);
        return i;
      }
    }
  }

  lemma {:induction false} FirstAt(codes: seq<string>, want: string, i: nat)
    requires i < |codes| && codes[i] == want && forall k :: 0 <= k < i ==> codes[k] != want
    ensures IndexOf(codes, want) == i
  {
    if i > 0 {
      assert codes[1..][i - 1] == want;
      FirstAt(codes[1..], want, i - 1);
    }
  }

  datatype Reply = Accepted | WrongCode | Replayed | Retry | Unreadable | Errored

  class Row {
    const p: Setup
    const w: World
    var s: Factor
    var calls: nat
    ghost const enrolled: Factor
    ghost var trace: seq<Event>

    constructor (p: Setup, w: World, codes: seq<string>, nonce: nat)
      requires Proper(p)
      ensures Valid() && this.p == p && this.w == w && enrolled == s == Enrol(p, codes, nonce) && trace == []
    {
      this.p, this.w := p, w;
      s, calls, enrolled, trace := Enrol(p, codes, nonce), 0, Enrol(p, codes, nonce), [];
      new;
      SealedCodes(p, codes, nonce);
    }

    /** The row is what the whole trace of events has made of it since enrolment. */
    ghost predicate Valid()
      reads this
    {
      Proper(p) && Conserved(p, enrolled) && StepsClimb(enrolled) && AllAllowed(p, enrolled, trace) &&
          s == Run(p, enrolled, trace)
    }

    ghost method Extend(es: seq<Event>)
      requires Proper(p) && Conserved(p, enrolled) && StepsClimb(enrolled) && AllAllowed(p, enrolled, trace)
      requires AllAllowed(p, Run(p, enrolled, trace), es) && s == Run(p, Run(p, enrolled, trace), es)
      modifies `trace
      ensures Valid() && trace == old(trace) + es
    {
      RunAppend(p, enrolled, trace, es);
      trace := trace + es;
    }

    method Others(ghost me: nat)
      requires Valid() && FairWorld(p, w, me)
      modifies this
      ensures Valid() && old(trace) <= trace && SameRead(old(s), s, me)
      ensures calls == old(calls) + 1 && (IdleWorld(w) ==> s == old(s))
    {
      var es := EventsOf(w, calls, s);
      OthersKeep(p, s, es, me);
      s := Run(p, s, es);
      calls := calls + 1;
      Extend(es);
    }

    method Do(e: Event)
      requires Valid() && Allowed(p, s, e)
      modifies `s, `trace
      ensures Valid() && s == Next(p, old(s), e) && trace == old(trace) + [e]
    {
      assert [e][1..] == [];
      s := Next(p, s, e);
      Extend([e]);
    }

    /** Reads the columns. */
    method Read(me: nat)
      requires Valid() && FairWorld(p, w, me)
      modifies this
      ensures Valid() && old(trace) <= trace && calls == old(calls) + 1
      ensures me in s.loaded && s.loaded[me] == Loaded(s.codes, s.last)
      ensures |trace| > 0 && trace[|trace| - 1] == Load(me)
      ensures IdleWorld(w) ==> s == old(s).(loaded := s.loaded)
    {
      Others(me);
      Do(Load(me));
    }

    /** handleVerifyBackupCode: a matching code is spent by a compare-and-set on the ciphertext read.
        With the row as it was read and the answer not lost the code is accepted, and taken off
        the list; a retry is asked for only when the row had changed, and then it is untouched. */
    method VerifyBackupCode(me: nat, code: string, nonce: nat) returns (reply: Reply, ghost before: Factor)
      requires Valid() && FairWorld(p, w, me)
      modifies this
      ensures Valid() && old(trace) <= trace
      ensures reply == Accepted ==>
                trace != [] && trace[|trace| - 1] == UseCode(me, code, nonce, false) && s.accepted[code] > 0
      ensures reply in {Accepted, WrongCode, Retry, Unreadable, Errored} && me in s.loaded
      ensures reply == Unreadable <==> CodesIn(p, s.loaded[me].codes).None?
      ensures reply == WrongCode <==>
                CodesIn(p, s.loaded[me].codes).Some? && code !in CodesIn(p, s.loaded[me].codes).value
      ensures reply in {Accepted, Retry, Errored} ==>
                trace != [] && trace[|trace| - 1] == UseCode(me, code, nonce, reply == Errored)
      ensures reply == Errored ==> IsLost(w, calls)
      ensures reply == Retry ==> before.codes != s.loaded[me].codes && s == before
      ensures reply == Accepted ==>
                && before.codes == s.loaded[me].codes && CodesIn(p, s.codes).Some? &&
                     s.accepted[code] == before.accepted[code] + 1
                && multiset(CodesIn(p, s.codes).value) + multiset{code} == multiset(CodesIn(p, before.codes).value)
      ensures IdleWorld(w) ==>
                (reply == Accepted <==> CodesIn(p, old(s).codes).Some? && code in CodesIn(p, old(s).codes).value)
    {
      Read(me);
      var enc := s.codes;
      var codes := CodesIn(p, enc);
      before := s;
      if codes.None? {
        return Unreadable, before;
      }
      var idx := FindCode(codes.value, code);
      if idx < 0 {
        return WrongCode, before;
      }
      reply, before := Spend(me, code, nonce, enc);
    }

    /** The compare-and-set. */
    method Spend(me: nat, code: string, nonce: nat, enc: Text) returns (reply: Reply, ghost before: Factor)
      requires Valid() && FairWorld(p, w, me) && me in s.loaded && s.loaded[me].codes == enc
      requires CodesIn(p, enc).Some? && code in CodesIn(p, enc).value
      modifies this
      ensures Valid() && old(trace) <= trace && me in s.loaded && s.loaded[me] == old(s).loaded[me]
      ensures trace != [] && trace[|trace| - 1] == UseCode(me, code, nonce, reply == Errored)
      ensures reply in {Accepted, Retry, Errored} && (reply == Errored <==> IsLost(w, calls))
      ensures reply != Errored ==> (reply == Accepted <==> before.codes == enc)
      ensures reply == Retry ==> s == before
      ensures reply == Accepted ==>
                && CodesIn(p, s.codes).Some? && s.accepted[code] == before.accepted[code] + 1
                && multiset(CodesIn(p, s.codes).value) + multiset{code} == multiset(CodesIn(p, enc).value)
      ensures IdleWorld(w) ==> before == old(s)
    {
      Others(me);
      var lost := IsLost(w, calls);
      var swapped := s.codes == enc;
      before := s;
      Do(UseCode(me, code, nonce, lost));
      if swapped && !lost {
        SealedCodes(p, Without(CodesIn(p, enc).value, code), nonce);
        WithoutTakesOne(CodesIn(p, enc).value, code);
      }
      reply := if lost then Errored else if swapped then Accepted else Retry;
    }

    /** handleGenerateBackupCodes: the list is replaced whatever it holds. */
    method GenerateBackupCodes(ghost me: nat, codes: seq<string>, nonce: nat)
      requires Valid() && FairWorld(p, w, me)
      modifies this
      ensures Valid() && old(trace) <= trace
      ensures CodesIn(p, s.codes) == Some(codes) && s.accepted == multiset{} && s.generated == codes
    {
      Others(me);
      Do(Regenerate(codes, nonce));
      SealedCodes(p, codes, nonce);
    }

    /** claimCounter: a time step is accepted only past the one stored, by compare-and-set; and it
        is accepted whenever it is past the one read, which is still there, and the answer arrives. */
    method VerifyTotp(me: nat, counter: int) returns (reply: Reply, ghost before: Factor)
      requires Valid() && FairWorld(p, w, me)
      modifies this
      ensures Valid() && old(trace) <= trace && me in s.loaded
      ensures reply == Accepted ==> s.steps != [] && s.steps[|s.steps| - 1] == counter == s.last
      ensures reply == Accepted ==> forall i :: 0 <= i < |s.steps| - 1 ==> s.steps[i] < counter
      ensures reply in {Accepted, Replayed}
      ensures reply == Replayed ==>
                counter <= s.loaded[me].last || IsLost(w, calls) || (before.last != s.loaded[me].last && s == before)
      ensures IdleWorld(w) ==> (reply == Accepted <==> counter > old(s).last)
    {
      Read(me);
      var last := s.last;
      before := s;
      if counter <= last {
        return Replayed, before;
      }
      Others(me);
      var lost := IsLost(w, calls);
      var claimed := !lost && s.last == last;
      before := s;
      Do(ClaimStep(me, counter, lost));
      ConservedRun(p, enrolled, trace);
      reply := if claimed then Accepted else Replayed;
    }

    /** reencryptField on the backup codes: sealed anew only where found as read. Undisturbed, what
        could be read needs no rewriting afterwards. */
    method ReencryptCodes(me: nat, nonce: nat)
      requires Valid() && FairWorld(p, w, me)
      modifies this
      ensures Valid() && old(trace) <= trace && me in s.loaded && trace != []
      ensures trace[|trace| - 1] ==
                if Needy(PassOf(p), s.loaded[me].codes) && Readable(PassOf(p), p.id, FIELD, s.loaded[me].codes) then
                    Reseal(me, nonce) else Load(me)
      ensures IdleWorld(w) && Readable(PassOf(p), p.id, FIELD, old(s).codes) ==> !Needy(PassOf(p), s.codes)
    {
      Read(me);
      var stored := s.codes;
      if !Needy(PassOf(p), stored) || !Readable(PassOf(p), p.id, FIELD, stored) {
        return;
      }
      Others(me);
      ResealedIsRenewed(PassOf(p), p.id, FIELD, stored, nonce);
      Do(Reseal(me, nonce));
    }
  }

  /** So on any row, whatever handlers run and whatever runs between their calls, a code generated
      once is accepted at most once since, and never while it is still listed. */
  lemma RowAcceptsOnce(row: Row, codes: seq<string>, nonce: nat, code: string)
    requires row.Valid() && row.enrolled == Enrol(row.p, codes, nonce) && multiset(row.s.generated)[code] <= 1
    ensures CodesIn(row.p, row.s.codes).Some? && row.s.accepted[code] <= 1
    ensures row.s.accepted[code] == 1 ==> code !in CodesIn(row.p, row.s.codes).value
    ensures StepsClimb(row.s)
  {
    CodesAcceptedOnce(row.p, codes, nonce, row.trace, code);
  }
}
