/** ratelimit/ratelimit.go: the in-memory fixed-window counters, with garbage collection, against a
    store that never evicts. Times are nanoseconds on a clock that never runs backwards. */
module RateLimit {
  import opened Storage

  /** A key's counter: where its window began, the hits in it, and the window it was made under. */
  datatype Window = Window(start: int, count: nat, window: int)
  type Windows = map<string, Window>

  // ---- the store that never evicts ----

  function HitWindow(w: Option<Window>, window: int, now: int): Window {
    if w.None? || now - w.value.start >= window then Window(now, 1, window)
    else w.value.(count := w.value.count + 1)
  }

  function At(ws: Windows, key: string): Option<Window> {
    if key in ws then Some(ws[key]) else None
  }

  function HitIdeal(ideal: Windows, key: string, window: int, now: int): Windows {
    ideal[key := HitWindow(At(ideal, key), window, now)]
  }

  // ---- the store ----

  /** Deleted once ten of its own windows old. */
  predicate Stale(w: Window, now: int) {
    now - w.start > 10 * w.window
  }

  function Collected(ws: Windows, now: int): Windows {
    map k | k in ws && !Stale(ws[k], now) :: ws[k]
  }

  /** The windows kept are the ideal ones, and those evicted would be started anew anyway. */
  ghost predicate Refines(ws: Windows, ideal: Windows, now: int) {
    && (forall k {:trigger k in ws} :: k in ws ==> k in ideal && ws[k] == ideal[k])
    && (forall k {:trigger k in ideal} :: k in ideal ==>
         ideal[k].window > 0 && (k !in ws ==> now - ideal[k].start >= ideal[k].window))
  }

  lemma CollectedRefines(ws: Windows, ideal: Windows, now: int)
    requires Refines(ws, ideal, now)
    ensures Refines(Collected(ws, now), ideal, now)
  {
  }

  lemma LaterRefines(ws: Windows, ideal: Windows, now: int, later: int)
    requires Refines(ws, ideal, now) && now <= later
    ensures Refines(ws, ideal, later)
  {
  }

  /** Evicted or not, the next hit counts the same. */
  lemma HitRefines(ws: Windows, ideal: Windows, key: string, window: int, now: int)
    requires Refines(ws, ideal, now) && window > 0 && (key in ideal ==> ideal[key].window == window)
    ensures HitWindow(At(ws, key), window, now) == HitWindow(At(ideal, key), window, now)
    ensures Refines(HitIdeal(ws, key, window, now), HitIdeal(ideal, key, window, now), now)
  {
  }

  /** One recorded hit and the count it returned. */
  datatype Hit = Recorded(key: string, at: int, n: nat)

  function IdealAfter(hits: seq<Hit>, windowOf: string -> int): Windows {
    if hits == [] then map[]
    else
      var last := hits[|hits| - 1];
      HitIdeal(IdealAfter(hits[..|hits| - 1], windowOf), last.key, windowOf(last.key), last.at)
  }

  /** Times do not decrease, and every count is the one the never-evicting store returns. */
  ghost predicate Counted(hits: seq<Hit>, windowOf: string -> int) {
    hits == [] ||
    (var front, last := hits[..|hits| - 1], hits[|hits| - 1];
     && Counted(front, windowOf) && (front != [] ==> front[|front| - 1].at <= last.at)
     && last.n == IdealAfter(hits, windowOf)[last.key].count)
  }

  ghost predicate Uniform(ideal: Windows, windowOf: string -> int) {
    forall k {:trigger k in ideal} :: k in ideal ==> ideal[k].window == windowOf(k)
  }

  /** The windows stand for these recorded hits. */
  ghost predicate Tracks(ws: Windows, hits: seq<Hit>, windowOf: string -> int, now: int) {
    && Counted(hits, windowOf) && (hits != [] ==> hits[|hits| - 1].at <= now)
    && Refines(ws, IdealAfter(hits, windowOf), now) && Uniform(IdealAfter(hits, windowOf), windowOf)
  }

  lemma TracksLater(ws: Windows, hits: seq<Hit>, windowOf: string -> int, now: int, at: int)
    requires Tracks(ws, hits, windowOf, now) && now <= at
    ensures Tracks(ws, hits, windowOf, at) && Tracks(Collected(ws, at), hits, windowOf, at)
  {
    LaterRefines(ws, IdealAfter(hits, windowOf), now, at);
    CollectedRefines(ws, IdealAfter(hits, windowOf), at);
  }

  lemma TracksHit(ws: Windows, hits: seq<Hit>, windowOf: string -> int, key: string, window: int, at: int)
    requires Tracks(ws, hits, windowOf, at) && window == windowOf(key) && window > 0
    ensures var w := HitWindow(At(ws, key), window, at);
            && w == HitWindow(At(IdealAfter(hits, windowOf), key), window, at)
            && Tracks(HitIdeal(ws, key, window, at), hits + [Recorded(key, at, w.count)], windowOf, at)
  {
    HitRefines(ws, IdealAfter(hits, windowOf), key, window, at);
    HitsGrow(hits, Recorded(key, at, HitWindow(At(ws, key), window, at).count), windowOf);
  }

  lemma HitsGrow(hits: seq<Hit>, h: Hit, windowOf: string -> int)
    requires Counted(hits, windowOf) && (hits != [] ==> hits[|hits| - 1].at <= h.at)
    requires Uniform(IdealAfter(hits, windowOf), windowOf)
    requires h.n == HitWindow(At(IdealAfter(hits, windowOf), h.key), windowOf(h.key), h.at).count
    ensures IdealAfter(hits + [h], windowOf) == HitIdeal(IdealAfter(hits, windowOf), h.key, windowOf(h.key), h.at)
    ensures Counted(hits + [h], windowOf) && Uniform(IdealAfter(hits + [h], windowOf), windowOf)
  {
    assert (hits + [h])[..|hits|] == hits;
  }

  class MemoryStore {
    var windows: Windows
    var lastGC: int
    /** Each key is always hit under one window. */
    ghost const windowOf: string -> int
    ghost var hits: seq<Hit>
    ghost var now: int

    constructor (clock: int, ghost windowOf: string -> int)
      ensures Valid() && this.windowOf == windowOf && hits == [] && now == clock
    {
      windows, lastGC, this.windowOf, hits, now := map[], clock, windowOf, [], clock;
    }

    ghost predicate Valid()
      reads this
    {
      Tracks(windows, hits, windowOf, now)
    }

    method Collect(at: int)
      modifies `windows
      ensures windows == Collected(old(windows), at)
      ensures forall k :: k in windows <==>
                k in old(windows) && at - old(windows)[k].start <= 10 * old(windows)[k].window
      ensures forall k :: k in windows ==> windows[k] == old(windows)[k]
    {
      var left := windows.Keys;
      while left != {}
        invariant left <= old(windows).Keys
        invariant windows == map k | k in old(windows) && (k in left || !Stale(old(windows)[k], at)) :: old(windows)[k]
        decreases left
      {
        var k :| k in left;
        left := left - {k};
        if Stale(windows[k], at) {
          windows := windows - {k};
        }
      }
    }

    method Count(key: string, window: int, at: int) returns (n: nat)
      modifies `windows
      ensures windows == HitIdeal(old(windows), key, window, at)
      ensures n == HitWindow(At(old(windows), key), window, at).count
    {
      if key !in windows || at - windows[key].start >= window {
        windows := windows[key := Window(at, 1, window)];
        n := 1;
      } else {
        n := windows[key].count + 1;
        windows := windows[key := windows[key].(count := n)];
      }
    }

    /** The count returned is what a store that never evicts would return. */
    method Hit(key: string, window: int, at: int) returns (n: nat)
      requires Valid() && at >= now && window == windowOf(key) && window > 0
      modifies this
      ensures Valid() && now == at && hits == old(hits) + [Recorded(key, at, n)]
      ensures n == HitWindow(At(IdealAfter(old(hits), windowOf), key), window, at).count
    {
      TracksLater(windows, hits, windowOf, now, at);
      now := at;
      if at - lastGC > MINUTE {
        Collect(at);
        lastGC := at;
      }
      TracksHit(windows, hits, windowOf, key, window, at);
      n := Count(key, window, at);
      hits := hits + [Recorded(key, at, n)];
    }
  }

  // ---- what a count is ----

  /** The hits on the key from number i on. */
  function HitsFrom(hits: seq<Hit>, key: string, i: nat): nat {
    if |hits| <= i then 0
    else HitsFrom(hits[..|hits| - 1], key, i) + if hits[|hits| - 1].key == key then 1 else 0
  }

  /** The key's window was opened by hit number i, and by none since. */
  predicate OpenedBy(hits: seq<Hit>, key: string, i: nat) {
    i < |hits| && hits[i].key == key && hits[i].n == 1 &&
        forall j :: i < j < |hits| && hits[j].key == key ==> hits[j].n != 1
  }

  lemma {:induction false} WindowIs(hits: seq<Hit>, key: string, windowOf: string -> int) returns (i: nat)
    requires Counted(hits, windowOf) && key in IdealAfter(hits, windowOf)
    ensures OpenedBy(hits, key, i)
    ensures IdealAfter(hits, windowOf)[key].start == hits[i].at
    ensures IdealAfter(hits, windowOf)[key].count == HitsFrom(hits, key, i)
  {
    var front, h := hits[..|hits| - 1], hits[|hits| - 1];
    var ideal := IdealAfter(front, windowOf);
    if h.key == key && (key !in ideal || h.at - ideal[key].start >= windowOf(key)) {
      i := |front|;
      assert HitsFrom(front, key, i) == 0;
    } else {
      i := WindowIs(front, key, windowOf);
      FromOpening(front, key, i);
    }
  }

  lemma {:induction false} FromOpening(hits: seq<Hit>, key: string, i: nat)
    requires i < |hits| && hits[i].key == key
    ensures HitsFrom(hits, key, i) >= 1
  {
    if i < |hits| - 1 { FromOpening(hits[..|hits| - 1], key, i); }
  }

  lemma {:induction false} NeverHit(hits: seq<Hit>, key: string, windowOf: string -> int)
    ensures key in IdealAfter(hits, windowOf) <==> exists i :: 0 <= i < |hits| && hits[i].key == key
  {
    if hits != [] {
      var front := hits[..|hits| - 1];
      NeverHit(front, key, windowOf);
      if i :| 0 <= i < |hits| && hits[i].key == key {
        if i < |front| { assert front[i].key == key; }
      }
      if i :| 0 <= i < |front| && front[i].key == key { assert hits[i].key == key; }
    }
  }

  lemma {:induction false} CountedBefore(hits: seq<Hit>, windowOf: string -> int, k: nat)
    requires Counted(hits, windowOf) && k <= |hits|
    ensures Counted(hits[..k], windowOf)
  {
    if k < |hits| {
      CountedBefore(hits[..|hits| - 1], windowOf, k);
      assert hits[..|hits| - 1][..k] == hits[..k];
    } else {
      assert hits[..k] == hits;
    }
  }

  /** A hit is the first of a window, or follows the hit that opened the window by less than its
      length and is counted after all the key's hits since. Later hits never move the opening. */
  lemma CountExactly(store: MemoryStore, k: nat)
    requires store.Valid() && k < |store.hits|
    ensures var before, h := store.hits[..k], store.hits[k];
            || (h.n == 1 && forall i :: 0 <= i < k ==> before[i].key != h.key)
            || exists i: nat :: OpenedBy(before, h.key, i) &&
                 h.n == if h.at - before[i].at >= store.windowOf(h.key) then 1 else HitsFrom(before, h.key, i) + 1
  {
    var hits, w, h := store.hits, store.windowOf, store.hits[k];
    CountedBefore(hits, w, k);
    CountedBefore(hits, w, k + 1);
    assert hits[..k + 1][..k] == hits[..k] && hits[..k + 1][k] == h;
    NeverHit(hits[..k], h.key, w);
    if h.key in IdealAfter(hits[..k], w) {
      var i := WindowIs(hits[..k], h.key, w);
      assert h.n == HitWindow(At(IdealAfter(hits[..k], w), h.key), w(h.key), h.at).count;
    }
  }

  // ---- the limit ----

  datatype Rule = Rule(window: int, max: int)

  /** Limiter.Allow. */
  method Allow(store: MemoryStore, key: string, rule: Rule, at: int) returns (ok: bool)
    requires store.Valid() && at >= store.now
    requires (rule.max > 0 && rule.window > 0 ==> rule.window == store.windowOf(key))
    modifies store
    ensures store.Valid()
    ensures rule.max <= 0 || rule.window <= 0 ==> ok && store.hits == old(store.hits)
    ensures rule.max > 0 && rule.window > 0 ==>
              |store.hits| > 0 && store.hits[..|store.hits| - 1] == old(store.hits) &&
                  (ok <==> Admits(store.hits[|store.hits| - 1], key, at, at, rule.max))
  {
    if rule.max <= 0 || rule.window <= 0 {
      return true;
    }
    var n := store.Hit(key, rule.window, at);
    return n <= rule.max;
  }

  /** A hit on the key in the closed interval, let through. */
  predicate Admits(h: Hit, key: string, from: int, to: int, max: int) {
    h.key == key && from <= h.at <= to && h.n <= max
  }

  function Admitted(hits: seq<Hit>, key: string, from: int, to: int, max: int): nat {
    if hits == [] then 0
    else
      var last := hits[|hits| - 1];
      Admitted(hits[..|hits| - 1], key, from, to, max) + if Admits(last, key, from, to, max) then 1 else 0
  }

  function Least(a: int, b: int): int {
    if a < b then a else b
  }

  /** What the key's current window says of the hits admitted in [from, from + w] so far. */
  predicate Bounded(w: Option<Window>, admitted: int, last: int, from: int, window: int, max: int) {
    match w
    case None => admitted == 0
    case Some(v) =>
      && v.start <= last && v.count >= 1
      && (last < from ==> admitted == 0)
      && (v.start <= from ==> admitted <= Least(v.count, max))
      && (from < v.start <= from + window ==> admitted <= max + Least(v.count, max))
      && admitted <= 2 * max
  }

  /** The last time the key was hit. */
  function LastHit(hits: seq<Hit>, key: string): int {
    if hits == [] then 0
    else if hits[|hits| - 1].key == key then hits[|hits| - 1].at
    else LastHit(hits[..|hits| - 1], key)
  }

  lemma {:induction false} LastHitIsPast(hits: seq<Hit>, key: string, windowOf: string -> int)
    requires Counted(hits, windowOf) && key in IdealAfter(hits, windowOf)
    ensures hits != [] && LastHit(hits, key) <= hits[|hits| - 1].at
    ensures windowOf(key) > 0 ==> LastHit(hits, key) - IdealAfter(hits, windowOf)[key].start < windowOf(key)
  {
    if hits[|hits| - 1].key != key {
      LastHitIsPast(hits[..|hits| - 1], key, windowOf);
    }
  }

  lemma BoundStep(w: Option<Window>, admitted: int, last: int, from: int, window: int, max: int, at: int)
    requires Bounded(w, admitted, last, from, window, max) && window > 0 && max > 0
    requires w.Some? ==> last <= at && last - w.value.start < window
    ensures var v := HitWindow(w, window, at);
            Bounded(Some(v), admitted + (if from <= at <= from + window && v.count <= max then 1 else 0), at, from,
                window, max)
  {
  }

  lemma {:induction false} WindowBounds(hits: seq<Hit>, key: string, windowOf: string -> int, from: int, max: int)
    requires Counted(hits, windowOf) && max > 0 && windowOf(key) > 0
    ensures Bounded(At(IdealAfter(hits, windowOf), key), Admitted(hits, key, from, from + windowOf(key), max),
              LastHit(hits, key), from, windowOf(key), max)
  {
    if hits != [] {
      var front, h := hits[..|hits| - 1], hits[|hits| - 1];
      WindowBounds(front, key, windowOf, from, max);
      if h.key == key {
        var ideal := IdealAfter(front, windowOf);
        if key in ideal { LastHitIsPast(front, key, windowOf); }
        BoundStep(At(ideal, key), Admitted(front, key, from, from + windowOf(key), max), LastHit(front, key), from,
            windowOf(key), max, h.at);
        assert At(IdealAfter(hits, windowOf), key) == Some(HitWindow(At(ideal, key), windowOf(key), h.at));
      }
    }
  }

  /** Any closed interval as long as the window admits at most twice the limit. */
  lemma AtMostTwice(store: MemoryStore, key: string, from: int, max: int)
    requires store.Valid() && max > 0 && store.windowOf(key) > 0
    ensures Admitted(store.hits, key, from, from + store.windowOf(key), max) <= 2 * max
  {
    WindowBounds(store.hits, key, store.windowOf, from, max);
  }

  /** n hits on the key at one moment, counted from one. */
  function Burst(hits: seq<Hit>, key: string, at: int, n: nat): seq<Hit> {
    if n == 0 then hits else Burst(hits, key, at, n - 1) + [Recorded(key, at, n)]
  }

  /** After n hits of a burst: all counted, all admitted, and the window theirs, or over before them. */
  ghost predicate Bursting(all: seq<Hit>, key: string, windowOf: string -> int, at: int, n: nat, max: nat, had: int) {
    && Counted(all, windowOf) && (all != [] ==> all[|all| - 1].at <= at)
    && Admitted(all, key, 0, windowOf(key), max) == had + n
    && HitWindow(At(IdealAfter(all, windowOf), key), windowOf(key), at) == Window(at, n + 1, windowOf(key))
  }

  lemma NextOfBurst(all: seq<Hit>, key: string, windowOf: string -> int, at: int, n: nat, max: nat, had: int)
    requires Bursting(all, key, windowOf, at, n, max, had) && 0 <= at <= windowOf(key) && n < max && windowOf(key) > 0
    ensures Bursting(all + [Recorded(key, at, n + 1)], key, windowOf, at, n + 1, max, had)
  {
    var next := all + [Recorded(key, at, n + 1)];
    assert next[..|next| - 1] == all && next[|next| - 1] == Recorded(key, at, n + 1);
    assert IdealAfter(next, windowOf) == HitIdeal(IdealAfter(all, windowOf), key, windowOf(key), at);
  }

  /** A burst at a moment when the key's window is over is counted anew, and admitted up to the limit. */
  lemma {:induction false} BurstAdmitted(hits: seq<Hit>, key: string, windowOf: string -> int, at: int, n: nat,
      max: nat, had: int)
    requires Bursting(hits, key, windowOf, at, 0, max, had) && 0 <= at <= windowOf(key) && n <= max && windowOf(key) > 0
    ensures Bursting(Burst(hits, key, at, n), key, windowOf, at, n, max, had)
  {
    if n > 0 {
      BurstAdmitted(hits, key, windowOf, at, n - 1, max, had);
      NextOfBurst(Burst(hits, key, at, n - 1), key, windowOf, at, n - 1, max, had);
    }
  }

  /** The bound is met for every limit: a burst of it at 0 and another one window later all pass. */
  lemma TwiceIsReached(key: string, windowOf: string -> int, max: nat)
    requires windowOf(key) > 0
    ensures var hits := Burst(Burst([], key, 0, max), key, windowOf(key), max);
            Counted(hits, windowOf) && Admitted(hits, key, 0, windowOf(key), max) == 2 * max
  {
    var first := Burst([], key, 0, max);
    BurstAdmitted([], key, windowOf, 0, max, max, 0);
    BurstAdmitted(first, key, windowOf, windowOf(key), max, max, max);
  }
}
