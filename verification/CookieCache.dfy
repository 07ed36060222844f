/** session.go: the signed session cache cookie beside the session table. A client may present any
    cookie ever issued; signatures leave it no others. Reading a session and stamping its cookie
    are one step. Times are nanoseconds, the deadline in the cookie whole seconds. */
module CookieCache {
  import opened Storage
  import opened Sessions

  datatype Cache = Cache(enabled: bool, maxAge: int, guarded: bool, acceptStale: bool)

  /** The cookie's payload. stamp is the moment it was made, which the payload does not carry. */
  datatype Cookie = Cookie(session: Session, expires: int, stamp: int)

  function Unix(t: int): int {
    t / SECOND
  }

  datatype Serve = Serve(at: int, token: string, fromCache: Option<Cookie>)

  /** removed tells when a session left the table. */
  datatype World = World(clock: int, rows: map<string, Session>, removed: map<string, int>, issued: set<Cookie>,
      served: seq<Serve>)

  datatype Event =
    | Tick(to: int)
    | SignIn(session: Session)
    /** One request: the cookie presented, whether user and guards let the session pass, whether
        a due refresh gets written, whether the handler stamps a cookie. */
    | Request(token: string, cookie: Option<Cookie>, userFound: bool, accepted: bool, writes: bool, stamps: bool)
    | Revoke(token: string)

  predicate Allowed(w: World, e: Event) {
    match e
    case Tick(to) => w.clock <= to
    case SignIn(s) => s.token !in w.rows && s.token !in w.removed
    case Request(_, cookie, _, _, _, _) => cookie.None? || cookie.value in w.issued
    case Revoke(_) => true
  }

  /** setCookieCache. */
  function Stamped(cache: Cache, w: World, s: Session): set<Cookie> {
    if cache.enabled then w.issued + {Cookie(s, Unix(w.clock + cache.maxAge), w.clock)} else w.issued
  }

  /** readCookieCache, and the checks of GetSession on what it returns. */
  predicate Usable(cache: Cache, w: World, token: string, cookie: Option<Cookie>) {
    && cache.enabled && (!cache.guarded || cache.acceptStale) && cookie.Some?
    && Unix(w.clock) < cookie.value.expires && cookie.value.session.token == token && token != "" &&
         cookie.value.session.expiresAt > w.clock
  }

  function Without(w: World, token: string): World {
    if token in w.rows then w.(rows := w.rows - {token}, removed := w.removed[token := w.clock]) else w
  }

  /** GetSessionFromToken, then the handler's answer. */
  function FromTable(cfg: Config, cache: Cache, w: World, e: Event): World
    requires e.Request?
  {
    if e.token !in w.rows then w
    else
      var after := Looked(cfg, Some(w.rows[e.token]), Lookup(w.clock, e.userFound, e.writes));
      if after.None? then Without(w, e.token)
      else
        var v := w.(rows := w.rows[e.token := after.value]);
        if !e.userFound || !e.accepted then v
        else v.(served := w.served + [Serve(w.clock, e.token, None)],
            issued := if e.stamps then Stamped(cache, w, after.value) else w.issued)
  }

  function Next(cfg: Config, cache: Cache, w: World, e: Event): World
    requires Allowed(w, e)
  {
    match e
    case Tick(to) => w.(clock := to)
    case SignIn(s) => w.(rows := w.rows[s.token := s], issued := Stamped(cache, w, s))
    case Request(token, cookie, _, accepted, _, _) =>
      if Usable(cache, w, token, cookie) then
        if cache.guarded && !accepted then w else w.(served := w.served + [Serve(w.clock, token, cookie)])
      else FromTable(cfg, cache, w, e)
    case Revoke(token) => Without(w, token)
  }

  predicate AllAllowed(cfg: Config, cache: Cache, w: World, es: seq<Event>)
    decreases |es|
  {
    es == [] || (Allowed(w, es[0]) && AllAllowed(cfg, cache, Next(cfg, cache, w, es[0]), es[1..]))
  }

  function Run(cfg: Config, cache: Cache, w: World, es: seq<Event>): World
    requires AllAllowed(cfg, cache, w, es)
    decreases |es|
  {
    if es == [] then w else Run(cfg, cache, Next(cfg, cache, w, es[0]), es[1..])
  }

  // ---- how stale a served session can be ----

  predicate CookieOk(cache: Cache, w: World, c: Cookie) {
    && c.expires == Unix(c.stamp + cache.maxAge) && c.stamp <= w.clock
    && (c.session.token in w.rows || c.session.token in w.removed)
    && (c.session.token in w.removed ==> c.stamp <= w.removed[c.session.token])
  }

  predicate ServeOk(cache: Cache, w: World, sv: Serve) {
    && sv.at <= w.clock && (sv.token in w.rows || sv.token in w.removed)
    && (sv.fromCache.Some? ==> var c := sv.fromCache.value;
    c in w.issued && c.session.token == sv.token && sv.at < c.stamp + cache.maxAge)
    && (sv.token in w.removed ==> sv.at <= w.removed[sv.token] || sv.at < w.removed[sv.token] + cache.maxAge)
    && (cache.guarded && !cache.acceptStale ==> sv.fromCache.None?)
  }

  predicate Inv(cache: Cache, w: World) {
    && (forall t :: t in w.removed ==> t !in w.rows && w.removed[t] <= w.clock)
    && (forall t :: t in w.rows ==> w.rows[t].token == t)
    && (forall c :: c in w.issued ==> CookieOk(cache, w, c))
    && (forall i :: 0 <= i < |w.served| ==> ServeOk(cache, w, w.served[i]))
  }

  /** Before the deadline in whole seconds means less than maxAge after the stamp. */
  lemma DeadlineInSeconds(now: int, stamp: int, maxAge: int)
    requires Unix(now) < Unix(stamp + maxAge)
    ensures now < stamp + maxAge
  {
  }

  function WholeSeconds(t: int): int {
    Unix(t) * SECOND
  }

  lemma BeforeDeadline(now: int, deadline: int)
    ensures Unix(now) < Unix(deadline) <==> now < WholeSeconds(deadline)
    ensures WholeSeconds(deadline) <= deadline
  {
  }

  lemma WithoutKeeps(cache: Cache, w: World, token: string)
    requires Inv(cache, w)
    ensures Inv(cache, Without(w, token))
  {
    var v := Without(w, token);
    forall c | c in v.issued ensures CookieOk(cache, v, c) { assert CookieOk(cache, w, c); }
    forall i | 0 <= i < |v.served| ensures ServeOk(cache, v, v.served[i]) { assert ServeOk(cache, w, w.served[i]); }
  }

  lemma StampedKeeps(cache: Cache, w: World, s: Session)
    requires Inv(cache, w) && s.token in w.rows
    ensures Inv(cache, w.(issued := Stamped(cache, w, s)))
  {
    var v := w.(issued := Stamped(cache, w, s));
    forall c | c in v.issued ensures CookieOk(cache, v, c) {
      if c in w.issued { assert CookieOk(cache, w, c); }
    }
    forall i | 0 <= i < |v.served| ensures ServeOk(cache, v, v.served[i]) { assert ServeOk(cache, w, w.served[i]); }
  }

  lemma RowKeeps(cache: Cache, w: World, token: string, s: Session)
    requires Inv(cache, w) && token !in w.removed && s.token == token
    ensures Inv(cache, w.(rows := w.rows[token := s]))
  {
    var v := w.(rows := w.rows[token := s]);
    forall c | c in v.issued ensures CookieOk(cache, v, c) { assert CookieOk(cache, w, c); }
    forall i | 0 <= i < |v.served| ensures ServeOk(cache, v, v.served[i]) { assert ServeOk(cache, w, w.served[i]); }
  }

  lemma TickKeeps(cache: Cache, w: World, to: int)
    requires Inv(cache, w) && w.clock <= to
    ensures Inv(cache, w.(clock := to))
  {
    var v := w.(clock := to);
    forall c | c in v.issued ensures CookieOk(cache, v, c) { assert CookieOk(cache, w, c); }
    forall i | 0 <= i < |v.served| ensures ServeOk(cache, v, v.served[i]) { assert ServeOk(cache, w, w.served[i]); }
  }

  lemma ServeKeeps(cache: Cache, w: World, sv: Serve)
    requires Inv(cache, w) && ServeOk(cache, w, sv)
    ensures Inv(cache, w.(served := w.served + [sv]))
  {
    var v := w.(served := w.served + [sv]);
    forall c | c in v.issued ensures CookieOk(cache, v, c) { assert CookieOk(cache, w, c); }
    forall i | 0 <= i < |v.served| ensures ServeOk(cache, v, v.served[i]) {
      if i < |w.served| { assert ServeOk(cache, w, w.served[i]); }
    }
  }

  lemma CachedServeOk(cache: Cache, w: World, token: string, cookie: Option<Cookie>)
    requires Inv(cache, w) && cookie.Some? && cookie.value in w.issued && Usable(cache, w, token, cookie)
    ensures ServeOk(cache, w, Serve(w.clock, token, cookie))
  {
    assert CookieOk(cache, w, cookie.value);
    DeadlineInSeconds(w.clock, cookie.value.stamp, cache.maxAge);
  }

  lemma TableKeeps(cfg: Config, cache: Cache, w: World, e: Event)
    requires Inv(cache, w) && e.Request?
    ensures Inv(cache, FromTable(cfg, cache, w, e))
  {
    if e.token in w.rows {
      var after := Looked(cfg, Some(w.rows[e.token]), Lookup(w.clock, e.userFound, e.writes));
      if after.None? {
        WithoutKeeps(cache, w, e.token);
      } else {
        var v := w.(rows := w.rows[e.token := after.value]);
        RowKeeps(cache, w, e.token, after.value);
        if e.userFound && e.accepted {
          if e.stamps {
            StampedKeeps(cache, v, after.value);
            ServeKeeps(cache, v.(issued := Stamped(cache, v, after.value)), Serve(w.clock, e.token, None));
          } else {
            ServeKeeps(cache, v, Serve(w.clock, e.token, None));
          }
        }
      }
    }
  }

  lemma InvStep(cfg: Config, cache: Cache, w: World, e: Event)
    requires Inv(cache, w) && Allowed(w, e)
    ensures Inv(cache, Next(cfg, cache, w, e))
  {
    match e
    case Tick(to) => TickKeeps(cache, w, to);
    case SignIn(s) => RowKeeps(cache, w, s.token, s); StampedKeeps(cache, w.(rows := w.rows[s.token := s]), s);
    case Request(token, cookie, _, _, _, _) =>
      if Usable(cache, w, token, cookie) {
        CachedServeOk(cache, w, token, cookie);
        ServeKeeps(cache, w, Serve(w.clock, token, cookie));
      } else {
        TableKeeps(cfg, cache, w, e);
      }
    case Revoke(token) => WithoutKeeps(cache, w, token);
  }

  lemma {:induction false} InvRun(cfg: Config, cache: Cache, w: World, es: seq<Event>)
    requires Inv(cache, w) && AllAllowed(cfg, cache, w, es)
    ensures Inv(cache, Run(cfg, cache, w, es))
    decreases |es|
  {
    if es != [] {
      InvStep(cfg, cache, w, es[0]);
      InvRun(cfg, cache, Next(cfg, cache, w, es[0]), es[1..]);
    }
  }

  /** Served from a read less than MaxAge old; after its session left the table, for less than
      MaxAge; and from no cache when a guard has not accepted staleness. */
  predicate Fresh(cache: Cache, w: World, sv: Serve) {
    && (sv.fromCache.Some? ==>
          var c := sv.fromCache.value;
          c in w.issued && c.session.token == sv.token && c.stamp > sv.at - cache.maxAge)
    && (sv.token in w.removed ==> sv.at < w.removed[sv.token] + cache.maxAge)
    && (cache.guarded && !cache.acceptStale ==> sv.fromCache.None?)
  }

  /** Over every run, whatever cookies clients keep and present. */
  lemma CacheIsFresh(cfg: Config, cache: Cache, clock: int, es: seq<Event>, i: nat)
    requires cache.maxAge > 0 && AllAllowed(cfg, cache, World(clock, map[], map[], {}, []), es)
    requires i < |Run(cfg, cache, World(clock, map[], map[], {}, []), es).served|
    ensures var w := Run(cfg, cache, World(clock, map[], map[], {}, []), es);
            Fresh(cache, w, w.served[i])
  {
    InvRun(cfg, cache, World(clock, map[], map[], {}, []), es);
    var w := Run(cfg, cache, World(clock, map[], map[], {}, []), es);
    assert ServeOk(cache, w, w.served[i]);
  }

  // ---- the code ----

  class Auth {
    const cfg: Config
    const cache: Cache
    const store: Store
    /** The clock, the cookies out with clients, and what was served: the world around the table. */
    ghost var w: World

    constructor (cfg: Config, cache: Cache, clock: int)
      ensures this.cfg == cfg && this.cache == cache && Valid() && w == World(clock, map[], map[], {}, [])
      ensures fresh(store)
    {
      this.cfg, this.cache := cfg, cache;
      store := new Store(cfg);
      this.w := World(clock, map[], map[], {}, []);
    }

    ghost predicate Valid()
      reads this, store`rows
    {
      store.cfg == cfg && store.rows == w.rows && Inv(cache, w)
    }

    /** Time passes. */
    ghost method Tick(to: int)
      requires Valid() && w.clock <= to
      modifies `w
      ensures Valid() && w == Next(cfg, cache, old(w), Event.Tick(to))
    {
      w := Next(cfg, cache, w, Event.Tick(to));
      TickKeeps(cache, old(w), to);
    }

    /** The cached session, exactly until the last whole second of its deadline; so it was read
        less than MaxAge ago, and if it has been revoked since, less than MaxAge ago. */
    method ReadCookieCache(cookie: Option<Cookie>, now: int) returns (sess: Option<Session>)
      requires Valid() && now == w.clock && (cookie.None? || cookie.value in w.issued)
      ensures sess.Some? <==>
                cache.enabled && cookie.Some? && cookie.value.session.token != "" &&
                    now < WholeSeconds(cookie.value.stamp + cache.maxAge)
      ensures sess.Some? ==>
                && sess.value == cookie.value.session && now - cache.maxAge < cookie.value.stamp <= now
                && (sess.value.token in w.rows || now < w.removed[sess.value.token] + cache.maxAge)
    {
      if cookie.Some? {
        assert CookieOk(cache, w, cookie.value);
        BeforeDeadline(now, cookie.value.stamp + cache.maxAge);
      }
      if !cache.enabled || cookie.None? || Unix(now) >= cookie.value.expires || cookie.value.session.token == "" {
        return None;
      }
      return Some(cookie.value.session);
    }

    /** A request the cache answers: no guard stands in the way, and the cookie is for this token,
        before its deadline, and for a session not expired. */
    predicate Answers(token: string, cookie: Option<Cookie>, now: int) {
      && cache.enabled && (cache.guarded ==> cache.acceptStale)
      && cookie.Some? && token != "" && cookie.value.session.token == token
      && now < cookie.value.session.expiresAt && now < WholeSeconds(cookie.value.stamp + cache.maxAge)
    }

    /** GetSession on a request, and the handler's answer to it. What the cache answers never
        touches the table; anything else is accepted exactly with a live row, its user and the
        guards, and only that gets a new cookie, made from what was read now. */
    method GetSession(token: string, cookie: Option<Cookie>, now: int, userFound: bool, accepted: bool, writes: bool,
        stamps: bool)
        returns (sess: Option<Session>, out: Option<Cookie>)
      requires Valid() && now == w.clock && (cookie.None? || cookie.value in w.issued)
      modifies this, store
      ensures Valid() && w == Next(cfg, cache, old(w), Request(token, cookie, userFound, accepted, writes, stamps))
      ensures sess.Some? <==> |w.served| == |old(w).served| + 1
      ensures sess.Some? ==>
                var sv := w.served[|w.served| - 1];
                && sv.at == now && sv.token == token
                && if sv.fromCache.Some? then sv.fromCache == cookie && sess == Some(cookie.value.session)
                   else token in w.rows && sess.value == w.rows[token]
      ensures Answers(token, cookie, now) ==>
                && store.rows == old(store.rows) && out == None
                && sess == if cache.guarded && !accepted then None else Some(cookie.value.session)
      ensures !Answers(token, cookie, now) ==>
                (sess.Some? <==>
                    token in old(store.rows) && now < old(store.rows)[token].expiresAt && userFound && accepted)
      ensures out.Some? <==> !Answers(token, cookie, now) && sess.Some? && stamps && cache.enabled
      ensures out.Some? ==> out == Some(Cookie(sess.value, Unix(now + cache.maxAge), now)) && out.value in w.issued
    {
      sess, out := None, None;
      if cookie.Some? {
        assert CookieOk(cache, w, cookie.value);
        BeforeDeadline(now, cookie.value.stamp + cache.maxAge);
      }
      ghost var e := Request(token, cookie, userFound, accepted, writes, stamps);
      InvStep(cfg, cache, w, e);
      if !cache.guarded || cache.acceptStale {
        var cached := ReadCookieCache(cookie, now);
        if cached.Some? && cached.value.token == token && cached.value.expiresAt > now {
          if cache.guarded && !accepted {
            return;
          }
          w := w.(served := w.served + [Serve(now, token, cookie)]);
          return cached, None;
        }
      }
      assert !Usable(cache, w, token, cookie);
      sess, out := FromStore(token, now, userFound, accepted, writes, stamps, e);
    }

    method FromStore(token: string, now: int, userFound: bool, accepted: bool, writes: bool, stamps: bool,
        ghost e: Event)
        returns (sess: Option<Session>, out: Option<Cookie>)
      requires store.cfg == cfg && store.rows == w.rows && now == w.clock
      requires e.Request? && e == Request(token, e.cookie, userFound, accepted, writes, stamps)
      modifies this, store
      ensures store.rows == w.rows && w == FromTable(cfg, cache, old(w), e)
      ensures if sess.Some? then w.served == old(w).served + [Serve(now, token, None)] else w.served == old(w).served
      ensures sess.Some? ==> token in w.rows && sess.value == w.rows[token]
      ensures sess.Some? <==>
                token in old(store.rows) && now < old(store.rows)[token].expiresAt && userFound && accepted
      ensures out.Some? <==> sess.Some? && stamps && cache.enabled
      ensures out.Some? ==> out == Some(Cookie(sess.value, Unix(now + cache.maxAge), now)) && out.value in w.issued
    {
      out := None;
      sess := store.GetSessionFromToken(token, Lookup(now, userFound, writes), accepted);
      if sess.Some? && stamps && cache.enabled {
        out := Some(Cookie(sess.value, Unix(now + cache.maxAge), now));
      }
      w := FromTable(cfg, cache, w, e);
    }

    /** createSessionWithDuration: the row, then its cookie. */
    method CreateSession(s: Session)
      requires Valid() && s.token !in w.rows && s.token !in w.removed
      modifies this, store
      ensures Valid() && w == Next(cfg, cache, old(w), SignIn(s))
      ensures store.rows == old(store.rows)[s.token := s]
      ensures cache.enabled ==> Cookie(s, Unix(w.clock + cache.maxAge), w.clock) in w.issued
    {
      InvStep(cfg, cache, w, SignIn(s));
      store.CreateSession(s.token, s.createdAt, s.expiresAt);
      w := Next(cfg, cache, w, SignIn(s));
    }

    /** RevokeSession: the row is gone, and from now on the session counts as revoked. */
    method RevokeSession(token: string)
      requires Valid()
      modifies this, store
      ensures Valid() && w == Next(cfg, cache, old(w), Revoke(token))
      ensures store.rows == old(store.rows) - {token}
      ensures token in old(store.rows) ==> token in w.removed && w.removed[token] == w.clock
    {
      InvStep(cfg, cache, w, Revoke(token));
      store.Delete(token);
      w := Without(w, token);
    }
  }

  /** So whatever requests, sign-ins and revocations an Auth has handled, all it served was fresh. */
  lemma ServedFresh(auth: Auth, i: nat)
    requires auth.Valid() && auth.cache.maxAge > 0 && i < |auth.w.served|
    ensures Fresh(auth.cache, auth.w, auth.w.served[i])
  {
    assert ServeOk(auth.cache, auth.w, auth.w.served[i]);
  }
}
