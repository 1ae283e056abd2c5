/** Session tokens in Redis with a sliding expiry. */
module Sessions {
  import opened Text
  import opened Redis

  /** Every session key is set to live a day. */
  const DAY := 86_400_000

  /** Validation extends a session whose reported time to live is below twenty hours. */
  const REFRESH_BELOW := 72_000_000

  function SessionKey(token: string): string { "session:" + token }

  lemma {:induction false} SessionKeyIsInjective(a: string, b: string)
    requires SessionKey(a) == SessionKey(b)
    ensures a == b
  {
    assert SessionKey(a)[8..] == a && SessionKey(b)[8..] == b;
  }

  /** What can happen to sessions. A validation carries the time to live the server reported. */
  datatype Event =
    | Login(token: string, user: string)
    | Validate(token: string, reported: int)
    | Logout(token: string)
    | Wait(ms: nat)

  /** The server reports whole seconds: a reported time to live may be off by up to `slack`. */
  predicate Possible(db: Db, e: Event, slack: nat) {
    e.Validate? && db.Get(SessionKey(e.token)).Some? && db.Get(SessionKey(e.token)).value.expiry.Some? ==>
      var remaining := db.Get(SessionKey(e.token)).value.expiry.value - db.now;
      remaining - slack <= e.reported <= remaining + slack
  }

  /** A validation that extends the session. */
  predicate Refreshes(db: Db, e: Event, token: string) {
    e.Validate? && e.token == token && db.Get(SessionKey(token)).Some? && e.reported < REFRESH_BELOW
  }

  function Apply(db: Db, e: Event): Db {
    match e
    case Login(token, user) => db.Put(SessionKey(token), Plain(user), DAY)
    case Validate(token, reported) => if Refreshes(db, e, token) then db.Extend(SessionKey(token), DAY) else db
    case Logout(token) => db.Delete(SessionKey(token))
    case Wait(ms) => db.(now := db.now + ms)
  }

  /** The user a token validates as. */
  function UserOf(db: Db, token: string): Option<string> {
    match db.Get(SessionKey(token))
    case Some(Entry(Plain(user), _)) => Some(user)
    case _ => None
  }

  method LoginWithSession(redis: Client, token: string, user: string)
    modifies redis
    ensures redis.db == Apply(old(redis.db), Login(token, user)) && UserOf(redis.db, token) == Some(user)
    ensures redis.db.Get(SessionKey(token)).value.expiry == Some(old(redis.db).now + 86_400_000)
  {
    redis.db := redis.db.Put(SessionKey(token), Plain(user), DAY);
  }

  /** TTL, as the server reports it; a key without expiry reports -1. */
  method ReportedTtl(redis: Client, key: string, slack: nat) returns (ttl: int)
    requires redis.db.Get(key).Some?
    ensures match redis.db.Get(key).value.expiry
            case None => ttl == -1
            case Some(e) => e - redis.db.now - slack <= ttl <= e - redis.db.now + slack
  {
    var expiry := redis.db.Get(key).value.expiry;
    if expiry.None? {
      return -1;
    }
    ttl :| expiry.value - redis.db.now - slack <= ttl <= expiry.value - redis.db.now + slack;
  }

  method ValidateTokenSession(redis: Client, token: string, slack: nat) returns (user: Option<string>, ghost e: Event)
    modifies redis
    ensures e.Validate? && e.token == token && Possible(old(redis.db), e, slack)
    ensures redis.db == Apply(old(redis.db), e)
    ensures user == UserOf(old(redis.db), token)
    ensures var before, after := old(redis.db).Get(SessionKey(token)), redis.db.Get(SessionKey(token));
            && (before.Some? && e.reported < 72_000_000 ==>
                  after == Some(before.value.(expiry := Some(old(redis.db).now + 86_400_000))))
            && (before.None? || e.reported >= 72_000_000 ==> after == before)
  {
    var key := SessionKey(token);
    var stored := redis.db.Get(key);
    if stored.None? {
      return None, Validate(token, 0);
    }
    user := if stored.value.data.Plain? then Some(stored.value.data.text) else None;
    var ttl := ReportedTtl(redis, key, slack);
    e := Validate(token, ttl);
    if ttl < REFRESH_BELOW {
      redis.db := redis.db.Extend(key, DAY);
    }
  }

  method LogoutSession(redis: Client, token: string)
    modifies redis
    ensures redis.db == Apply(old(redis.db), Logout(token)) && UserOf(redis.db, token) == None
  {
    redis.db := redis.db.Delete(SessionKey(token));
  }

  // ---- Runs ----

  predicate Legal(db: Db, events: seq<Event>, slack: nat)
    decreases events
  {
    events == [] || (Possible(db, events[0], slack) && Legal(Apply(db, events[0]), events[1..], slack))
  }

  function After(db: Db, events: seq<Event>): Db
    decreases events
  {
    if events == [] then db else After(Apply(db, events[0]), events[1..])
  }

  predicate Concerns(e: Event, token: string) { !e.Wait? && e.token == token }

  lemma {:induction false} OthersLeaveSession(db: Db, e: Event, token: string)
    requires !Concerns(e, token) && !e.Wait?
    ensures Apply(db, e).now == db.now && SameAt(db, Apply(db, e), SessionKey(token))
  {
    if SessionKey(e.token) == SessionKey(token) {
      SessionKeyIsInjective(e.token, token);
    }
  }

  /** A live session of this user that lasts at least until the given time. */
  predicate LastsUntil(db: Db, token: string, user: string, until: int) {
    UserOf(db, token) == Some(user) && db.Get(SessionKey(token)).value.expiry.Some?
    && until <= db.Get(SessionKey(token)).value.expiry.value
  }

  /** The token is validated again before `limit` has passed since it was last seen, and neither
      logged out nor issued again. */
  predicate KeptBusy(db: Db, last: int, events: seq<Event>, token: string, limit: int)
    decreases events
  {
    events == [] ||
    match events[0]
    case Wait(ms) => db.now + ms - last < limit && KeptBusy(Apply(db, events[0]), last, events[1..], token, limit)
    case Validate(t, _) =>
      KeptBusy(Apply(db, events[0]), if t == token then db.now else last, events[1..], token, limit)
    case _ => !Concerns(events[0], token) && KeptBusy(Apply(db, events[0]), last, events[1..], token, limit)
  }

  /** A session whose validations are less than twenty hours apart, minus the reporting error, is
      valid throughout: after every such run it still is. */
  lemma {:induction false} BusySessionNeverExpires(db: Db, last: int, events: seq<Event>, token: string,
                                                   user: string, slack: nat)
    requires last <= db.now && LastsUntil(db, token, user, last + 72_000_000 - slack)
    requires Legal(db, events, slack) && KeptBusy(db, last, events, token, 72_000_000 - slack)
    ensures UserOf(After(db, events), token) == Some(user)
    decreases events
  {
    if events != [] {
      var e := events[0];
      var last' := if e.Validate? && e.token == token then db.now else last;
      if e.Wait? {
        assert db.now + e.ms < db.Get(SessionKey(token)).value.expiry.value;
      } else if !Concerns(e, token) {
        OthersLeaveSession(db, e, token);
      }
      assert LastsUntil(Apply(db, e), token, user, last' + REFRESH_BELOW - slack);
      BusySessionNeverExpires(Apply(db, e), last', events[1..], token, user, slack);
    }
  }

  /** Every session ends within a day of now, unless it is extended. */
  ghost predicate EndsWithinADay(db: Db) {
    forall token | db.Get(SessionKey(token)).Some? ::
      db.Get(SessionKey(token)).value.expiry.Some? && db.Get(SessionKey(token)).value.expiry.value <= db.now + DAY
  }

  lemma {:induction false} StepKeepsEnd(db: Db, e: Event)
    requires EndsWithinADay(db)
    ensures EndsWithinADay(Apply(db, e))
  {
    forall token | Apply(db, e).Get(SessionKey(token)).Some?
      ensures Apply(db, e).Get(SessionKey(token)).value.expiry.Some?
      ensures Apply(db, e).Get(SessionKey(token)).value.expiry.value <= Apply(db, e).now + DAY
    {
      if !e.Wait? && !Concerns(e, token) {
        OthersLeaveSession(db, e, token);
      }
    }
  }

  predicate NoneConcerns(events: seq<Event>, token: string) { forall e | e in events :: !Concerns(e, token) }

  lemma {:induction false} IdleSessionOnlyAges(db: Db, events: seq<Event>, token: string)
    requires NoneConcerns(events, token)
    ensures db.now <= After(db, events).now
    ensures After(db, events).Get(SessionKey(token)) ==
            if db.Get(SessionKey(token)).Some? && db.Get(SessionKey(token)).value.expiry.Some?
               && db.Get(SessionKey(token)).value.expiry.value <= After(db, events).now
            then None else db.Get(SessionKey(token))
    decreases events
  {
    if events != [] {
      assert events[0] in events;
      if !events[0].Wait? {
        OthersLeaveSession(db, events[0], token);
      } else if db.Get(SessionKey(token)).None? && SessionKey(token) in db.entries {
        assert db.entries[SessionKey(token)].expiry.value <= db.now;
      }
      IdleSessionOnlyAges(Apply(db, events[0]), events[1..], token);
    }
  }

  lemma {:induction false} RunKeepsEnd(db: Db, events: seq<Event>)
    requires EndsWithinADay(db)
    ensures EndsWithinADay(After(db, events))
    decreases events
  {
    if events != [] {
      StepKeepsEnd(db, events[0]);
      RunKeepsEnd(Apply(db, events[0]), events[1..]);
    }
  }

  /** In any run from a store without sessions, a token nobody presents for a day is dead after it. */
  lemma {:induction false} IdleSessionDies(db: Db, before: seq<Event>, idle: seq<Event>, token: string)
    requires forall t :: db.Get(SessionKey(t)).None?
    requires NoneConcerns(idle, token)
    requires After(db, before).now + 86_400_000 <= After(After(db, before), idle).now
    ensures UserOf(After(After(db, before), idle), token) == None
  {
    RunKeepsEnd(db, before);
    IdleSessionOnlyAges(After(db, before), idle, token);
  }

  /** A token that is dead, logged out for instance, stays dead as long as it is not issued again,
      however often it is presented. */
  lemma {:induction false} DeadSessionStaysDead(db: Db, events: seq<Event>, token: string)
    requires db.Get(SessionKey(token)).None? && forall e | e in events && e.Login? :: e.token != token
    ensures After(db, events).Get(SessionKey(token)).None?
    decreases events
  {
    if events != [] {
      assert events[0] in events;
      if !events[0].Wait? && !Concerns(events[0], token) {
        OthersLeaveSession(db, events[0], token);
      }
      DeadSessionStaysDead(Apply(db, events[0]), events[1..], token);
    }
  }

  /** How often a run extends a token's session. */
  function Refreshments(db: Db, events: seq<Event>, token: string): nat
    decreases events
  {
    if events == [] then 0
    else (if Refreshes(db, events[0], token) then 1 else 0) + Refreshments(Apply(db, events[0]), events[1..], token)
  }

  /** Each extension needs more than four hours since the one before, minus the reporting error: k
      of them since the session was set to a full day mean more than k times that. */
  lemma {:induction false} RefreshmentsTakeTime(db: Db, start: int, events: seq<Event>, token: string, slack: nat)
    requires Legal(db, events, slack) && forall e | e in events && e.Login? :: e.token != token
    requires start <= db.now
    requires db.Get(SessionKey(token)).Some? ==>
               db.Get(SessionKey(token)).value.expiry == Some(start + 86_400_000)
    ensures var k := Refreshments(db, events, token);
            k > 0 ==> After(db, events).now - start > k * (14_400_000 - slack)
    ensures db.now <= After(db, events).now
    decreases events
  {
    if events != [] {
      var e := events[0];
      var db' := Apply(db, e);
      assert e in events;
      if !e.Wait? && !Concerns(e, token) {
        OthersLeaveSession(db, e, token);
      }
      var start' := if Refreshes(db, e, token) then db.now else start;
      RefreshmentsTakeTime(db', start', events[1..], token, slack);
    }
  }

  /** The bound on the gaps is exact, for any reporting error up to eight hours: one millisecond more
      and a session can expire between two validations. */
  lemma {:induction false} GapBoundIsTight(db: Db, token: string, user: string, slack: nat) returns (events: seq<Event>)
    requires slack < 28_800_000
    requires UserOf(db, token) == Some(user) && db.Get(SessionKey(token)).value.expiry == Some(db.now + 86_400_000)
    ensures Legal(db, events, slack) && KeptBusy(db, db.now, events, token, 72_000_000 - slack + 1)
    ensures UserOf(After(db, events), token) == None
  {
    var wait, end := Wait(DAY - REFRESH_BELOW + slack), Wait(REFRESH_BELOW - slack);
    var check := Validate(token, REFRESH_BELOW);
    events := [wait, check, end];
    assert events[1..] == [check, end] && [check, end][1..] == [end] && [end][1..] == [];
    var db1 := Apply(db, wait);
    assert Apply(db1, check) == db1;
    var db2 := Apply(db1, end);
    assert After(db1, [end]) == db2 && Legal(db1, [end], slack);
    assert After(db1, [check, end]) == db2 && Legal(db1, [check, end], slack);
    assert KeptBusy(db1, db.now, [check, end], token, REFRESH_BELOW - slack + 1);
  }

  /** With exact reports the bounds are those of the source: busy means gaps under twenty hours,
      and k extensions take more than 4k hours. */
  lemma {:induction false} ExactReports(db: Db, events: seq<Event>, token: string, user: string)
    requires UserOf(db, token) == Some(user) && db.Get(SessionKey(token)).value.expiry == Some(db.now + 86_400_000)
    requires Legal(db, events, 0)
    requires KeptBusy(db, db.now, events, token, 72_000_000)
    requires forall e | e in events && e.Login? :: e.token != token
    ensures UserOf(After(db, events), token) == Some(user)
    ensures var k := Refreshments(db, events, token);
            k > 0 ==> After(db, events).now - db.now > k * 14_400_000
  {
    BusySessionNeverExpires(db, db.now, events, token, user, 0);
    RefreshmentsTakeTime(db, db.now, events, token, 0);
  }
}
