/** Whole runs of the system: every component's steps, in any serial order, on the one Redis
    database and the rules table they share. */
module House {
  import opened Text
  import opened Json
  import opened Redis
  import opened Conditions
  import opened TimeConditions
  import opened Evaluator
  import opened Store
  import opened DeviceIndex
  import opened Scheduling
  import opened RuleEngine
  import TaskQueue
  import Sessions

  datatype State = State(db: Db, rules: Rules, devices: map<string, bool>, rows: Schedules)

  datatype Event =
    | Report(device: string, fields: map<string, Value>)
    | SetDevice(device: string, accepted: bool)
    | Change(id: string, rule: Rule)
    | Remove(id: string)
    | Rebuild
    | Evaluate(trees: seq<Condition>)
    | Session(event: Sessions.Event)
    | Wait(ms: nat)

  /** A report that ProcessDeviceUpdate acts on. */
  predicate Accepted(s: State, device: string) { device in s.devices && s.devices[device] }

  /** The effect of each event, as the operation behind it promises it: Change is creating or
      updating a rule, Remove an owner's delete, Rebuild the start-up population. */
  ghost predicate Step(decode: Decoder, s: State, e: Event, t: State) {
    match e
    case Report(device, fields) =>
      t == if device !in s.devices then s.(devices := s.devices[device := false])
           else if s.devices[device] then s.(db := Reported(s.db, device, fields)) else s
    case SetDevice(device, accepted) => t == s.(devices := s.devices[device := accepted])
    case Change(id, rule) =>
      && t.rules == s.rules[id := rule] && t.devices == s.devices
      && RowsFollow(decode, s.rows, t.rows, id, rule) && Refreshed(s.db, t.db, t.rules, id)
    case Remove(id) =>
      && t.rules == s.rules - {id} && t.devices == s.devices
      && t.rows == RowsWithout(s.rows, id) && Dropped(s.db, t.db, id)
    case Rebuild =>
      && t.rules == s.rules && t.devices == s.devices && t.rows == s.rows && Agrees(t.db, t.rules) && Clean(t.db)
      && t.db.now == s.db.now
      && forall k | !IsRulesKey(k) :: SameAt(s.db, t.db, k)
    case Evaluate(trees) => t == s.(db := EvalAll(decode, s.db, trees))
    case Session(event) => !event.Wait? && t == s.(db := Sessions.Apply(s.db, event))
    case Wait(ms) => t == s.(db := s.db.(now := s.db.now + ms))
  }

  /** The one thing asked of the environment: no accepted device reports under an ID that ends in
      ":rules", whose state key would be another device's index key. */
  predicate Safe(s: State, e: Event) {
    e.Report? && Accepted(s, e.device) ==> !HasSuffix(e.device, ":rules")
  }

  /** The index is what a rebuild would build, nothing but sets lies under its keys, every cached
      time answer is right for some instant of the last sixty seconds, and every rule has its
      schedule rows. */
  ghost predicate Sound(decode: Decoder, s: State) {
    Clean(s.db) && Agrees(s.db, s.rules) && CacheSound(decode, s.db) && RowsSound(decode, s)
  }

  /** One row for each boundary of each enabled, decodable rule, and none without a rule. */
  ghost predicate RowsSound(decode: Decoder, s: State) {
    UniquePairs(s.rows) && Placed(decode, s.rows, s.rules)
  }

  lemma {:induction false} RulesKeyIsNoCacheKey(key: string)
    requires IsRulesKey(key)
    ensures !HasPrefix(key, "time:")
  {
    assert key[..7][0] == key[0] == key[..5][0];
  }

  /** Databases that read alike under the index's keys have the same index. */
  lemma {:induction false} SameIndexKeysSameIndex(db: Db, db': Db, rules: Rules)
    requires Clean(db) && Agrees(db, rules) && forall k | IsRulesKey(k) :: SameAt(db, db', k)
    ensures Clean(db') && Agrees(db', rules)
  {
    forall d ensures Index(db', d) == Index(db, d) {
      RulesKeyRoundTrip(d);
      assert SameAt(db, db', RulesKey(d));
    }
    forall k | IsRulesKey(k) ensures Lasting(db', k) {
      assert Lasting(db, k) && SameAt(db, db', k);
    }
    forall r ensures AgreesOn(db', rules, r) {
      assert AgreesOn(db, rules, r);
    }
  }

  lemma {:induction false} ReportKeepsSound(decode: Decoder, s: State, device: string, fields: map<string, Value>)
    requires Sound(decode, s) && !HasSuffix(device, ":rules")
    ensures Sound(decode, s.(db := Reported(s.db, device, fields)))
  {
    var db' := Reported(s.db, device, fields);
    ReportTouchesOneKey(s.db, device, fields);
    StateKeyAsRulesKey(device);
    SameIndexKeysSameIndex(s.db, db', s.rules);
    forall key | HasPrefix(key, "time:") ensures SameAt(s.db, db', key) {
      assert key[..5][0] == 't' && StateKey(device)[0] == 'd';
    }
    FrameKeepsCacheSound(decode, s.db, db');
  }

  lemma {:induction false} IndexMoveKeepsCache(decode: Decoder, db: Db, db': Db)
    requires CacheSound(decode, db) && db'.now == db.now && forall k | !IsRulesKey(k) :: SameAt(db, db', k)
    ensures CacheSound(decode, db')
  {
    forall key | HasPrefix(key, "time:") ensures SameAt(db, db', key) {
      if IsRulesKey(key) {
        RulesKeyIsNoCacheKey(key);
      }
    }
    FrameKeepsCacheSound(decode, db, db');
  }

  lemma {:induction false} ChangeKeepsSound(decode: Decoder, s: State, id: string, rule: Rule, t: State)
    requires Sound(decode, s) && Step(decode, s, Change(id, rule), t)
    ensures Sound(decode, t)
  {
    forall r | r != id ensures AgreesOn(s.db, t.rules, r) {
      assert AgreesOn(s.db, s.rules, r);
    }
    RefreshRestoresAgreement(s.db, t.db, t.rules, id);
    IndexMoveKeepsCache(decode, s.db, t.db);
    FollowKeepsPlaced(decode, s.rows, t.rows, s.rules, id, rule);
  }

  lemma {:induction false} RemoveKeepsSound(decode: Decoder, s: State, id: string, t: State)
    requires Sound(decode, s) && Step(decode, s, Remove(id), t)
    ensures Sound(decode, t)
  {
    forall r ensures AgreesOn(t.db, t.rules, r) {
      assert AgreesOn(s.db, s.rules, r);
    }
    CleanStaysClean(s.db, t.db);
    IndexMoveKeepsCache(decode, s.db, t.db);
    if id in s.rules {
      RemovalKeepsPlacedIff(decode, s.rows, s.rules, id, false);
    } else {
      assert RowsWithout(s.rows, id) == s.rows && s.rules - {id} == s.rules;
    }
  }

  lemma {:induction false} EvaluateKeepsSound(decode: Decoder, s: State, trees: seq<Condition>)
    requires Sound(decode, s)
    ensures Sound(decode, s.(db := EvalAll(decode, s.db, trees)))
  {
    var db' := EvalAll(decode, s.db, trees);
    EvalAllKeepsCacheSound(decode, s.db, trees);
    EvalAllIsSameInstant(decode, s.db, trees);
    forall k | IsRulesKey(k) ensures SameAt(s.db, db', k) {
      RulesKeyIsNoCacheKey(k);
    }
    SameIndexKeysSameIndex(s.db, db', s.rules);
  }

  lemma {:induction false} SessionKeepsSound(decode: Decoder, s: State, e: Sessions.Event)
    requires Sound(decode, s) && !e.Wait?
    ensures Sound(decode, s.(db := Sessions.Apply(s.db, e)))
  {
    var db' := Sessions.Apply(s.db, e);
    var key := Sessions.SessionKey(e.token);
    assert key[0] == 's' && forall k | k != key :: SameAt(s.db, db', k);
    forall k | IsRulesKey(k) || HasPrefix(k, "time:") ensures k[0] != 's' {
      assert if IsRulesKey(k) then k[..7][0] == 'd' else k[..5][0] == 't';
    }
    SameIndexKeysSameIndex(s.db, db', s.rules);
    FrameKeepsCacheSound(decode, s.db, db');
  }

  lemma {:induction false} WaitKeepsSound(decode: Decoder, s: State, ms: nat)
    requires Sound(decode, s)
    ensures Sound(decode, s.(db := s.db.(now := s.db.now + ms)))
  {
    var db' := s.db.(now := s.db.now + ms);
    TimeKeepsCacheSound(decode, s.db, s.db.now + ms);
    forall k | IsRulesKey(k) ensures SameAt(s.db, db', k) {
      assert Lasting(s.db, k);
    }
    SameIndexKeysSameIndex(s.db, db', s.rules);
  }

  lemma {:induction false} StepKeepsSound(decode: Decoder, s: State, e: Event, t: State)
    requires Sound(decode, s) && Safe(s, e) && Step(decode, s, e, t)
    ensures Sound(decode, t)
  {
    match e {
      case Report(device, fields) =>
        if Accepted(s, device) {
          ReportKeepsSound(decode, s, device, fields);
        }
      case SetDevice(_, _) =>
      case Change(id, rule) => ChangeKeepsSound(decode, s, id, rule, t);
      case Remove(id) => RemoveKeepsSound(decode, s, id, t);
      case Rebuild => IndexMoveKeepsCache(decode, s.db, t.db);
      case Evaluate(trees) => EvaluateKeepsSound(decode, s, trees);
      case Session(event) => SessionKeepsSound(decode, s, event);
      case Wait(ms) => WaitKeepsSound(decode, s, ms);
    }
  }

  // ---- Whole runs ----

  /** A run: every event leads from its state to the next one, and every report is safe. */
  ghost predicate Run(decode: Decoder, states: seq<State>, events: seq<Event>) {
    && |states| == |events| + 1
    && forall i | 0 <= i < |events| :: Safe(states[i], events[i]) && Step(decode, states[i], events[i], states[i + 1])
  }

  lemma {:induction false} RunKeepsSound(decode: Decoder, states: seq<State>, events: seq<Event>, i: nat)
    requires Run(decode, states, events) && Sound(decode, states[0]) && i < |states|
    ensures Sound(decode, states[i])
  {
    if i > 0 {
      RunKeepsSound(decode, states, events, i - 1);
      StepKeepsSound(decode, states[i - 1], events[i - 1], states[i]);
    }
  }

  /** In any run of a sound system, a report of an accepted device that triggers a rule, or stops
      triggering it, finds that rule in the device's index: it is enqueued for evaluation. */
  lemma {:induction false} NoRuleIsEverMissed(decode: Decoder, states: seq<State>, events: seq<Event>, i: nat,
                                              r: string)
    requires Run(decode, states, events) && Sound(decode, states[0]) && i < |events|
    requires events[i].Report? && Accepted(states[i], events[i].device) && events[i].device != ""
    requires r in states[i].rules
    requires var rule := states[i].rules[r];
             Triggers(decode, states[i].db, rule) != Triggers(decode, states[i + 1].db, rule)
    ensures r in Index(states[i + 1].db, events[i].device)
  {
    RunKeepsSound(decode, states, events, i);
    NoMissedTrigger(decode, states[i].db, states[i].rules, events[i].device, events[i].fields, r);
  }

  /** In any run of a sound system, a cached time answer is the direct comparison of that very leaf
      at an instant less than sixty seconds ago. */
  lemma {:induction false} CachedAnswersAreRecent(decode: Decoder, states: seq<State>, events: seq<Event>, i: nat,
                                                  op: string, value: seq<Byte>)
    requires Run(decode, states, events) && Sound(decode, states[0]) && i < |states|
    requires CachedAnswer(states[i].db, op, value).Some?
    ensures exists t :: states[i].db.now - CACHE_TTL < t <= states[i].db.now
              && CachedAnswer(states[i].db, op, value) == Some(ClockAt(decode, MinuteOfDay(t), op, value))
  {
    RunKeepsSound(decode, states, events, i);
    var e := states[i].db.Get(CacheKey(op, value)).value;
    var t := e.expiry.value - CACHE_TTL;
    assert CachedAnswer(states[i].db, op, value) == Some(ClockAt(decode, MinuteOfDay(t), op, value));
  }

  /** In any run of a sound system, evaluating a tree that its boundaries cover gives the direct
      answer whenever the last sixty seconds were quiet for it. */
  lemma {:induction false} QuietTreesEvaluateDirectly(decode: Decoder, states: seq<State>, events: seq<Event>,
                                                      i: nat, cond: Condition)
    requires Run(decode, states, events) && Sound(decode, states[0]) && i < |states|
    requires Covered(decode, cond, Boundaries(decode, cond)) && QuietWindow(decode, states[i].db.now, cond)
    ensures var db := states[i].db; Eval(decode, db, cond).0 == Truth(WorldDirect(decode, db), cond)
  {
    RunKeepsSound(decode, states, events, i);
    CachedRefinesDirect(decode, states[i].db, cond);
  }

  /** In any run of a sound system, at any instant, the evaluation of a tree without a stale leaf is
      the direct one; the leaves are answered directly only then. */
  lemma {:induction false} BoundaryJobsAreRightIff(decode: Decoder, states: seq<State>, events: seq<Event>, i: nat,
                                                   cond: Condition)
    requires Run(decode, states, events) && Sound(decode, states[0]) && i < |states|
    ensures var db := states[i].db;
            && (NoStaleLeaf(decode, db, cond) <==> SameLeaves(WorldNow(decode, db), WorldDirect(decode, db), cond))
            && (NoStaleLeaf(decode, db, cond) ==> Eval(decode, db, cond).0 == Truth(WorldDirect(decode, db), cond))
  {
    RunKeepsSound(decode, states, events, i);
    DirectIffNoStaleLeaf(decode, states[i].db, cond);
    BoundaryAnswerIff(decode, states[i].db, cond);
  }

  /** In any run of a sound system, with a cron library that accepts the generated texts, each
      boundary of each enabled rule has exactly one live job, which fires there every day. */
  lemma {:induction false} NoBoundaryIsEverMissed(accepts: string -> bool, decode: Decoder, states: seq<State>,
                                                  events: seq<Event>, i: nat, r: string, b: int)
    requires Run(decode, states, events) && Sound(decode, states[0]) && i < |states|
    requires r in states[i].rules && Wakes(states[i].rules[r])
    requires b in Boundaries(decode, states[i].rules[r].conditions.value)
    requires forall t | t in CronTexts(decode, states[i].rules[r].conditions) :: accepts(t)
    ensures OneJobAt(Wanted(accepts, states[i].rows), r, b)
  {
    RunKeepsSound(decode, states, events, i);
    OneJobPerBoundary(accepts, decode, states[i].rows, states[i].rules, r, b);
  }

  // ---- What a device leaf reads in a run ----

  /** Reports of this device that count are exactly those in these states. */
  predicate ReportsOf(s: State, e: Event, device: string) { e.Report? && e.device == device && Accepted(s, device) }

  /** The state key of the device holds the fields until the given time, and nothing from then on. */
  predicate HoldsUntil(db: Db, device: string, fields: map<string, Value>, end: int) {
    db.Get(StateKey(device)) == if db.now < end then Some(Entry(Redis.State(fields), Some(end))) else None
  }

  lemma {:induction false} StateKeyIsApart(device: string)
    ensures !HasPrefix(StateKey(device), "time:")
    ensures !HasSuffix(device, ":rules") ==> !IsRulesKey(StateKey(device))
    ensures StateKey(device)[0] == 'd'
  {
    StateKeyAsRulesKey(device);
    assert StateKey(device)[..5][0] == 'd';
  }

  /** No other event than its own reports touches a device's state. */
  lemma {:induction false} OthersLeaveState(decode: Decoder, s: State, e: Event, t: State, device: string)
    requires Step(decode, s, e, t) && !ReportsOf(s, e, device) && !e.Wait? && !HasSuffix(device, ":rules")
    ensures t.db.now == s.db.now && SameAt(s.db, t.db, StateKey(device))
  {
    StateKeyIsApart(device);
    match e {
      case Report(d, fields) =>
        if Accepted(s, d) {
          assert StateKey(d)[7..] == d && StateKey(device)[7..] == device;
          ReportTouchesOneKey(s.db, d, fields);
        }
      case Evaluate(trees) => EvalAllIsSameInstant(decode, s.db, trees);
      case Session(event) =>
        assert Sessions.SessionKey(event.token)[0] == 's';
      case SetDevice(_, _) =>
      case Change(_, _) =>
      case Remove(_) =>
      case Rebuild =>
    }
  }

  lemma {:induction false} StepKeepsState(decode: Decoder, s: State, e: Event, t: State, device: string,
                                          fields: map<string, Value>, end: int)
    requires Step(decode, s, e, t) && !ReportsOf(s, e, device) && !HasSuffix(device, ":rules")
    requires HoldsUntil(s.db, device, fields, end)
    ensures HoldsUntil(t.db, device, fields, end)
  {
    if !e.Wait? {
      OthersLeaveState(decode, s, e, t, device);
    }
  }

  lemma {:induction false} ReportHolds(decode: Decoder, states: seq<State>, events: seq<Event>, i: nat, j: nat,
                                       device: string, fields: map<string, Value>)
    requires Run(decode, states, events) && i < j < |states|
    requires events[i] == Report(device, fields) && Accepted(states[i], device)
    requires forall k | i < k < j :: !ReportsOf(states[k], events[k], device)
    ensures HoldsUntil(states[j].db, device, fields, states[i].db.now + 3_600_000)
  {
    if j > i + 1 {
      ReportHolds(decode, states, events, i, j - 1, device, fields);
      StepKeepsState(decode, states[j - 1], events[j - 1], states[j], device, fields, states[i].db.now + 3_600_000);
    }
  }

  /** In any run, for an hour the state of a device is exactly what it reported last, and then nothing:
      whatever rule changes, evaluations, sessions, other reports or waiting lie between. */
  lemma {:induction false} LastReportIsRead(decode: Decoder, states: seq<State>, events: seq<Event>, i: nat, j: nat,
                                            device: string, fields: map<string, Value>)
    requires Run(decode, states, events) && i < j < |states|
    requires events[i] == Report(device, fields) && Accepted(states[i], device)
    requires forall k | i < k < j :: !(events[k].Report? && events[k].device == device && Accepted(states[k], device))
    ensures StateOf(states[j].db, device) ==
            if states[j].db.now < states[i].db.now + 3_600_000 then fields else map[]
  {
    ReportHolds(decode, states, events, i, j, device, fields);
  }

  /** So in any run a numeric condition on the device, of either kind, compares the number in its last
      report of the last hour, if there is one. */
  lemma {:induction false} LeafReadsLastReport(decode: Decoder, states: seq<State>, events: seq<Event>, i: nat, j: nat,
                                               device: string, fields: map<string, Value>,
                                               kind: string, key: string, op: string, value: seq<Byte>, e: real)
    requires Run(decode, states, events) && i < j < |states|
    requires events[i] == Report(device, fields) && Accepted(states[i], device)
    requires forall k | i < k < j :: !(events[k].Report? && events[k].device == device && Accepted(states[k], device))
    requires (kind == "sensor" || kind == "device") && decode(value) == Some(Number(e))
    ensures Eval(decode, states[j].db, DeviceLeaf(kind, device, key, op, value)).0 <==>
            states[j].db.now < states[i].db.now + 3_600_000 && key in fields && fields[key].Number? &&
            var a := fields[key].n;
            if op == "<" then a < e else if op == ">" then a > e
            else if op == "==" then a == e else op == "!=" && a != e
  {
    LastReportIsRead(decode, states, events, i, j, device, fields);
    var read := StateOf(states[j].db, device);
    var w := World(decode, _ => read, (o, v) => false);
    DeviceLeafReadsState(decode, states[j].db, read, w.clock, kind, device, key, op, value);
    NumberLeafMeans(w, kind, device, key, op, value, e);
  }

  /** A device is accepted only by being set so: reports of unknown devices never accept them. */
  lemma {:induction false} AcceptanceIsExplicit(decode: Decoder, states: seq<State>, events: seq<Event>, j: nat,
                                                device: string)
    requires Run(decode, states, events) && j < |states| && Accepted(states[j], device) && !Accepted(states[0], device)
    ensures exists k | 0 <= k < j :: events[k] == SetDevice(device, true)
  {
    if Accepted(states[j - 1], device) {
      AcceptanceIsExplicit(decode, states, events, j - 1, device);
    } else {
      assert events[j - 1] == SetDevice(device, true);
    }
  }

  /** What the start-up makes of any state: the index is rebuilt, whatever it was. A run that begins
      with it is sound from then on, given only that the time cache was, as an empty one is, and the
      schedule rows were, as those of empty tables are. */
  lemma {:induction false} RunFromStartIsSound(decode: Decoder, states: seq<State>, events: seq<Event>, i: nat)
    requires Run(decode, states, events) && events != [] && events[0].Rebuild? && 0 < i < |states|
    requires CacheSound(decode, states[0].db) || states[0].db.entries == map[]
    requires RowsSound(decode, states[0])
    ensures Sound(decode, states[i])
  {
    if i == 1 {
      IndexMoveKeepsCache(decode, states[0].db, states[1].db);
    } else {
      RunFromStartIsSound(decode, states, events, i - 1);
      StepKeepsSound(decode, states[i - 1], events[i - 1], states[i]);
    }
  }

  // ---- The operations take these steps ----

  ghost function Snapshot(engine: Engine): State
    reads engine.redis, engine.db
  {
    State.State(engine.redis.db, engine.db.rules, engine.db.devices, engine.db.schedules)
  }

  /** Start-up. */
  method StartTakesStep(engine: Engine)
    requires engine.db.Valid() && UniquePairs(engine.db.schedules)
    requires engine.scheduler.Consistent() && engine.scheduler.LiveJobs() == map[]
    modifies engine.redis, engine.scheduler
    ensures Step(engine.decode, old(Snapshot(engine)), Rebuild, Snapshot(engine))
    ensures engine.Settled() <==> Placed(engine.decode, engine.db.schedules, engine.db.rules)
  {
    engine.Start();
  }

  /** Creating a rule. */
  method CreateTakesStep(engine: Engine, rule: Rule) returns (ghost e: Event)
    requires engine.Settled()
    modifies engine`queue, engine.redis, engine.scheduler, engine.db
    ensures engine.Settled() && Step(engine.decode, old(Snapshot(engine)), e, Snapshot(engine))
    ensures e.Change? && e.id !in old(engine.db.rules) && e.rule == rule
  {
    var id := engine.CreateRule(rule);
    e := Change(id, rule);
  }

  /** An update of an existing rule by its owner. */
  method PatchTakesStep(engine: Engine, ruleText: string, user: string, patch: Patch) returns (ghost e: Event)
    requires engine.Settled() && OwnRow(engine.db.readId(ruleText), engine.db.rules, user).Some?
    modifies engine`queue, engine.redis, engine.scheduler, engine.db
    ensures engine.Settled() && Step(engine.decode, old(Snapshot(engine)), e, Snapshot(engine))
    ensures var id := engine.db.readId(ruleText).value; e == Change(id, Patched(old(engine.db.rules)[id], patch))
  {
    ghost var id := engine.db.readId(ruleText).value;
    e := Change(id, Patched(engine.db.rules[id], patch));
    var _ := engine.PatchRule(ruleText, user, patch);
  }

  /** A delete by the owner. */
  method DeleteTakesStep(engine: Engine, id: string, user: string)
    requires engine.Settled() && id in engine.db.rules && engine.db.rules[id].owner == user
    modifies engine.redis, engine.scheduler, engine.db
    ensures engine.Settled() && Step(engine.decode, old(Snapshot(engine)), Remove(id), Snapshot(engine))
  {
    engine.DeleteRule(id, user);
  }

  /** A device report. */
  method ReportTakesStep(engine: Engine, device: string, fields: map<string, Value>) returns (queue: seq<string>)
    modifies engine.redis, engine.db`devices
    ensures Step(engine.decode, old(Snapshot(engine)), Report(device, fields), Snapshot(engine))
    ensures Accepted(old(Snapshot(engine)), device) ==> Lists(queue, Index(engine.redis.db, device))
  {
    queue := ProcessDeviceUpdateJob(engine.redis, engine.db, device, fields, []);
    assert queue[0..] == queue;
  }

  /** An evaluation job, and what it publishes in the world of that step. */
  method EvaluateTakesStep(engine: Engine, id: string) returns (messages: seq<TaskQueue.Message>, ghost e: Event)
    modifies engine.redis
    ensures e.Evaluate? && Step(engine.decode, old(Snapshot(engine)), e, Snapshot(engine))
    ensures if id in engine.db.rules
            then TaskQueue.Publishes(engine.decode, old(engine.redis.db), engine.db.rules, id, messages)
            else messages == []
  {
    var outcome;
    ghost var trees;
    outcome, messages, trees := TaskQueue.EvaluateAndExecute(engine.redis, engine.db, engine.decode, id);
    e := Evaluate(trees);
  }
}
