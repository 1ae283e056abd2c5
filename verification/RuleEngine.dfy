/** The control engine: rule changes, and how they reach the device index and the schedules. */
module RuleEngine {
  import opened Text
  import opened Json
  import opened Redis
  import opened Conditions
  import opened TimeConditions
  import opened Evaluator
  import opened Store
  import opened Scheduling
  import opened DeviceIndex

  // ---- Schedule rows of one rule ----

  /** No two rows of a rule carry the same cron text. */
  ghost predicate UniquePairs(rows: Schedules) {
    forall a, b | a in rows && b in rows && rows[a].ruleId == rows[b].ruleId && rows[a].cron == rows[b].cron :: a == b
  }

  function TextsOf(tcs: seq<TimeCondition>): set<string> { set tc | tc in tcs :: CronText(tc) }

  lemma {:induction false} OneMoreText(tcs: seq<TimeCondition>, i: nat)
    requires i < |tcs|
    ensures TextsOf(tcs[..i + 1]) == TextsOf(tcs[..i]) + {CronText(tcs[i])}
  {
    assert tcs[..i + 1] == tcs[..i] + [tcs[i]];
  }

  /** The cron texts of a rule's extracted boundaries. */
  function CronTexts(decode: Decoder, conditions: Option<Condition>): set<string> {
    if conditions.None? then {} else TextsOf(Extracted(decode, conditions.value))
  }

  /** The rule has a row for a cron text, enabled as given. */
  ghost predicate HasRow(rows: Schedules, ruleId: string, text: string, enabled: bool) {
    exists s :: s in rows && rows[s] == Schedule(ruleId, text, enabled)
  }

  /** Rows that were there are kept; those of the rule at one of the texts take the given flag. */
  ghost predicate OthersKept(before: Schedules, after: Schedules, ruleId: string, texts: set<string>, enabled: bool) {
    forall s | s in before :: s in after &&
      after[s] ==
      if before[s].ruleId == ruleId && before[s].cron in texts then before[s].(enabled := enabled) else before[s]
  }

  /** A row is added only for a text that had none. */
  ghost predicate AddedForNew(before: Schedules, after: Schedules, ruleId: string, texts: set<string>) {
    forall s | s in after && s !in before ::
      && after[s].ruleId == ruleId && after[s].cron in texts
      && forall x | x in before :: !Matches(before[x], ruleId, after[s].cron)
  }

  /** What refreshing a rule does to the schedule rows: each text has its one row, and nothing else
      is changed. */
  ghost predicate RowsRefreshed(before: Schedules, after: Schedules, ruleId: string, texts: set<string>,
                                enabled: bool) {
    && UniquePairs(after)
    && (forall t | t in texts :: HasRow(after, ruleId, t, enabled))
    && OthersKept(before, after, ruleId, texts, enabled)
    && AddedForNew(before, after, ruleId, texts)
  }

  /** The row a cron text is installed in: the one found, or a new one. */
  ghost predicate IsRowFor(rows: Schedules, ruleId: string, text: string, id: string) {
    if id in rows then Matches(rows[id], ruleId, text) else forall s | s in rows :: !Matches(rows[s], ruleId, text)
  }

  lemma {:induction false} InstalledStaysUnique(rows: Schedules, ruleId: string, text: string, enabled: bool,
                                                id: string)
    requires UniquePairs(rows) && IsRowFor(rows, ruleId, text, id)
    ensures UniquePairs(rows[id := Schedule(ruleId, text, enabled)])
  {
  }

  lemma {:induction false} InstalledKeepsRows(rows: Schedules, ruleId: string, texts: set<string>, enabled: bool,
                                              text: string, id: string)
    requires IsRowFor(rows, ruleId, text, id) && forall t | t in texts :: HasRow(rows, ruleId, t, enabled)
    ensures forall t | t in texts + {text} :: HasRow(rows[id := Schedule(ruleId, text, enabled)], ruleId, t, enabled)
  {
    var after := rows[id := Schedule(ruleId, text, enabled)];
    assert id in after && after[id] == Schedule(ruleId, text, enabled);
    forall t | t in texts && t != text ensures HasRow(after, ruleId, t, enabled) {
      var s :| s in rows && rows[s] == Schedule(ruleId, t, enabled);
      assert s in after && after[s] == rows[s];
    }
  }

  lemma {:induction false} InstalledKeepsOthers(before: Schedules, rows: Schedules, ruleId: string,
                                                texts: set<string>, enabled: bool, text: string, id: string)
    requires OthersKept(before, rows, ruleId, texts, enabled) && AddedForNew(before, rows, ruleId, texts)
    requires IsRowFor(rows, ruleId, text, id) && UniquePairs(rows)
    ensures OthersKept(before, rows[id := Schedule(ruleId, text, enabled)], ruleId, texts + {text}, enabled)
    ensures AddedForNew(before, rows[id := Schedule(ruleId, text, enabled)], ruleId, texts + {text})
  {
    assert forall x | x in before && Matches(before[x], ruleId, text) :: x in rows && Matches(rows[x], ruleId, text);
  }

  /** Handling one more cron text. */
  lemma {:induction false} RefreshOneMore(before: Schedules, rows: Schedules, ruleId: string, texts: set<string>,
                                          enabled: bool, text: string, id: string)
    requires RowsRefreshed(before, rows, ruleId, texts, enabled) && IsRowFor(rows, ruleId, text, id)
    ensures RowsRefreshed(before, rows[id := Schedule(ruleId, text, enabled)], ruleId, texts + {text}, enabled)
  {
    var after := rows[id := Schedule(ruleId, text, enabled)];
    InstalledStaysUnique(rows, ruleId, text, enabled, id);
    InstalledKeepsRows(rows, ruleId, texts, enabled, text, id);
    InstalledKeepsOthers(before, rows, ruleId, texts, enabled, text, id);
  }

  /** Refreshing again finds a row for every text: it neither adds nor changes any. */
  lemma {:induction false} RefreshIsIdempotent(before: Schedules, once: Schedules, twice: Schedules, ruleId: string,
                                               texts: set<string>, enabled: bool)
    requires RowsRefreshed(before, once, ruleId, texts, enabled) && RowsRefreshed(once, twice, ruleId, texts, enabled)
    ensures twice == once
  {
    forall s | s in twice && twice[s].ruleId == ruleId && twice[s].cron in texts
      ensures exists x | x in once :: Matches(once[x], ruleId, twice[s].cron)
    {
      assert HasRow(once, ruleId, twice[s].cron, enabled);
    }
    forall s | s in once ensures twice[s] == once[s] {
      if once[s].ruleId == ruleId && once[s].cron in texts {
        assert HasRow(once, ruleId, once[s].cron, enabled);
      }
    }
  }

  /** The rule is enabled and its conditions decode, so it is to be woken at its boundaries. */
  predicate Wakes(rule: Rule) { rule.enabled && rule.conditions.Some? }

  /** The rule, if it wakes, has an enabled row for each of its boundaries. */
  ghost predicate IsPlaced(decode: Decoder, rows: Schedules, r: string, rule: Rule) {
    Wakes(rule) ==> forall t | t in CronTexts(decode, rule.conditions) :: HasRow(rows, r, t, true)
  }

  /** A text the engine makes of a time condition. */
  ghost predicate IsGenerated(text: string) {
    exists tc: TimeCondition :: tc.hour < 24 && tc.minute < 60 && text == CronText(tc)
  }

  lemma {:induction false} CronTextsAreGenerated(decode: Decoder, conditions: Option<Condition>)
    ensures forall t | t in CronTexts(decode, conditions) :: IsGenerated(t)
  {
    if conditions.Some? {
      ExtractedIsInRange(decode, conditions.value);
    }
  }

  /** So has every rule of the table, and every row belongs to a rule and carries a generated text. */
  ghost predicate Placed(decode: Decoder, rows: Schedules, rules: Rules) {
    && (forall r | r in rules :: IsPlaced(decode, rows, r, rules[r]))
    && (forall s | s in rows :: rows[s].ruleId in rules && IsGenerated(rows[s].cron))
  }

  /** What creating or updating a rule does to the rows: a refresh if it wakes, else nothing. */
  ghost predicate RowsFollow(decode: Decoder, before: Schedules, after: Schedules, r: string, rule: Rule) {
    if Wakes(rule) then RowsRefreshed(before, after, r, CronTexts(decode, rule.conditions), true) else after == before
  }

  /** Following a rule places it and leaves the other rules placed. */
  lemma {:induction false} FollowKeepsPlaced(decode: Decoder, before: Schedules, after: Schedules, rules: Rules,
                                             r: string, rule: Rule)
    requires Placed(decode, before, rules) && RowsFollow(decode, before, after, r, rule)
    ensures Placed(decode, after, rules[r := rule])
  {
    var rules' := rules[r := rule];
    CronTextsAreGenerated(decode, rule.conditions);
    forall r' | r' in rules' ensures IsPlaced(decode, after, r', rules'[r']) {
      if r' != r && Wakes(rules[r']) {
        assert IsPlaced(decode, before, r', rules[r']);
        forall t | t in CronTexts(decode, rules[r'].conditions) ensures HasRow(after, r', t, true) {
          var s :| s in before && before[s] == Schedule(r', t, true);
          assert s in after && after[s] == before[s];
        }
      }
    }
  }

  /** The rows of all other rules. */
  function RowsWithout(rows: Schedules, r: string): Schedules {
    map s | s in rows && rows[s].ruleId != r :: rows[s]
  }

  function RowsLeft(rows: Schedules, r: Option<string>): Schedules {
    if r.Some? then RowsWithout(rows, r.value) else rows
  }

  /** Removing a rule's rows leaves every other rule placed, and the rule itself exactly if it is
      gone, does not wake, or has no boundary. */
  lemma {:induction false} RemovalKeepsPlacedIff(decode: Decoder, rows: Schedules, rules: Rules, r: string, keep: bool)
    requires Placed(decode, rows, rules) && r in rules
    ensures Placed(decode, RowsWithout(rows, r), if keep then rules else rules - {r}) <==>
            !keep || !Wakes(rules[r]) || CronTexts(decode, rules[r].conditions) == {}
  {
    var after := RowsWithout(rows, r);
    forall r' | r' in rules && r' != r ensures IsPlaced(decode, after, r', rules[r']) {
      assert IsPlaced(decode, rows, r', rules[r']);
      if Wakes(rules[r']) {
        forall t | t in CronTexts(decode, rules[r'].conditions) ensures HasRow(after, r', t, true) {
          var s :| s in rows && rows[s] == Schedule(r', t, true);
          assert s in after && after[s] == rows[s];
        }
      }
    }
    if keep && Wakes(rules[r]) && CronTexts(decode, rules[r].conditions) != {} {
      var t :| t in CronTexts(decode, rules[r].conditions);
      assert !HasRow(after, r, t, true);
      assert !IsPlaced(decode, after, r, rules[r]);
    }
  }

  /** With a library that accepts the generated texts, a placed rule that wakes has exactly one
      live job that fires at each of its boundaries, and it does so every day. */
  lemma {:induction false} OneJobPerBoundary(accepts: string -> bool, decode: Decoder, rows: Schedules, rules: Rules,
                                             ruleId: string, b: int)
    requires UniquePairs(rows) && Placed(decode, rows, rules) && ruleId in rules && Wakes(rules[ruleId])
    requires forall t | t in CronTexts(decode, rules[ruleId].conditions) :: accepts(t)
    requires b in Boundaries(decode, rules[ruleId].conditions.value)
    ensures OneJobAt(Wanted(accepts, rows), ruleId, b)
  {
    var cond := rules[ruleId].conditions.value;
    var tc :| tc in Extracted(decode, cond) && MinuteOf(tc) == b;
    ExtractedIsInRange(decode, cond);
    var text := CronText(tc);
    assert IsPlaced(decode, rows, ruleId, rules[ruleId]) && HasRow(rows, ruleId, text, true);
    var s :| s in rows && rows[s] == Schedule(ruleId, text, true);
    forall day, month, weekday ensures FiresAlone(Wanted(accepts, rows), s, ruleId, b, day, month, weekday) {
      RowFiresAlone(accepts, rows, s, ruleId, tc, day, month, weekday);
    }
    assert FiresAloneDaily(Wanted(accepts, rows), s, ruleId, b);
  }

  /** Of the live jobs with generated texts only the one of this row fires at its minute. */
  lemma {:induction false} RowFiresAlone(accepts: string -> bool, rows: Schedules, s: string, ruleId: string,
                                         tc: TimeCondition,
                                         day: nat, month: nat, weekday: nat)
    requires UniquePairs(rows) && forall x | x in rows :: IsGenerated(rows[x].cron)
    requires s in rows && rows[s] == Schedule(ruleId, CronText(tc), true) && accepts(CronText(tc))
    requires tc.hour < 24 && tc.minute < 60
    ensures FiresAlone(Wanted(accepts, rows), s, ruleId, MinuteOf(tc), day, month, weekday)
  {
    var live, b := Wanted(accepts, rows), MinuteOf(tc);
    assert b % 60 == tc.minute && b / 60 == tc.hour;
    CronMeans(tc, tc.minute, tc.hour, day, month, weekday);
    forall x | Fires(live, x, ruleId, b, day, month, weekday) ensures x == s {
      assert IsGenerated(rows[x].cron);
      var tc': TimeCondition :| tc'.hour < 24 && tc'.minute < 60 && rows[x].cron == CronText(tc');
      CronMeans(tc', tc.minute, tc.hour, day, month, weekday);
      assert rows[x].cron == CronText(tc);
    }
  }

  /** The live job of a schedule is the rule's and fires at a minute of the day on a given day. */
  predicate Fires(live: Live, s: string, ruleId: string, minute: int, day: nat, month: nat, weekday: nat) {
    && s in live && live[s].ruleId == ruleId
    && 0 <= minute < 1440 && CronMatches(live[s].cron, minute % 60, minute / 60, day, month, weekday)
  }

  /** No other job of the rule fires then. */
  predicate FiresAlone(live: Live, s: string, ruleId: string, minute: int, day: nat, month: nat, weekday: nat) {
    && Fires(live, s, ruleId, minute, day, month, weekday)
    && forall x | x in live && Fires(live, x, ruleId, minute, day, month, weekday) :: x == s
  }

  ghost predicate FiresAloneDaily(live: Live, s: string, ruleId: string, minute: int) {
    forall day, month, weekday :: FiresAlone(live, s, ruleId, minute, day, month, weekday)
  }

  /** One and the same job of the rule fires at the minute on every day, and no other does on any. */
  ghost predicate OneJobAt(live: Live, ruleId: string, minute: int) {
    exists s :: FiresAloneDaily(live, s, ruleId, minute)
  }

  lemma {:induction false} ExtractedIsInRange(decode: Decoder, cond: Condition)
    ensures forall tc | tc in Extracted(decode, cond) :: tc.hour < 24 && tc.minute < 60
    decreases cond, 1
  {
    ExtractedOfIsInRange(decode, cond.children);
  }

  lemma {:induction false} ExtractedOfIsInRange(decode: Decoder, conds: seq<Condition>)
    ensures forall tc | tc in ExtractedOf(decode, conds) :: tc.hour < 24 && tc.minute < 60
    decreases conds, 0
  {
    if conds != [] {
      ExtractedOfIsInRange(decode, conds[..|conds| - 1]);
      ExtractedIsInRange(decode, conds[|conds| - 1]);
    }
  }

  // ---- The engine ----

  /** The fields a PATCH request provides. */
  datatype Patch = Patch(
    name: Option<string>,
    conditions: Option<Option<Condition>>,
    actions: Option<Value>,
    enabled: Option<bool>)

  function Patched(rule: Rule, patch: Patch): Rule {
    Rule(
      if patch.name.Some? then patch.name.value else rule.name,
      if patch.conditions.Some? then patch.conditions.value else rule.conditions,
      if patch.actions.Some? then patch.actions.value else rule.actions,
      if patch.enabled.Some? then patch.enabled.value else rule.enabled,
      rule.owner)
  }

  /** Two patches in a row are one that overrides the first, field by field, by the second. */
  lemma {:induction false} PatchesCompose(rule: Rule, first: Patch, second: Patch)
    ensures Patched(Patched(rule, first), second) ==
            Patched(rule, Patch(
              if second.name.None? then first.name else second.name,
              if second.conditions.None? then first.conditions else second.conditions,
              if second.actions.None? then first.actions else second.actions,
              if second.enabled.None? then first.enabled else second.enabled))
  {
  }

  /** Whether refreshing a rule succeeds. */
  predicate Refreshable(rule: Rule) { rule.enabled ==> rule.conditions.Some? }

  class Engine {
    const redis: Client
    const db: Database
    const scheduler: Scheduler
    const decode: Decoder
    /** Rule evaluation jobs, in the order they were enqueued. */
    var queue: seq<string>

    constructor (redis: Client, db: Database, scheduler: Scheduler, decode: Decoder)
      ensures this.redis == redis && this.db == db && this.scheduler == scheduler && this.decode == decode
              && queue == []
    {
      this.redis, this.db, this.scheduler, this.decode := redis, db, scheduler, decode;
      queue := [];
    }

    /** The live jobs are exactly those a reload would build, and row pairs are unique. */
    ghost predicate Scheduled()
      reads this, db, scheduler
    {
      && db.Valid() && scheduler.Consistent() && UniquePairs(db.schedules)
      && scheduler.LiveJobs() == Wanted(scheduler.accepts, db.schedules)
    }

    /** In addition, the index is what a rebuild would build, and every rule has its rows. */
    ghost predicate Settled()
      reads this, db, scheduler, redis
    {
      Scheduled() && Clean(redis.db) && Agrees(redis.db, db.rules) && Placed(decode, db.schedules, db.rules)
    }

    /** In every settled state each boundary of each rule that wakes has its one live job. */
    lemma {:induction false} SettledFiresAtBoundaries(r: string, b: int)
      requires Settled() && r in db.rules && Wakes(db.rules[r]) && b in Boundaries(decode, db.rules[r].conditions.value)
      requires forall t | t in CronTexts(decode, db.rules[r].conditions) :: scheduler.accepts(t)
      ensures OneJobAt(scheduler.LiveJobs(), r, b)
    {
      OneJobPerBoundary(scheduler.accepts, decode, db.schedules, db.rules, r, b);
    }

    /** One cron text: its row is found or created, and its job installed. */
    method InstallSchedule(ruleId: string, text: string, enabled: bool) returns (ghost id: string)
      requires Scheduled()
      modifies scheduler, db`schedules, db`nextSchedule
      ensures Scheduled()
      ensures IsRowFor(old(db.schedules), ruleId, text, id)
      ensures db.schedules == old(db.schedules)[id := Schedule(ruleId, text, enabled)]
    {
      ghost var rows := db.schedules;
      var existing := db.FindSchedule(ruleId, text);
      var row := Schedule(ruleId, text, enabled);
      var scheduleId;
      if existing.None? {
        scheduleId := db.CreateSchedule(ruleId, text, enabled);
      } else {
        scheduleId := existing.value;
        db.schedules := db.schedules[scheduleId := row];
      }
      var _ := scheduler.AddOrUpdateSchedule(scheduleId, row);
      id := scheduleId;
      UpdatedIsWanted(scheduler.accepts, rows, id, row);
      InstalledStaysUnique(rows, ruleId, text, enabled, id);
    }

    /** A schedule row for every extracted time condition. */
    method CreateSchedulesFromTimeConditions(ruleId: string, conditions: Option<Condition>, enabled: bool)
      requires Scheduled()
      modifies scheduler, db`schedules, db`nextSchedule
      ensures Scheduled()
      ensures RowsRefreshed(old(db.schedules), db.schedules, ruleId, CronTexts(decode, conditions), enabled)
    {
      var found := [];
      if conditions.Some? {
        found := ExtractTimeConditions(decode, conditions.value, []);
      }
      for i := 0 to |found|
        invariant Scheduled()
        invariant RowsRefreshed(old(db.schedules), db.schedules, ruleId, TextsOf(found[..i]), enabled)
      {
        ghost var rows := db.schedules;
        ghost var id := InstallSchedule(ruleId, CronText(found[i]), enabled);
        RefreshOneMore(old(db.schedules), rows, ruleId, TextsOf(found[..i]), enabled, CronText(found[i]), id);
        OneMoreText(found, i);
      }
      assert found[..|found|] == found;
    }

    /** Installing all of the rule's rows again. */
    method InstallRows(ruleId: string)
      requires Scheduled()
      modifies scheduler
      ensures Scheduled()
    {
      var ids := Enumerate(set s | s in db.schedules && db.schedules[s].ruleId == ruleId);
      for i := 0 to |ids|
        invariant Scheduled()
      {
        assert ids[i] in ids;
        var row := db.schedules[ids[i]];
        UpdatedIsWanted(scheduler.accepts, db.schedules, ids[i], row);
        assert db.schedules[ids[i] := row] == db.schedules;
        var _ := scheduler.AddOrUpdateSchedule(ids[i], row);
      }
    }

    /** Creating what the rule's time conditions ask for, then installing all of the rule's rows. */
    method RefreshSchedulesForRule(ruleId: string)
      requires Scheduled() && ruleId in db.rules
      modifies scheduler, db`schedules, db`nextSchedule
      ensures Scheduled()
      ensures RowsRefreshed(old(db.schedules), db.schedules, ruleId,
                            CronTexts(decode, db.rules[ruleId].conditions), db.rules[ruleId].enabled)
    {
      var rule := db.rules[ruleId];
      CreateSchedulesFromTimeConditions(ruleId, rule.conditions, rule.enabled);
      InstallRows(ruleId);
    }

    /** Every row of the rule that the database reads in the text. */
    method RemoveSchedulesForRule(ruleText: string)
      requires Scheduled()
      modifies scheduler, db`schedules
      ensures Scheduled()
      ensures db.schedules == RowsLeft(old(db.schedules), db.readId(ruleText))
    {
      var row := db.readId(ruleText);
      if row.Some? {
        RemoveRows(row.value);
      }
    }

    method RemoveRows(ruleId: string)
      requires Scheduled()
      modifies scheduler, db`schedules
      ensures Scheduled()
      ensures db.schedules == RowsWithout(old(db.schedules), ruleId)
    {
      var ids := Enumerate(set s | s in db.schedules && db.schedules[s].ruleId == ruleId);
      for i := 0 to |ids|
        invariant Scheduled()
        invariant db.schedules == old(db.schedules) - (set s | s in ids[..i])
      {
        assert ids[..i + 1] == ids[..i] + [ids[i]];
        RemoveRow(ids[i]);
      }
      assert ids[..|ids|] == ids;
    }

    /** One row and its job. */
    method RemoveRow(id: string)
      requires Scheduled()
      modifies scheduler, db`schedules
      ensures Scheduled()
      ensures db.schedules == old(db.schedules) - {id}
    {
      scheduler.RemoveSchedule(id);
      UpdatedIsWanted(scheduler.accepts, db.schedules, id, Schedule("", "", false));
      db.schedules := db.schedules - {id};
    }

    method RefreshRuleAssociations(ruleId: string) returns (ok: bool)
      requires Scheduled()
      modifies redis, scheduler, db`schedules, db`nextSchedule
      ensures Scheduled()
      ensures ok <==> ruleId in db.rules && Refreshable(db.rules[ruleId])
      ensures ruleId !in db.rules ==> redis.db == old(redis.db)
      ensures ruleId in db.rules ==> Refreshed(old(redis.db), redis.db, db.rules, ruleId)
      ensures if ok && db.rules[ruleId].enabled
              then RowsRefreshed(old(db.schedules), db.schedules, ruleId,
                  CronTexts(decode, db.rules[ruleId].conditions), true)
              else db.schedules == old(db.schedules)
    {
      ok := RefreshAssociations(redis, db.rules, ruleId);
      if ok && db.rules[ruleId].enabled {
        RefreshSchedulesForRule(ruleId);
      }
    }

    /** The index holds IDs as texts, the tables as numbers. */
    method RemoveRuleAssociations(ruleText: string)
      requires Scheduled()
      modifies redis, scheduler, db`schedules
      ensures Scheduled()
      ensures Dropped(old(redis.db), redis.db, ruleText)
      ensures db.schedules == RowsLeft(old(db.schedules), db.readId(ruleText))
    {
      DropRule(redis, ruleText);
      RemoveSchedulesForRule(ruleText);
    }

    // ---- Rule changes ----

    /** What follows a changed row: its associations, then an evaluation if the rule is enabled. */
    method RefreshAndTrigger(id: string)
      requires Scheduled() && id in db.rules && Clean(redis.db) && AgreesExcept(redis.db, db.rules, id)
      modifies this`queue, redis, scheduler, db`schedules, db`nextSchedule
      ensures Scheduled() && Clean(redis.db) && Agrees(redis.db, db.rules)
      ensures RowsFollow(decode, old(db.schedules), db.schedules, id, db.rules[id])
      ensures Refreshed(old(redis.db), redis.db, db.rules, id)
      ensures queue == old(queue) + if db.rules[id].enabled && Refreshable(db.rules[id]) then [id] else []
    {
      var ok := RefreshRuleAssociations(id);
      RefreshRestoresAgreement(old(redis.db), redis.db, db.rules, id);
      if ok && db.rules[id].enabled {
        queue := queue + [id];
      }
    }

    /** POST: insert, refresh, and enqueue an evaluation if the new rule is enabled. */
    method CreateRule(rule: Rule) returns (id: string)
      requires Settled()
      modifies this`queue, redis, scheduler, db
      ensures Settled()
      ensures id !in old(db.rules) && db.rules == old(db.rules)[id := rule] && db.devices == old(db.devices)
      ensures RowsFollow(decode, old(db.schedules), db.schedules, id, rule)
      ensures Refreshed(old(redis.db), redis.db, db.rules, id)
      ensures queue == old(queue) + if rule.enabled && Refreshable(rule) then [id] else []
    {
      id := db.CreateRule(rule);
      NewRowAgreesElsewhere(redis.db, old(db.rules), id, rule);
      RefreshAndTrigger(id);
      FollowKeepsPlaced(decode, old(db.schedules), db.schedules, old(db.rules), id, rule);
    }

    /** PATCH: only the owner's rule is found, by the number in the text; the given fields are
        replaced. */
    method PatchRule(ruleText: string, user: string, patch: Patch) returns (found: Option<string>)
      requires Settled()
      modifies this`queue, redis, scheduler, db
      ensures Settled() && db.devices == old(db.devices)
      ensures found == OwnRow(db.readId(ruleText), old(db.rules), user)
      ensures var row := db.readId(ruleText);
              if row.Some? && row.value in old(db.rules) && old(db.rules)[row.value].owner == user then found == row
              else found == None
      ensures found.None? ==> db.rules == old(db.rules) && db.schedules == old(db.schedules)
                              && redis.db == old(redis.db) && queue == old(queue)
      ensures found.Some? ==>
                var id, rule := found.value, Patched(old(db.rules)[found.value], patch);
                && db.rules == old(db.rules)[id := rule]
                && RowsFollow(decode, old(db.schedules), db.schedules, id, rule)
                && Refreshed(old(redis.db), redis.db, db.rules, id)
                && queue == old(queue) + if rule.enabled && Refreshable(rule) then [id] else []
      ensures found.Some? ==>
                var before, after := old(db.rules)[found.value], db.rules[found.value];
                && (if patch.name.Some? then after.name == patch.name.value else after.name == before.name)
                && (if patch.conditions.Some? then after.conditions == patch.conditions.value
                    else after.conditions == before.conditions)
                && (if patch.actions.Some? then after.actions == patch.actions.value
                    else after.actions == before.actions)
                && (if patch.enabled.Some? then after.enabled == patch.enabled.value
                    else after.enabled == before.enabled)
                && after.owner == before.owner
      ensures found.Some? && patch.enabled == Some(false) ==>
                (forall d :: found.value !in Index(redis.db, d)) && queue == old(queue)
      ensures found.Some? && db.rules[found.value].enabled && db.rules[found.value].conditions.Some? ==>
                forall d :: found.value in Index(redis.db, d) <==> d in Devices(db.rules[found.value].conditions.value)
    {
      found := OwnRow(db.readId(ruleText), db.rules, user);
      if found.None? {
        return;
      }
      var id := found.value;
      var rule := Patched(db.rules[id], patch);
      PatchedRowKeepsIds(db.rules, db.nextRule, id, rule);
      db.rules := db.rules[id := rule];
      NewRowAgreesElsewhere(redis.db, old(db.rules), id, rule);
      RefreshAndTrigger(id);
      FollowKeepsPlaced(decode, old(db.schedules), db.schedules, old(db.rules), id, rule);
      AgreedIndex(redis.db, db.rules, id);
    }

    /** DELETE: the associations go first, the row only if the user owns it. The index forgets the
        text as it was given, the tables what the database reads in it, so each half still agrees
        exactly under a condition of its own. */
    method DeleteRule(ruleText: string, user: string)
      requires Settled()
      modifies redis, scheduler, db
      ensures Scheduled() && Clean(redis.db) && db.devices == old(db.devices)
      ensures Dropped(old(redis.db), redis.db, ruleText)
      ensures db.schedules == RowsLeft(old(db.schedules), db.readId(ruleText))
      ensures var row := db.readId(ruleText);
              if row.Some? && row.value in old(db.rules) && old(db.rules)[row.value].owner == user
              then db.rules == old(db.rules) - {row.value} else db.rules == old(db.rules)
      ensures Agrees(redis.db, db.rules) <==> IndexSurvives(db.readId(ruleText), old(db.rules), ruleText, user)
      ensures Placed(decode, db.schedules, db.rules) <==> RowsSurvive(decode, db.readId(ruleText), old(db.rules), user)
    {
      var row := db.readId(ruleText);
      RemoveRuleAssociations(ruleText);
      CleanStaysClean(old(redis.db), redis.db);
      var own := OwnRow(row, db.rules, user);
      if own.Some? {
        db.rules := db.rules - {own.value};
      }
      IndexSurvivesIff(old(redis.db), redis.db, old(db.rules), row, ruleText, user);
      if row.Some? && row.value in old(db.rules) {
        RemovalKeepsPlacedIff(decode, old(db.schedules), old(db.rules), row.value, own.None?);
      } else if row.Some? {
        assert RowsWithout(old(db.schedules), row.value) == old(db.schedules);
      }
    }

    /** Start-up: load the schedules and rebuild the index, whatever Redis held before. */
    method Start()
      requires db.Valid() && UniquePairs(db.schedules) && scheduler.Consistent() && scheduler.LiveJobs() == map[]
      modifies redis, scheduler
      ensures Scheduled() && Clean(redis.db) && Agrees(redis.db, db.rules)
      ensures redis.db.now == old(redis.db).now
      ensures forall k | !IsRulesKey(k) :: SameAt(old(redis.db), redis.db, k)
    {
      ghost var _ := scheduler.LoadSchedules(db.schedules);
      PopulateAssociations(redis, db.rules);
    }
  }

  /** The row of the rule, if there is one and the user owns it. */
  function OwnRow(row: Option<string>, rules: Rules, user: string): Option<string> {
    if row.Some? && row.value in rules && rules[row.value].owner == user then row else None
  }

  /** When the index still agrees after a delete: no rule is meant, or none that is indexed, or both
      the row and the index entry go, or both stay. */
  ghost predicate IndexSurvives(row: Option<string>, rules: Rules, ruleText: string, user: string) {
    row.Some? && row.value in rules ==>
      (forall d :: !Wants(rules[row.value], d)) || (rules[row.value].owner == user <==> ruleText == row.value)
  }

  /** When every rule still has its rows: the rule is gone, does not wake, or has no boundary. */
  ghost predicate RowsSurvive(decode: Decoder, row: Option<string>, rules: Rules, user: string) {
    row.Some? && row.value in rules ==>
      var rule := rules[row.value];
      rule.owner == user || !Wakes(rule) || CronTexts(decode, rule.conditions) == {}
  }

  lemma {:induction false} IndexSurvivesIff(before: Db, after: Db, rules: Rules, row: Option<string>,
                                            ruleText: string, user: string)
    requires Agrees(before, rules) && Dropped(before, after, ruleText) && (ruleText in rules ==> row == Some(ruleText))
    ensures var own := OwnRow(row, rules, user);
            Agrees(after, if own.Some? then rules - {own.value} else rules) <==>
            IndexSurvives(row, rules, ruleText, user)
  {
    var own := OwnRow(row, rules, user);
    var rules' := if own.Some? then rules - {own.value} else rules;
    forall r | r != ruleText && Some(r) != own ensures AgreesOn(after, rules', r) {
      assert AgreesOn(before, rules, r);
    }
    if IndexSurvives(row, rules, ruleText, user) {
      forall r ensures AgreesOn(after, rules', r) {
        assert AgreesOn(before, rules, r);
      }
    } else {
      assert !AgreesOn(after, rules', row.value) by {
        assert AgreesOn(before, rules, row.value);
      }
    }
  }

  lemma {:induction false} NewRowAgreesElsewhere(db: Db, rules: Rules, id: string, rule: Rule)
    requires Agrees(db, rules)
    ensures AgreesExcept(db, rules[id := rule], id)
  {
    var rows := rules[id := rule];
    forall r | r != id ensures AgreesOn(db, rows, r) {
      assert AgreesOn(db, rules, r);
    }
  }

  /** An index that agrees lists a rule under the devices of its tree if it is enabled, else nowhere. */
  lemma {:induction false} AgreedIndex(db: Db, rules: Rules, id: string)
    requires Agrees(db, rules) && id in rules
    ensures !rules[id].enabled ==> forall d :: id !in Index(db, d)
    ensures rules[id].enabled && rules[id].conditions.Some? ==>
              forall d :: id in Index(db, d) <==> d in Devices(rules[id].conditions.value)
  {
    assert AgreesOn(db, rules, id);
  }

  lemma {:induction false} PatchedRowKeepsIds(rules: Rules, next: nat, id: string, rule: Rule)
    requires IdsBelow(rules, next) && id in rules
    ensures IdsBelow(rules[id := rule], next)
  {
  }
}
