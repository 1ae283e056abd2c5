/** The reverse index from devices to rules, its maintenance, and the device updates it serves. */
module DeviceIndex {
  import opened Text
  import opened Json
  import opened Redis
  import opened Conditions
  import opened Evaluator
  import opened Store

  const STATE_TTL := 3_600_000

  function RulesKey(device: string): string { "device:" + device + ":rules" }

  /** The pattern device:*:rules. */
  predicate IsRulesKey(key: string) {
    |key| >= 13 && HasPrefix(key, "device:") && HasSuffix(key, ":rules")
  }

  function DeviceOfKey(key: string): string
    requires IsRulesKey(key)
  {
    key[7..|key| - 6]
  }

  lemma {:induction false} RulesKeyRoundTrip(device: string)
    ensures IsRulesKey(RulesKey(device)) && DeviceOfKey(RulesKey(device)) == device
  {
    var k := RulesKey(device);
    assert k[..7] == "device:" && k[|k| - 6..] == ":rules";
  }

  /** The state key of a device is the rules key of another exactly when its ID ends in ":rules". */
  lemma {:induction false} StateKeyAsRulesKey(device: string)
    ensures IsRulesKey(StateKey(device)) <==> HasSuffix(device, ":rules")
    ensures HasSuffix(device, ":rules") ==> RulesKey(device[..|device| - 6]) == StateKey(device)
    ensures RulesKey(device) != StateKey(device)
  {
    var k := StateKey(device);
    assert k[..7] == "device:";
    if |device| >= 6 {
      assert k[|k| - 6..] == device[|device| - 6..];
      assert device == device[..|device| - 6] + device[|device| - 6..];
    }
    assert |RulesKey(device)| != |k|;
  }

  function Index(db: Db, device: string): set<string> { db.SetAt(RulesKey(device)) }

  /** The index owes a rule to a device: the rule is enabled, decodes, and names the device. */
  predicate Wants(rule: Rule, device: string) {
    rule.enabled && rule.conditions.Some? && device in Devices(rule.conditions.value)
  }

  /** The index says about one rule what a full rebuild would say. */
  ghost predicate AgreesOn(db: Db, rules: Rules, r: string) {
    forall d :: r in Index(db, d) <==> r in rules && Wants(rules[r], d)
  }

  ghost predicate Agrees(db: Db, rules: Rules) {
    forall r :: AgreesOn(db, rules, r)
  }

  ghost predicate AgreesExcept(db: Db, rules: Rules, r: string) {
    forall r' | r' != r :: AgreesOn(db, rules, r')
  }

  /** Nothing under a key, or a set that does not expire. */
  predicate Lasting(db: Db, key: string) {
    db.Get(key).Some? ==> db.Get(key).value.data.Members? && db.Get(key).value.expiry.None?
  }

  /** Nothing but lasting sets under the index's keys. */
  ghost predicate Clean(db: Db) {
    forall k | IsRulesKey(k) :: Lasting(db, k)
  }

  predicate TakesMembers(db: Db, key: string) {
    db.Get(key).Some? ==> db.Get(key).value.data.Members?
  }

  /** A change of the index only: other keys, and strings under the index's keys, stay. */
  ghost predicate OnlyIndexMoves(db: Db, db': Db) {
    && db'.now == db.now
    && (forall k | !IsRulesKey(k) || !TakesMembers(db, k) :: SameAt(db, db', k))
    && (forall k | IsRulesKey(k) && TakesMembers(db, k) :: TakesMembers(db', k) && (Lasting(db, k) ==> Lasting(db', k)))
  }

  lemma {:induction false} MovesCompose(a: Db, b: Db, c: Db)
    requires OnlyIndexMoves(a, b) && OnlyIndexMoves(b, c)
    ensures OnlyIndexMoves(a, c)
  {
    forall k | !IsRulesKey(k) || !TakesMembers(a, k) ensures SameAt(a, c, k) {
      assert SameAt(a, b, k);
      assert SameAt(b, c, k);
    }
  }

  // ---- Maintenance ----

  /** The recursive walk, its map turned into a slice in any order. */
  method ExtractDeviceIds(conds: seq<Condition>) returns (ids: seq<string>)
    ensures Lists(ids, DevicesOf(conds))
    decreases conds
  {
    var found: set<string> := {};
    for i := 0 to |conds|
      invariant forall id :: id in DevicesOf(conds) <==> id in found || id in DevicesOf(conds[i..])
    {
      var c := conds[i];
      ghost var before := found;
      assert conds[i..][0] == c && conds[i..][1..] == conds[i + 1..];
      assert DevicesOf(conds[i..]) == Devices(c) + DevicesOf(conds[i + 1..]);
      if c.deviceId != "" {
        found := found + {c.deviceId};
      }
      if |c.children| > 0 {
        var below := ExtractDeviceIds(c.children);
        found := found + (set id | id in below);
      }
      assert found == before + Devices(c);
    }
    ids := Enumerate(found);
  }

  method ExtractDeviceIdsFromTree(cond: Condition) returns (ids: seq<string>)
    ensures Lists(ids, Devices(cond))
  {
    var found: set<string> := {};
    if cond.deviceId != "" {
      found := found + {cond.deviceId};
    }
    if |cond.children| > 0 {
      var below := ExtractDeviceIds(cond.children);
      found := found + (set id | id in below);
    }
    ids := Enumerate(found);
  }

  /** KEYS device:*:rules. */
  method RulesKeys(redis: Client) returns (keys: seq<string>)
    ensures Lists(keys, set k | k in redis.db.entries && IsRulesKey(k) && redis.db.Get(k).Some?)
  {
    keys := Enumerate(set k | k in redis.db.entries && IsRulesKey(k) && redis.db.Get(k).Some?);
  }

  /** The rule has been removed at the visited keys, and nothing else has moved. */
  ghost predicate DroppedAt(db: Db, db': Db, visited: seq<string>, ruleId: string) {
    && OnlyIndexMoves(db, db')
    && (forall k | k in visited :: db'.SetAt(k) == db.SetAt(k) - {ruleId})
    && (forall k | k !in visited :: SameAt(db, db', k))
  }

  lemma {:induction false} DropOneMore(db: Db, db': Db, visited: seq<string>, key: string, ruleId: string)
    requires DroppedAt(db, db', visited, ruleId) && key !in visited && IsRulesKey(key)
    ensures DroppedAt(db, db'.RemoveMember(key, ruleId), visited + [key], ruleId)
  {
    var after := db'.RemoveMember(key, ruleId);
    assert OnlyIndexMoves(db', after);
    MovesCompose(db, db', after);
    assert SameAt(db, db', key);
    forall k | k != key ensures SameAt(db', after, k) {
    }
  }

  /** A rule has left the index altogether, and nothing else has moved. */
  ghost predicate Dropped(db: Db, db': Db, ruleId: string) {
    OnlyIndexMoves(db, db') && forall d :: Index(db', d) == Index(db, d) - {ruleId}
  }

  /** SREM of a rule on every key of the index. */
  method DropRule(redis: Client, ruleId: string)
    modifies redis
    ensures Dropped(old(redis.db), redis.db, ruleId)
  {
    var keys := RulesKeys(redis);
    for i := 0 to |keys|
      invariant DroppedAt(old(redis.db), redis.db, keys[..i], ruleId)
    {
      assert keys[i] in keys && keys[..i + 1] == keys[..i] + [keys[i]];
      DropOneMore(old(redis.db), redis.db, keys[..i], keys[i], ruleId);
      redis.db := redis.db.RemoveMember(keys[i], ruleId);
    }
    assert keys[..|keys|] == keys;
    forall d ensures Index(redis.db, d) == Index(old(redis.db), d) - {ruleId} {
      RulesKeyRoundTrip(d);
    }
  }

  /** The rule has been added for the visited devices whose key takes members. */
  ghost predicate AddedFor(db: Db, db': Db, visited: seq<string>, ruleId: string) {
    && OnlyIndexMoves(db, db')
    && forall d ::
         Index(db', d) == Index(db, d) + if d in visited && TakesMembers(db, RulesKey(d)) then {ruleId} else {}
  }

  lemma {:induction false} AddOneMore(db: Db, db': Db, visited: seq<string>, device: string, ruleId: string)
    requires AddedFor(db, db', visited, ruleId)
    ensures AddedFor(db, db'.AddMember(RulesKey(device), ruleId), visited + [device], ruleId)
  {
    var after := db'.AddMember(RulesKey(device), ruleId);
    RulesKeyRoundTrip(device);
    assert OnlyIndexMoves(db', after);
    MovesCompose(db, db', after);
    forall d | d != device ensures Index(after, d) == Index(db', d) {
      RulesKeyRoundTrip(d);
    }
    assert TakesMembers(db', RulesKey(device)) <==> TakesMembers(db, RulesKey(device));
  }

  /** SADD of a rule on the keys of its devices; a key holding a string refuses. */
  method AddRule(redis: Client, ruleId: string, devices: seq<string>)
    modifies redis
    ensures AddedFor(old(redis.db), redis.db, devices, ruleId)
  {
    for i := 0 to |devices|
      invariant AddedFor(old(redis.db), redis.db, devices[..i], ruleId)
    {
      assert devices[..i + 1] == devices[..i] + [devices[i]];
      AddOneMore(old(redis.db), redis.db, devices[..i], devices[i], ruleId);
      redis.db := redis.db.AddMember(RulesKey(devices[i]), ruleId);
    }
    assert devices[..|devices|] == devices;
  }

  /** What refreshing one rule does to the index. */
  ghost predicate Refreshed(db: Db, db': Db, rules: Rules, r: string) {
    && OnlyIndexMoves(db, db')
    && (forall d, r' | r' != r :: r' in Index(db', d) <==> r' in Index(db, d))
    && (forall d :: r in Index(db', d) <==> r in rules && Wants(rules[r], d) && TakesMembers(db, RulesKey(d)))
  }

  /** Refreshing a rule's associations; false when the rule is missing or does not decode. */
  method RefreshAssociations(redis: Client, rules: Rules, ruleId: string) returns (ok: bool)
    modifies redis
    ensures ruleId !in rules ==> redis.db == old(redis.db)
    ensures ruleId in rules ==> Refreshed(old(redis.db), redis.db, rules, ruleId)
    ensures ok <==> ruleId in rules && (rules[ruleId].enabled ==> rules[ruleId].conditions.Some?)
  {
    if ruleId !in rules {
      return false;
    }
    var rule := rules[ruleId];
    DropRule(redis, ruleId);
    if rule.enabled {
      if rule.conditions.None? {
        return false;
      }
      var devices := ExtractDeviceIdsFromTree(rule.conditions.value);
      label Dropped:
      AddRule(redis, ruleId, devices);
      forall d ensures TakesMembers(old@Dropped(redis.db), RulesKey(d)) == TakesMembers(old(redis.db), RulesKey(d)) {
        RulesKeyRoundTrip(d);
      }
    }
    return true;
  }

  /** If the index agrees with a rebuild for every rule but one, refreshing that one makes it agree
      for all: enabled or not, decodable or not. */
  lemma {:induction false} RefreshRestoresAgreement(db: Db, db': Db, rules: Rules, r: string)
    requires Clean(db) && AgreesExcept(db, rules, r) && r in rules && Refreshed(db, db', rules, r)
    ensures Agrees(db', rules) && Clean(db')
  {
    forall d ensures TakesMembers(db, RulesKey(d)) {
      RulesKeyRoundTrip(d);
      assert Lasting(db, RulesKey(d));
    }
    forall r' ensures AgreesOn(db', rules, r') {
      if r' != r {
        assert AgreesOn(db, rules, r');
      }
    }
    forall k | IsRulesKey(k) ensures Lasting(db', k) {
      assert Lasting(db, k) && TakesMembers(db, k);
    }
  }

  /** Rebuilding the index from the rules table. */
  method PopulateAssociations(redis: Client, rules: Rules)
    modifies redis
    ensures Agrees(redis.db, rules) && Clean(redis.db)
    ensures redis.db.now == old(redis.db).now
    ensures forall k | !IsRulesKey(k) :: SameAt(old(redis.db), redis.db, k)
  {
    var keys := RulesKeys(redis);
    for i := 0 to |keys|
      invariant redis.db.now == old(redis.db).now
      invariant forall k | k in keys[..i] :: redis.db.Get(k).None?
      invariant forall k | k !in keys[..i] :: SameAt(old(redis.db), redis.db, k)
    {
      assert keys[..i + 1] == keys[..i] + [keys[i]];
      redis.db := redis.db.Delete(keys[i]);
    }
    assert keys[..|keys|] == keys;
    assert Clean(redis.db);
    forall d ensures Index(redis.db, d) == {} {
      RulesKeyRoundTrip(d);
    }
    var order := Enumerate(rules.Keys);
    for i := 0 to |order|
      invariant Clean(redis.db) && redis.db.now == old(redis.db).now
      invariant forall k | !IsRulesKey(k) :: SameAt(old(redis.db), redis.db, k)
      invariant forall r, d :: r in Index(redis.db, d) <==> r in order[..i] && Wants(rules[r], d)
    {
      var ruleId := order[i];
      var rule := rules[ruleId];
      assert order[..i + 1] == order[..i] + [ruleId];
      if !rule.enabled || rule.conditions.None? {
        continue;
      }
      var devices := ExtractDeviceIdsFromTree(rule.conditions.value);
      ghost var before := redis.db;
      AddRule(redis, ruleId, devices);
      forall d ensures TakesMembers(before, RulesKey(d)) {
        RulesKeyRoundTrip(d);
        assert Lasting(before, RulesKey(d));
      }
      CleanStaysClean(before, redis.db);
    }
    assert order[..|order|] == order;
  }

  lemma {:induction false} CleanStaysClean(db: Db, db': Db)
    requires Clean(db) && OnlyIndexMoves(db, db')
    ensures Clean(db')
  {
    forall k | IsRulesKey(k) ensures Lasting(db', k) {
      assert Lasting(db, k) && TakesMembers(db, k);
    }
  }

  // ---- Device updates ----

  /** The database after an accepted report: the state is stored for an hour. */
  function Reported(db: Db, device: string, fields: map<string, Value>): Db {
    db.Put(StateKey(device), State(fields), STATE_TTL)
  }

  /** Handling a device report: unknown devices are recorded as not accepted, devices not accepted
      are ignored, and the rules to evaluate are read from the index. */
  method ProcessDeviceUpdate(redis: Client, db: Database, device: string, fields: map<string, Value>)
    returns (ruleIds: seq<string>)
    modifies redis, db`devices
    ensures device !in old(db.devices) ==>
      db.devices == old(db.devices)[device := false] && redis.db == old(redis.db) && ruleIds == []
    ensures device in old(db.devices) ==> db.devices == old(db.devices)
    ensures device in old(db.devices) && !old(db.devices)[device] ==> redis.db == old(redis.db) && ruleIds == []
    ensures device in old(db.devices) && old(db.devices)[device] ==>
      redis.db == Reported(old(redis.db), device, fields) && Lists(ruleIds, Index(redis.db, device))
    ensures device in old(db.devices) && old(db.devices)[device] ==> StateOf(redis.db, device) == fields
  {
    if device !in db.devices {
      db.devices := db.devices[device := false];
      return [];
    }
    if !db.devices[device] {
      return [];
    }
    redis.db := redis.db.Put(StateKey(device), State(fields), STATE_TTL);
    ruleIds := Enumerate(redis.db.SetAt(RulesKey(device)));
  }

  /** The evaluation jobs, appended to the queue one by one. */
  method ProcessDeviceUpdateJob(redis: Client, db: Database, device: string, fields: map<string, Value>,
                                queue: seq<string>)
    returns (queue': seq<string>)
    modifies redis, db`devices
    ensures device in old(db.devices) && old(db.devices)[device] ==>
      && redis.db == Reported(old(redis.db), device, fields)
      && |queue| <= |queue'| && queue'[..|queue|] == queue && Lists(queue'[|queue|..], Index(redis.db, device))
    ensures !(device in old(db.devices) && old(db.devices)[device]) ==> redis.db == old(redis.db) && queue' == queue
    ensures db.devices == if device in old(db.devices) then old(db.devices) else old(db.devices)[device := false]
  {
    var ruleIds := ProcessDeviceUpdate(redis, db, device, fields);
    queue' := queue;
    for i := 0 to |ruleIds|
      invariant queue' == queue + ruleIds[..i]
    {
      queue' := queue' + [ruleIds[i]];
    }
    assert queue'[|queue|..] == ruleIds;
  }

  lemma {:induction false} ReportTouchesOneKey(db: Db, device: string, fields: map<string, Value>)
    ensures forall k | k != StateKey(device) :: SameAt(db, Reported(db, device, fields), k)
    ensures forall d | d != device :: StateOf(Reported(db, device, fields), d) == StateOf(db, d)
    ensures Index(Reported(db, device, fields), device) == Index(db, device)
  {
    forall d | d != device ensures StateKey(d) != StateKey(device) {
      assert StateKey(d)[7..] == d && StateKey(device)[7..] == device;
    }
    StateKeyAsRulesKey(device);
  }

  /** No rule is missed: when a report changes the truth of an enabled rule's tree, whatever the
      clock says, the rule is among those the index returns for evaluation. */
  lemma {:induction false} NoMissedRule(decode: Decoder, clock: (string, seq<Byte>) -> bool, db: Db, rules: Rules,
                     device: string, fields: map<string, Value>, r: string)
    requires Agrees(db, rules) && device != ""
    requires r in rules && rules[r].enabled && rules[r].conditions.Some?
    requires var db' := Reported(db, device, fields);
             Truth(World(decode, d => StateOf(db, d), clock), rules[r].conditions.value) !=
             Truth(World(decode, d => StateOf(db', d), clock), rules[r].conditions.value)
    ensures r in Index(Reported(db, device, fields), device)
  {
    var db' := Reported(db, device, fields);
    var w, v := World(decode, d => StateOf(db, d), clock), World(decode, d => StateOf(db', d), clock);
    var cond := rules[r].conditions.value;
    ReportTouchesOneKey(db, device, fields);
    if device !in Devices(cond) {
      UnnamedDeviceIsIrrelevant(w, v, cond, device);
      TruthFromLeaves(w, v, cond);
    }
    assert AgreesOn(db, rules, r);
  }

  /** The same for evaluation as it happens, through the cache: a rule that the report triggers, or
      stops triggering, is among those the index returns. */
  lemma {:induction false} NoMissedTrigger(decode: Decoder, db: Db, rules: Rules, device: string,
                                           fields: map<string, Value>, r: string)
    requires Agrees(db, rules) && device != "" && r in rules
    requires Triggers(decode, db, rules[r]) != Triggers(decode, Reported(db, device, fields), rules[r])
    ensures r in Index(Reported(db, device, fields), device)
  {
    var db' := Reported(db, device, fields);
    ReportTouchesOneKey(db, device, fields);
    var cond := rules[r].conditions.value;
    forall op, value ensures ClockNow(decode, db', op, value) == ClockNow(decode, db, op, value) {
      StateKeyIsNoCacheKey(device, op, value);
      assert SameAt(db, db', CacheKey(op, value));
    }
    if device !in Devices(cond) {
      UnnamedDeviceIsIrrelevant(WorldNow(decode, db), WorldNow(decode, db'), cond, device);
      TruthFromLeaves(WorldNow(decode, db), WorldNow(decode, db'), cond);
    }
    assert AgreesOn(db, rules, r);
  }

  /** Whatever the rules and states, a report of the device misses no rule it triggers or stops. */
  ghost predicate NeverMissed(decode: Decoder, device: string) {
    forall db, rules: Rules, fields, r |
      && Agrees(db, rules) && r in rules
      && Triggers(decode, db, rules[r]) != Triggers(decode, Reported(db, device, fields), rules[r]) ::
      r in Index(Reported(db, device, fields), device)
  }

  /** The empty device ID is the one exception: a leaf may read its state, but no index lists it. */
  lemma {:induction false} NeverMissedIff(decode: Decoder, device: string, yes: seq<Byte>)
    requires decode(yes) == Some(Bool(true))
    ensures NeverMissed(decode, device) <==> device != ""
  {
    if device != "" {
      forall db, rules: Rules, fields, r |
        && Agrees(db, rules) && r in rules
        && Triggers(decode, db, rules[r]) != Triggers(decode, Reported(db, device, fields), rules[r])
        ensures r in Index(Reported(db, device, fields), device)
      {
        NoMissedTrigger(decode, db, rules, device, fields, r);
      }
    } else {
      var leaf := Condition("device", "", "on", "==", yes, "", []);
      var rules := map["1" := Rule("", Some(leaf), Null, true, "")];
      var db, fields := Db(map[], 0), map["on" := Bool(true)];
      assert Devices(leaf) == {} && forall r, d :: r !in Index(db, d);
      assert forall r :: AgreesOn(db, rules, r);
      assert StateOf(db, "") == map[] && StateOf(Reported(db, "", fields), "") == fields;
      assert !Triggers(decode, db, rules["1"]) && Triggers(decode, Reported(db, "", fields), rules["1"]);
      ReportTouchesOneKey(db, "", fields);
    }
  }

  /** A report keeps the index in agreement unless the device ID ends in ":rules" and some rule is
      indexed under what precedes that ending: then, and only then, it overwrites an index set. */
  lemma {:induction false} ReportKeepsAgreementIff(db: Db, rules: Rules, device: string, fields: map<string, Value>)
    requires Agrees(db, rules)
    ensures Agrees(Reported(db, device, fields), rules) <==>
            !HasSuffix(device, ":rules") || forall r | r in rules :: !Wants(rules[r], device[..|device| - 6])
  {
    var db' := Reported(db, device, fields);
    ReportTouchesOneKey(db, device, fields);
    StateKeyAsRulesKey(device);
    var clash := HasSuffix(device, ":rules");
    forall d | !(clash && d == device[..|device| - 6]) ensures Index(db', d) == Index(db, d) {
      RulesKeyRoundTrip(d);
      assert RulesKey(d) != StateKey(device);
    }
    if clash {
      var x := device[..|device| - 6];
      assert Index(db', x) == {};
      if r :| r in rules && Wants(rules[r], x) {
        assert !AgreesOn(db', rules, r);
      }
    }
    if !clash || forall r | r in rules :: !Wants(rules[r], device[..|device| - 6]) {
      forall r ensures AgreesOn(db', rules, r) {
        assert AgreesOn(db, rules, r);
      }
    }
  }
}
