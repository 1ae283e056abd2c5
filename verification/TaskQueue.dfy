/** Rule evaluation jobs: collecting actions, resolving conflicts and publishing commands. */
module TaskQueue {
  import opened Text
  import opened Json
  import opened Redis
  import opened Conditions
  import opened Evaluator
  import opened Conflicts
  import opened Store

  // ---- Decoding a rule's actions ----

  /** The fields the collector decodes; params stays raw, None when the field is missing. */
  datatype RawAction = RawAction(deviceId: string, params: Option<Value>)

  /** A string field of a Go struct: missing and null leave it empty, other types are an error. */
  function StringField(fields: map<string, Value>, key: string): Option<string> {
    match Field(fields, key)
    case Null => Some("")
    case Str(s) => Some(s)
    case _ => None
  }

  function DecodeAction(v: Value): Option<RawAction> {
    match v
    case Null => Some(RawAction("", None))
    case Object(fields) =>
      var device := StringField(fields, "device_id");
      if device.None? || StringField(fields, "action").None? then None
      else Some(RawAction(device.value, if "params" in fields then Some(fields["params"]) else None))
    case _ => None
  }

  /** The action list; one element of the wrong shape fails it as a whole. */
  function DecodeActions(v: Value): Option<seq<RawAction>> {
    match v
    case Null => Some([])
    case Array(elems) =>
      if exists e | e in elems :: DecodeAction(e).None? then None
      else Some(seq(|elems|, i requires 0 <= i < |elems| => DecodeAction(elems[i]).value))
    case _ => None
  }

  /** The params object: null is an empty one, a missing or different value is an error. */
  function DecodeParams(raw: Option<Value>): Option<map<string, Value>> {
    match raw
    case Some(Null) => Some(map[])
    case Some(Object(fields)) => Some(fields)
    case _ => None
  }

  /** The pending action a decoded action contributes, if any. */
  function PendingOf(ruleId: string, raw: RawAction): seq<PendingAction> {
    var params := DecodeParams(raw.params);
    if raw.deviceId == "" || params.None? then [] else [PendingAction(ruleId, raw.deviceId, params.value)]
  }

  function PendingOfAll(ruleId: string, raws: seq<RawAction>): seq<PendingAction> {
    if raws == [] then [] else PendingOfAll(ruleId, raws[..|raws| - 1]) + PendingOf(ruleId, raws[|raws| - 1])
  }

  function Collected(ruleId: string, actions: Value): seq<PendingAction> {
    match DecodeActions(actions)
    case None => []
    case Some(raws) => PendingOfAll(ruleId, raws)
  }

  method CollectPendingActions(ruleId: string, actions: Value) returns (pending: seq<PendingAction>)
    ensures pending == Collected(ruleId, actions)
  {
    var decoded := DecodeActions(actions);
    if decoded.None? {
      return [];
    }
    var raws := decoded.value;
    pending := [];
    for i := 0 to |raws|
      invariant pending == PendingOfAll(ruleId, raws[..i])
    {
      assert raws[..i + 1][..i] == raws[..i];
      if raws[i].deviceId == "" {
        continue;
      }
      var params := DecodeParams(raws[i].params);
      if params.None? {
        continue;
      }
      pending := pending + [PendingAction(ruleId, raws[i].deviceId, params.value)];
    }
    assert raws[..|raws|] == raws;
  }

  lemma {:induction false} CollectedBelongToRule(ruleId: string, raws: seq<RawAction>)
    ensures forall a | a in PendingOfAll(ruleId, raws) :: a.ruleId == ruleId
  {
    if raws != [] {
      CollectedBelongToRule(ruleId, raws[..|raws| - 1]);
    }
  }

  // ---- The redundancy pre-check ----

  /** Comparing two interface values that both hold an array, or both an object, panics in Go. */
  datatype Check = Redundant | NotRedundant | Panicked

  function Truncate(x: real): int {
    if x >= 0.0 then x.Floor else -((-x).Floor)
  }

  function SignedDecimal(n: int): string {
    if n >= 0 then Decimal(n) else "-" + Decimal(-n)
  }

  predicate Incomparable(a: Value, b: Value) {
    (a.Array? && b.Array?) || (a.Object? && b.Object?)
  }

  /** The state the pre-check reads for a numeric device_id. */
  function PrecheckedState(db: Db, device: real): Option<map<string, Value>> {
    match db.Get("device:" + SignedDecimal(Truncate(device)) + ":state")
    case Some(Entry(State(fields), _)) => Some(fields)
    case _ => None
  }

  /** A device action with a numeric device_id, a non-empty state and a readable stored one: the
      pre-check gets as far as comparing fields. */
  predicate Comparable(db: Db, action: Value) {
    && action.Object? && Field(action.fields, "type") == Str("device") && Field(action.fields, "device_id").Number?
    && Field(action.fields, "state").Object? && Field(action.fields, "state").fields != map[]
    && PrecheckedState(db, Field(action.fields, "device_id").n).Some?
  }

  function Stored(db: Db, action: Value): map<string, Value>
    requires Comparable(db, action)
  {
    PrecheckedState(db, Field(action.fields, "device_id").n).value
  }

  function Wanted(db: Db, action: Value): map<string, Value>
    requires Comparable(db, action)
  {
    Field(action.fields, "state").fields
  }

  /** What comparing one wanted field comes to: already stored, a panic, or a difference. */
  predicate Same(current: map<string, Value>, target: map<string, Value>, k: string)
    requires k in target
  {
    k in current && current[k] == target[k] && !Incomparable(current[k], target[k])
  }

  predicate Clashes(current: map<string, Value>, target: map<string, Value>, k: string)
    requires k in target
  {
    k in current && Incomparable(current[k], target[k])
  }

  predicate Differs(current: map<string, Value>, target: map<string, Value>, k: string)
    requires k in target
  {
    !Same(current, target, k) && !Clashes(current, target, k)
  }

  /** An action that, by the pre-check's reading, sets nothing new. */
  predicate SetsNothingNew(db: Db, action: Value) {
    Comparable(db, action) && forall k | k in Wanted(db, action) :: Same(Stored(db, action), Wanted(db, action), k)
  }

  /** Read off Redis: overriding the fields stored under "device:", the number without its fraction and
      ":state" by the wanted ones changes nothing, and no wanted value is an array or an object. */
  lemma {:induction false} SetsNothingNewIff(db: Db, action: Value, x: real, n: int)
    requires action.Object? && "device_id" in action.fields && action.fields["device_id"] == Number(x)
    requires if x >= 0.0 then n as real <= x < n as real + 1.0 else n as real - 1.0 < x <= n as real
    ensures SetsNothingNew(db, action) <==>
            && "type" in action.fields && action.fields["type"] == Str("device")
            && "state" in action.fields && action.fields["state"].Object?
            && var wanted, stored := action.fields["state"].fields, StateOf(db, SignedDecimal(n) + ":state");
               && wanted != map[] && stored + wanted == stored
               && forall k | k in wanted :: !wanted[k].Array? && !wanted[k].Object?
  {
    TruncateIs(x, n);
    ConcatIsAssociative("device:", SignedDecimal(n), ":state");
    if "state" in action.fields && action.fields["state"].Object? {
      var wanted, stored := action.fields["state"].fields, StateOf(db, SignedDecimal(n) + ":state");
      OverrideChangesNothing(stored, wanted);
      assert PrecheckedState(db, x).None? ==> stored == map[];
      assert PrecheckedState(db, x).Some? ==> stored == PrecheckedState(db, x).value;
      if wanted != map[] {
        var k :| k in wanted;
      }
      if PrecheckedState(db, x).Some? && wanted != map[] && Field(action.fields, "type") == Str("device") {
        assert Comparable(db, action) && Stored(db, action) == stored && Wanted(db, action) == wanted;
      }
    }
  }

  lemma {:induction false} OverrideChangesNothing(stored: map<string, Value>, wanted: map<string, Value>)
    ensures stored + wanted == stored <==> forall k | k in wanted :: k in stored && stored[k] == wanted[k]
  {
    if stored + wanted == stored {
      forall k | k in wanted ensures k in stored && stored[k] == wanted[k] {
        assert k in stored + wanted && (stored + wanted)[k] == wanted[k];
      }
    }
  }

  lemma {:induction false} TruncateIs(x: real, n: int)
    requires if x >= 0.0 then n as real <= x < n as real + 1.0 else n as real - 1.0 < x <= n as real
    ensures Truncate(x) == n
  {
  }

  predicate AllRedundant(db: Db, actions: Value) {
    match actions
    case Null => true
    case Array(elems) => forall e | e in elems :: SetsNothingNew(db, e)
    case _ => false
  }

  /** The actions are objects, and the pre-check arrives at the i-th of them. */
  predicate Arrives(db: Db, actions: Value, i: nat) {
    && actions.Array? && i < |actions.elems|
    && (forall e | e in actions.elems :: e.Object? || e.Null?)
    && (forall e | e in actions.elems[..i] :: SetsNothingNew(db, e))
  }

  /** In some order of the fields, the pre-check compares two arrays, or two objects. */
  ghost predicate MayPanic(db: Db, actions: Value) {
    exists i: nat :: Arrives(db, actions, i) && ClashesAt(db, actions.elems[i])
  }

  predicate ClashesAt(db: Db, action: Value) {
    Comparable(db, action) && exists k | k in Wanted(db, action) :: Clashes(Stored(db, action), Wanted(db, action), k)
  }

  /** In some order of the fields, it finds an action that may set something new. */
  ghost predicate MayDecline(db: Db, actions: Value) {
    || !(actions.Null? || (actions.Array? && forall e | e in actions.elems :: e.Object? || e.Null?))
    || exists i: nat :: Arrives(db, actions, i) && DiffersAt(db, actions.elems[i])
  }

  predicate DiffersAt(db: Db, action: Value) {
    Comparable(db, action) ==> exists k | k in Wanted(db, action) :: Differs(Stored(db, action), Wanted(db, action), k)
  }

  /** The pre-check, with the target fields visited in any order. */
  method AreAllActionsRedundant(redis: Client, actions: Value) returns (check: Check)
    ensures check == Redundant <==> AllRedundant(redis.db, actions)
    ensures check == Panicked ==> MayPanic(redis.db, actions)
    ensures check == NotRedundant ==> MayDecline(redis.db, actions)
  {
    if actions.Null? {
      return Redundant;
    }
    if !actions.Array? || exists e | e in actions.elems :: !e.Object? && !e.Null? {
      return NotRedundant;
    }
    for i := 0 to |actions.elems|
      invariant forall e | e in actions.elems[..i] :: SetsNothingNew(redis.db, e)
    {
      var e := actions.elems[i];
      assert e in actions.elems && Arrives(redis.db, actions, i);
      var action := if e.Object? then e.fields else map[];
      if Field(action, "type") != Str("device") {
        return NotRedundant;
      }
      var device := Field(action, "device_id");
      if !device.Number? {
        return NotRedundant;
      }
      var target := Field(action, "state");
      if !target.Object? || target.fields == map[] {
        return NotRedundant;
      }
      var current := PrecheckedState(redis.db, device.n);
      if current.None? {
        return NotRedundant;
      }
      assert Stored(redis.db, e) == current.value && Wanted(redis.db, e) == target.fields;
      check := CompareFields(current.value, target.fields);
      if check != Redundant {
        return;
      }
      assert actions.elems[..i + 1] == actions.elems[..i] + [e];
    }
    assert actions.elems[..|actions.elems|] == actions.elems;
    return Redundant;
  }

  /** The loop over one action's target fields. */
  method CompareFields(current: map<string, Value>, target: map<string, Value>) returns (check: Check)
    ensures check == Redundant <==> forall k | k in target :: Same(current, target, k)
    ensures check == Panicked ==> exists k | k in target :: Clashes(current, target, k)
    ensures check == NotRedundant ==> exists k | k in target :: Differs(current, target, k)
  {
    var fields := Enumerate(target.Keys);
    for j := 0 to |fields|
      invariant forall k | k in fields[..j] :: k in target && Same(current, target, k)
    {
      var field := fields[j];
      assert field in fields && fields[..j + 1] == fields[..j] + [field];
      if field !in current {
        assert Differs(current, target, field);
        return NotRedundant;
      }
      if Incomparable(current[field], target[field]) {
        assert Clashes(current, target, field);
        return Panicked;
      }
      if current[field] != target[field] {
        assert Differs(current, target, field);
        return NotRedundant;
      }
    }
    assert fields[..|fields|] == fields;
    return Redundant;
  }

  /** A numeric device_id does not decode as a string, so a list the pre-check skips, or panics
      over, would not have contributed any pending action. */
  lemma {:induction false} RedundantCollectsNothing(db: Db, ruleId: string, actions: Value)
    requires AllRedundant(db, actions) || MayPanic(db, actions)
    ensures Collected(ruleId, actions) == []
  {
    if MayPanic(db, actions) {
      var i: nat :| Arrives(db, actions, i) && ClashesAt(db, actions.elems[i]);
      assert actions.elems[i] in actions.elems && DecodeAction(actions.elems[i]).None?;
    } else if actions.Array? && actions.elems != [] {
      var first := actions.elems[0];
      assert first in actions.elems && DecodeAction(first).None?;
    }
  }

  // ---- The global specification ----

  /** What a rule itself wants to write to a target: its first action that does. */
  function OwnWrite(rules: Rules, id: string, t: Target): Option<Value> {
    if id in rules then FirstWriteBy(Collected(id, rules[id].actions), id, t) else None
  }

  /** A rule, anywhere in the table, that competes for a target. */
  predicate Competes(decode: Decoder, db: Db, rules: Rules, id: string, t: Target) {
    id in rules && Triggers(decode, db, rules[id]) && OwnWrite(rules, id, t).Some?
  }

  /** The value the whole table gives a target: the first write of the lowest-ID rule among all
      enabled rules whose conditions hold. */
  ghost predicate GlobalValue(decode: Decoder, db: Db, rules: Rules, t: Target, v: Value) {
    exists id ::
      && Competes(decode, db, rules, id, t)
      && OwnWrite(rules, id, t) == Some(v)
      && forall other | Competes(decode, db, rules, other, t) :: !Less(other, id)
  }

  /** One message per device, in any order, for every device with at least one value. */
  datatype Message = Message(deviceId: string, params: map<string, Value>)

  ghost predicate Announces(messages: seq<Message>, commands: Commands) {
    && (forall i, j :: 0 <= i < j < |messages| ==> messages[i].deviceId != messages[j].deviceId)
    && (forall m | m in messages :: m.deviceId in commands && commands[m.deviceId] == m.params && m.params != map[])
    && (forall d | d in commands && commands[d] != map[] :: Message(d, commands[d]) in messages)
  }

  method ExecuteResolvedActions(commands: Commands) returns (messages: seq<Message>)
    ensures Announces(messages, commands)
  {
    messages := [];
    var devices := Enumerate(commands.Keys);
    for i := 0 to |devices|
      invariant forall j, k :: 0 <= j < k < |messages| ==> messages[j].deviceId != messages[k].deviceId
      invariant forall m | m in messages ::
                  m.deviceId in devices[..i] && commands[m.deviceId] == m.params && m.params != map[]
      invariant forall d | d in devices[..i] && commands[d] != map[] :: Message(d, commands[d]) in messages
    {
      var params := commands[devices[i]];
      assert devices[..i + 1] == devices[..i] + [devices[i]];
      if params != map[] {
        messages := messages + [Message(devices[i], params)];
      }
    }
    assert devices[..|devices|] == devices;
  }

  // ---- Collecting the competitors ----

  method ExtractActionTargets(actions: seq<PendingAction>) returns (targets: seq<Target>)
    ensures forall t :: t in targets <==> Written(actions, t)
  {
    var found: set<Target> := {};
    for i := 0 to |actions|
      invariant forall t :: t in found <==> Written(actions[..i], t)
    {
      var a := actions[i];
      var keys := Enumerate(a.params.Keys);
      ghost var before := found;
      for j := 0 to |keys|
        invariant forall t :: t in found <==> t in before || (t.deviceId == a.deviceId && t.key in keys[..j])
      {
        assert keys[..j + 1] == keys[..j] + [keys[j]];
        found := found + {Target(a.deviceId, keys[j])};
      }
      assert keys[..|keys|] == keys;
      assert actions[..i + 1] == actions[..i] + [a];
      assert forall t :: Written(actions[..i + 1], t) <==> Written(actions[..i], t) || Writes(a, t);
    }
    assert actions[..|actions|] == actions;
    targets := Enumerate(found);
  }

  /** An action is kept when it writes at least one target the triggering rule's own actions write. */
  predicate Overlaps(a: PendingAction, own: seq<PendingAction>) {
    exists k | k in a.params :: Written(own, Target(a.deviceId, k))
  }

  function Overlapping(actions: seq<PendingAction>, own: seq<PendingAction>): seq<PendingAction> {
    if actions == [] then []
    else Overlapping(actions[..|actions| - 1], own) +
         (if Overlaps(actions[|actions| - 1], own) then [actions[|actions| - 1]] else [])
  }

  /** Dropping the other actions loses no write to a target of the rule. */
  lemma {:induction false} OverlappingKeepsWrites(actions: seq<PendingAction>, own: seq<PendingAction>, rule: string,
                                                  t: Target)
    requires Written(own, t)
    ensures FirstWriteBy(Overlapping(actions, own), rule, t) == FirstWriteBy(actions, rule, t)
  {
    if actions != [] {
      var n := |actions| - 1;
      assert actions == actions[..n] + [actions[n]];
      assert t == Target(t.deviceId, t.key);
      OverlappingKeepsWrites(actions[..n], own, rule, t);
      FirstWriteOfSum(actions[..n], [actions[n]], rule, t);
      FirstWriteOfSum(Overlapping(actions[..n], own), if Overlaps(actions[n], own) then [actions[n]] else [], rule, t);
    }
  }

  lemma {:induction false} OverlappingIsSelection(actions: seq<PendingAction>, own: seq<PendingAction>)
    ensures forall a | a in Overlapping(actions, own) :: a in actions
  {
    if actions != [] {
      OverlappingIsSelection(actions[..|actions| - 1], own);
    }
  }

  /** The nested loops over another rule's actions and the targets. */
  method SelectOverlapping(actions: seq<PendingAction>, targets: seq<Target>, ghost own: seq<PendingAction>)
    returns (kept: seq<PendingAction>)
    requires forall t :: t in targets <==> Written(own, t)
    ensures kept == Overlapping(actions, own)
  {
    kept := [];
    for i := 0 to |actions|
      invariant kept == Overlapping(actions[..i], own)
    {
      var a := actions[i];
      assert actions[..i + 1][..i] == actions[..i] && actions[..i + 1][i] == a;
      var hit := false;
      for j := 0 to |targets|
        invariant !hit && forall t | t in targets[..j] :: !Writes(a, t)
      {
        assert targets[..j + 1] == targets[..j] + [targets[j]];
        if a.deviceId == targets[j].deviceId && targets[j].key in a.params {
          assert targets[j] in targets && Written(own, Target(a.deviceId, targets[j].key));
          hit := true;
          break;
        }
      }
      assert targets[..|targets|] == targets;
      assert !hit ==> forall k | k in a.params :: Writes(a, Target(a.deviceId, k));
      if hit {
        kept := kept + [a];
      }
    }
    assert actions[..|actions|] == actions;
  }

  /** What one rule contributes to the job of rule `id`: its own actions, or, for another rule that
      triggers, those that overlap them. */
  function Share(decode: Decoder, db: Db, rules: Rules, id: string, r: string): seq<PendingAction>
    requires id in rules
  {
    var own := Collected(id, rules[id].actions);
    if r == id then own
    else if r in rules && Triggers(decode, db, rules[r]) then Overlapping(Collected(r, rules[r].actions), own)
    else []
  }

  /** The gathered actions are every rule's share, in the rule's own order. */
  ghost predicate Gathers(decode: Decoder, db: Db, rules: Rules, id: string, all: seq<PendingAction>)
    requires id in rules
  {
    forall r :: ActionsOf(all, r) == Share(decode, db, rules, id, r)
  }

  lemma {:induction false} CollectedBelongTo(owner: string, actions: Value)
    ensures forall a | a in Collected(owner, actions) :: a.ruleId == owner
  {
    if DecodeActions(actions).Some? {
      CollectedBelongToRule(owner, DecodeActions(actions).value);
    }
  }

  lemma {:induction false} ShareBelongsToRule(decode: Decoder, db: Db, rules: Rules, id: string, r: string)
    requires id in rules
    ensures forall a | a in Share(decode, db, rules, id, r) :: a.ruleId == r
  {
    if r in rules {
      CollectedBelongTo(r, rules[r].actions);
      OverlappingIsSelection(Collected(r, rules[r].actions), Collected(id, rules[id].actions));
    }
  }

  /** The shares of the given rules have been gathered. */
  ghost predicate GathersFrom(decode: Decoder, db: Db, rules: Rules, id: string, visited: seq<string>,
                              all: seq<PendingAction>)
    requires id in rules
  {
    forall r :: ActionsOf(all, r) == if r in visited then Share(decode, db, rules, id, r) else []
  }

  lemma {:induction false} GatherOneMore(decode: Decoder, db: Db, rules: Rules, id: string, visited: seq<string>,
                                         all: seq<PendingAction>, r: string)
    requires id in rules && r !in visited && GathersFrom(decode, db, rules, id, visited, all)
    ensures GathersFrom(decode, db, rules, id, visited + [r], all + Share(decode, db, rules, id, r))
  {
    var share := Share(decode, db, rules, id, r);
    ShareBelongsToRule(decode, db, rules, id, r);
    forall x ensures ActionsOf(all + share, x) == if x in visited + [r] then Share(decode, db, rules, id, x) else [] {
      ActionsOfSum(all, share, x);
      ActionsOfOneOwner(share, r, x);
    }
  }

  /** The rules fetched for comparison, each evaluated in turn, in any order. */
  method CollectCompetitors(redis: Client, decode: Decoder, rules: Rules, trigger: string, targets: seq<Target>)
    returns (ghost visited: seq<string>, all: seq<PendingAction>, ghost trees: seq<Condition>)
    requires trigger in rules && forall t :: t in targets <==> Written(Collected(trigger, rules[trigger].actions), t)
    modifies redis
    ensures redis.db == EvalAll(decode, old(redis.db), trees)
    ensures forall r :: r in visited <==> r in rules && r != trigger
    ensures GathersFrom(decode, old(redis.db), rules, trigger, visited, all)
  {
    all, visited, trees := [], [], [];
    var order := Enumerate(rules.Keys);
    for i := 0 to |order|
      invariant redis.db == EvalAll(decode, old(redis.db), trees)
      invariant forall r :: r in visited <==> r in order[..i] && r != trigger
      invariant GathersFrom(decode, old(redis.db), rules, trigger, visited, all)
    {
      var id := order[i];
      var r := rules[id];
      assert id !in order[..i] && order[..i + 1] == order[..i] + [id];
      if id == trigger {
        continue;
      }
      GatherOneMore(decode, old(redis.db), rules, trigger, visited, all, id);
      visited := visited + [id];
      if !r.enabled {
        assert all + [] == all;
        continue;
      }
      ghost var before := redis.db;
      var met := EvaluateConditions(redis, decode, r.conditions);
      if r.conditions.Some? {
        EvalIsTruth(decode, before, r.conditions.value);
        EvalAllIsSameInstant(decode, old(redis.db), trees);
        SameInstantSameTruth(decode, old(redis.db), before, r.conditions.value);
        EvalOneMore(decode, old(redis.db), trees, r.conditions.value);
        trees := trees + [r.conditions.value];
      }
      assert met == Triggers(decode, old(redis.db), r);
      if met {
        var ruleActions := CollectPendingActions(id, r.actions);
        var kept := SelectOverlapping(ruleActions, targets, Collected(trigger, rules[trigger].actions));
        all := all + kept;
      } else {
        assert all + [] == all;
      }
    }
    assert order[..|order|] == order;
  }

  // ---- The evaluation job ----

  /** What a rule's job publishes in the world of its instant: nothing unless the rule is enabled
      and true, else the resolution of the gathered actions. */
  ghost predicate Publishes(decode: Decoder, db: Db, rules: Rules, id: string, messages: seq<Message>)
    requires id in rules
  {
    if Triggers(decode, db, rules[id])
    then exists all, resolved ::
           Gathers(decode, db, rules, id, all) && Resolves(all, resolved) && Announces(messages, resolved)
    else messages == []
  }

  datatype Outcome = Finished | Retry

  /** Evaluating one rule and executing what comes out of it. All that happens to Redis is the
      evaluation of some trees. A missing rule is retried, and so is a panic of the pre-check. */
  method EvaluateAndExecute(redis: Client, db: Database, decode: Decoder, id: string)
    returns (outcome: Outcome, messages: seq<Message>, ghost trees: seq<Condition>)
    modifies redis
    ensures redis.db == EvalAll(decode, old(redis.db), trees)
    ensures if id in db.rules then Publishes(decode, old(redis.db), db.rules, id, messages) else messages == []
    ensures id !in db.rules ==> outcome == Retry
    ensures outcome == Retry ==> id !in db.rules || MayPanic(old(redis.db), db.rules[id].actions)
  {
    outcome, messages, trees := Finished, [], [];
    if id !in db.rules {
      outcome := Retry;
      return;
    }
    var rule := db.rules[id];
    if !rule.enabled {
      return;
    }
    var check := AreAllActionsRedundant(redis, rule.actions);
    if check != NotRedundant {
      RedundantPublishesNothing(decode, redis.db, db.rules, id);
      outcome := if check == Panicked then Retry else Finished;
      return;
    }
    var met := EvaluateConditions(redis, decode, rule.conditions);
    if rule.conditions.Some? {
      EvalIsTruth(decode, old(redis.db), rule.conditions.value);
      trees := [rule.conditions.value];
      assert trees[..0] == [];
    }
    assert met == Triggers(decode, old(redis.db), rule);
    if met {
      messages, trees := ExecuteTriggered(redis, decode, db.rules, id, old(redis.db), trees);
    }
  }

  /** Collecting, resolving and publishing for a rule that has just been found true. */
  method ExecuteTriggered(redis: Client, decode: Decoder, rules: Rules, id: string, ghost world: Db,
                          ghost evaluated: seq<Condition>)
    returns (messages: seq<Message>, ghost trees: seq<Condition>)
    requires id in rules && Triggers(decode, world, rules[id]) && redis.db == EvalAll(decode, world, evaluated)
    modifies redis
    ensures redis.db == EvalAll(decode, world, trees)
    ensures Publishes(decode, world, rules, id, messages)
  {
    ghost var before := redis.db;
    var pending := CollectPendingActions(id, rules[id].actions);
    var targets := ExtractActionTargets(pending);
    ghost var visited, more;
    var others;
    visited, others, more := CollectCompetitors(redis, decode, rules, id, targets);
    EvalAllOfSum(decode, world, evaluated, more);
    trees := evaluated + more;
    var resolved := ResolveConflicts(others + pending);
    messages := ExecuteResolvedActions(resolved);
    GatherOneMore(decode, before, rules, id, visited, others, id);
    EvalAllIsSameInstant(decode, world, evaluated);
    SameWorldSameGathering(decode, world, before, rules, id, others + pending);
  }

  lemma {:induction false} SameWorldSameTriggers(decode: Decoder, db: Db, db': Db, rules: Rules)
    requires SameInstant(decode, db, db')
    ensures forall r | r in rules :: Triggers(decode, db, rules[r]) <==> Triggers(decode, db', rules[r])
  {
    forall r | r in rules && rules[r].conditions.Some?
      ensures Truth(WorldNow(decode, db), rules[r].conditions.value) ==
              Truth(WorldNow(decode, db'), rules[r].conditions.value)
    {
      SameInstantSameTruth(decode, db, db', rules[r].conditions.value);
    }
  }

  lemma {:induction false} SameWorldSameGathering(decode: Decoder, db: Db, db': Db, rules: Rules, id: string,
                                                  all: seq<PendingAction>)
    requires id in rules && SameInstant(decode, db, db')
    ensures Gathers(decode, db, rules, id, all) <==> Gathers(decode, db', rules, id, all)
  {
    SameWorldSameTriggers(decode, db, db', rules);
    assert forall r :: Share(decode, db, rules, id, r) == Share(decode, db', rules, id, r);
  }

  // ---- What the job means ----

  /** Skipping a redundant rule, or panicking over one, publishes what the whole job would have
      published: nothing. */
  lemma {:induction false} RedundantPublishesNothing(decode: Decoder, db: Db, rules: Rules, id: string)
    requires id in rules && (AllRedundant(db, rules[id].actions) || MayPanic(db, rules[id].actions))
    ensures Publishes(decode, db, rules, id, [])
  {
    RedundantCollectsNothing(db, id, rules[id].actions);
    forall r ensures Share(decode, db, rules, id, r) == [] {
      if r in rules && r != id {
        NothingOverlapsNothing(Collected(r, rules[r].actions));
      }
    }
    assert Gathers(decode, db, rules, id, []) && Resolves([], map[]) && Announces([], map[]);
  }

  lemma {:induction false} NothingOverlapsNothing(actions: seq<PendingAction>)
    ensures Overlapping(actions, []) == []
  {
    if actions != [] {
      NothingOverlapsNothing(actions[..|actions| - 1]);
    }
  }

  /** What is published is determined by the rules, the states and the cache: not by the order of
      rules, targets, parameters or devices. */
  lemma {:induction false} PublicationIsDetermined(decode: Decoder, db: Db, rules: Rules, id: string,
                                                   a: seq<Message>, b: seq<Message>)
    requires id in rules && Publishes(decode, db, rules, id, a) && Publishes(decode, db, rules, id, b)
    ensures forall m :: m in a <==> m in b
  {
    if Triggers(decode, db, rules[id]) {
      var p, commands :| Gathers(decode, db, rules, id, p) && Resolves(p, commands) && Announces(a, commands);
      var q, commands' :| Gathers(decode, db, rules, id, q) && Resolves(q, commands') && Announces(b, commands');
      ResolutionIsOrderIndependent(p, q, commands, commands');
      forall m | m in a || m in b ensures m in a && m in b {
        assert m == Message(m.deviceId, commands[m.deviceId]);
      }
    }
  }

  /** What the gathered actions say about a target of the rule is what the whole table says. */
  lemma {:induction false} GatheredWritesAreGlobal(decode: Decoder, db: Db, rules: Rules, id: string,
                                                   all: seq<PendingAction>, t: Target, r: string)
    requires id in rules && Triggers(decode, db, rules[id]) && Gathers(decode, db, rules, id, all)
    requires OwnWrite(rules, id, t).Some?
    ensures FirstWriteBy(all, r, t) == if Competes(decode, db, rules, r, t) then OwnWrite(rules, r, t) else None
  {
    var own := Collected(id, rules[id].actions);
    FirstWriteIffWritten(own, id, t);
    FirstWriteOfOwnActions(all, r, t);
    if r in rules {
      OverlappingKeepsWrites(Collected(r, rules[r].actions), own, r, t);
    }
  }

  /** The messages carry, for a target, the value the whole table gives it. */
  ghost predicate Delivers(decode: Decoder, db: Db, rules: Rules, messages: seq<Message>, t: Target) {
    exists m | m in messages ::
      m.deviceId == t.deviceId && t.key in m.params && GlobalValue(decode, db, rules, t, m.params[t.key])
  }

  /** Although only overlapping actions are gathered, every target the rule writes is published with
      the first write of the lowest-ID rule among all enabled rules whose conditions hold. */
  lemma {:induction false} PublishesGlobalValues(decode: Decoder, db: Db, rules: Rules, id: string,
                                                 messages: seq<Message>, t: Target)
    requires id in rules && Triggers(decode, db, rules[id]) && Publishes(decode, db, rules, id, messages)
    requires OwnWrite(rules, id, t).Some?
    ensures Delivers(decode, db, rules, messages, t)
  {
    var all, resolved :| Gathers(decode, db, rules, id, all) && Resolves(all, resolved)
        && Announces(messages, resolved);
    forall r
      ensures FirstWriteBy(all, r, t) == if Competes(decode, db, rules, r, t) then OwnWrite(rules, r, t) else None
    {
      GatheredWritesAreGlobal(decode, db, rules, id, all, t, r);
    }
    FirstWriteIffWritten(all, id, t);
    assert t == Target(t.deviceId, t.key) && Written(all, t) && Mentioned(all, t.deviceId);
    var v := resolved[t.deviceId][t.key];
    var winner :| LowestWriter(all, winner, t) && FirstWriteBy(all, winner, t) == Some(v);
    assert Competes(decode, db, rules, winner, t);
    assert GlobalValue(decode, db, rules, t, v);
    assert Message(t.deviceId, resolved[t.deviceId]) in messages;
  }

  lemma {:induction false} GlobalValueIsUnique(decode: Decoder, db: Db, rules: Rules, t: Target, v: Value, v': Value)
    ensures GlobalValue(decode, db, rules, t, v) && GlobalValue(decode, db, rules, t, v') ==> v == v'
  {
    if GlobalValue(decode, db, rules, t, v) && GlobalValue(decode, db, rules, t, v') {
      var a :| Competes(decode, db, rules, a, t) && OwnWrite(rules, a, t) == Some(v)
        && forall other | Competes(decode, db, rules, other, t) :: !Less(other, a);
      var b :| Competes(decode, db, rules, b, t) && OwnWrite(rules, b, t) == Some(v')
        && forall other | Competes(decode, db, rules, other, t) :: !Less(other, b);
      LessIsTotal(a, b);
    }
  }

  lemma {:induction false} SameWorldSameGlobalValue(decode: Decoder, db: Db, db': Db, rules: Rules, t: Target, v: Value)
    requires SameInstant(decode, db, db')
    ensures GlobalValue(decode, db, rules, t, v) <==> GlobalValue(decode, db', rules, t, v)
  {
    SameWorldSameTriggers(decode, db, db', rules);
    assert forall r :: Competes(decode, db, rules, r, t) <==> Competes(decode, db', rules, r, t);
  }

  /** The job of a rule that triggers and writes the target. */
  ghost predicate RanFor(decode: Decoder, db: Db, rules: Rules, id: string, messages: seq<Message>, t: Target) {
    && id in rules && Triggers(decode, db, rules[id])
    && Publishes(decode, db, rules, id, messages) && OwnWrite(rules, id, t).Some?
  }

  /** Two triggered rules run one after the other on the same snapshot publish the same value for
      every target they both write. */
  lemma {:induction false} TriggeredRulesAgree(decode: Decoder, db: Db, db': Db, rules: Rules, a: string, b: string,
                                               published: seq<Message>, published': seq<Message>, t: Target)
    ensures SameInstant(decode, db, db') && RanFor(decode, db, rules, a, published, t)
            && RanFor(decode, db', rules, b, published', t) ==>
              forall m, m' | m in published && m' in published' && m.deviceId == m'.deviceId == t.deviceId ::
                  SameValue(m, m', t.key)
  {
    if SameInstant(decode, db, db') && RanFor(decode, db, rules, a, published, t)
       && RanFor(decode, db', rules, b, published', t)
    {
      forall m, m' | m in published && m' in published' && m.deviceId == m'.deviceId == t.deviceId
        ensures SameValue(m, m', t.key)
      {
        EveryMessageDelivers(decode, db, rules, a, published, t, m);
        EveryMessageDelivers(decode, db', rules, b, published', t, m');
        SameWorldSameGlobalValue(decode, db, db', rules, t, m'.params[t.key]);
        GlobalValueIsUnique(decode, db, rules, t, m.params[t.key], m'.params[t.key]);
      }
    }
  }

  /** Both messages carry the key, with the same value. */
  predicate SameValue(m: Message, m': Message, key: string) {
    key in m.params && key in m'.params && m.params[key] == m'.params[key]
  }

  lemma {:induction false} EveryMessageDelivers(decode: Decoder, db: Db, rules: Rules, id: string,
                                                messages: seq<Message>, t: Target, m: Message)
    requires RanFor(decode, db, rules, id, messages, t) && m in messages && m.deviceId == t.deviceId
    ensures t.key in m.params && GlobalValue(decode, db, rules, t, m.params[t.key])
  {
    PublishesGlobalValues(decode, db, rules, id, messages, t);
    var all, resolved :| Gathers(decode, db, rules, id, all) && Resolves(all, resolved)
        && Announces(messages, resolved);
    assert m == Message(t.deviceId, resolved[t.deviceId]);
  }
}
