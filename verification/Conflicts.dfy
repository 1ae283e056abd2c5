/** Conflict resolution between the pending device writes of several rules. */
module Conflicts {
  import opened Text
  import opened Json

  datatype PendingAction = PendingAction(ruleId: string, deviceId: string, params: map<string, Value>)

  datatype Target = Target(deviceId: string, key: string)

  predicate Writes(a: PendingAction, t: Target) {
    a.deviceId == t.deviceId && t.key in a.params
  }

  /** The value the first action of one rule gives a target, independently of any other rule. */
  function FirstWriteBy(actions: seq<PendingAction>, rule: string, t: Target): Option<Value> {
    if actions == [] then None
    else if actions[0].ruleId == rule && Writes(actions[0], t) then Some(actions[0].params[t.key])
    else FirstWriteBy(actions[1..], rule, t)
  }

  /** rule is the lowest rule ID among the writers of a target. */
  ghost predicate LowestWriter(actions: seq<PendingAction>, rule: string, t: Target) {
    && FirstWriteBy(actions, rule, t).Some?
    && forall r | FirstWriteBy(actions, r, t).Some? :: !Less(r, rule)
  }

  /** The value conflict resolution owes a target: the first one of the lowest rule ID. */
  ghost predicate Wins(actions: seq<PendingAction>, t: Target, v: Value) {
    exists rule :: LowestWriter(actions, rule, t) && FirstWriteBy(actions, rule, t) == Some(v)
  }

  predicate Written(actions: seq<PendingAction>, t: Target) {
    exists a | a in actions :: Writes(a, t)
  }

  predicate Mentioned(actions: seq<PendingAction>, device: string) {
    exists a | a in actions :: a.deviceId == device
  }

  type Commands = map<string, map<string, Value>>

  /** What a resolution has to be: exactly the mentioned devices, exactly the written keys, and
      the winning value under each. */
  ghost predicate Resolves(actions: seq<PendingAction>, resolved: Commands) {
    && (forall d :: d in resolved <==> Mentioned(actions, d))
    && (forall d, k | d in resolved :: k in resolved[d] <==> Written(actions, Target(d, k)))
    && (forall d, k | d in resolved && k in resolved[d] :: Wins(actions, Target(d, k), resolved[d][k]))
  }

  // ---- Splitting and filtering ----

  lemma {:induction false} FirstWriteOfSum(p: seq<PendingAction>, q: seq<PendingAction>, rule: string, t: Target)
    ensures FirstWriteBy(p + q, rule, t) ==
            if FirstWriteBy(p, rule, t).Some? then FirstWriteBy(p, rule, t) else FirstWriteBy(q, rule, t)
  {
    if p == [] {
      assert p + q == q;
    } else {
      assert (p + q)[1..] == p[1..] + q;
      FirstWriteOfSum(p[1..], q, rule, t);
    }
  }

  lemma {:induction false} FirstWriteIffWritten(p: seq<PendingAction>, rule: string, t: Target)
    ensures FirstWriteBy(p, rule, t).Some? <==> exists a | a in p :: a.ruleId == rule && Writes(a, t)
  {
    if p != [] {
      FirstWriteIffWritten(p[1..], rule, t);
    }
  }

  /** One rule's actions, in their order. */
  function ActionsOf(p: seq<PendingAction>, rule: string): seq<PendingAction> {
    if p == [] then []
    else (if p[0].ruleId == rule then [p[0]] else []) + ActionsOf(p[1..], rule)
  }

  lemma {:induction false} FirstWriteOfOwnActions(p: seq<PendingAction>, rule: string, t: Target)
    ensures FirstWriteBy(ActionsOf(p, rule), rule, t) == FirstWriteBy(p, rule, t)
  {
    if p != [] {
      FirstWriteOfOwnActions(p[1..], rule, t);
      FirstWriteOfSum(if p[0].ruleId == rule then [p[0]] else [], ActionsOf(p[1..], rule), rule, t);
    }
  }

  lemma {:induction false} OwnActionsAreMembers(p: seq<PendingAction>, rule: string)
    ensures forall a :: a in ActionsOf(p, rule) <==> a in p && a.ruleId == rule
  {
    if p != [] {
      OwnActionsAreMembers(p[1..], rule);
    }
  }

  lemma {:induction false} ActionsOfSum(p: seq<PendingAction>, q: seq<PendingAction>, rule: string)
    ensures ActionsOf(p + q, rule) == ActionsOf(p, rule) + ActionsOf(q, rule)
  {
    if p == [] {
      assert p + q == q;
    } else {
      assert (p + q)[1..] == p[1..] + q;
      ActionsOfSum(p[1..], q, rule);
    }
  }

  /** The actions of one owner are all of the owner's and none of anyone else's. */
  lemma {:induction false} ActionsOfOneOwner(p: seq<PendingAction>, owner: string, rule: string)
    requires forall a | a in p :: a.ruleId == owner
    ensures ActionsOf(p, rule) == if rule == owner then p else []
  {
    if p != [] {
      assert p == [p[0]] + p[1..];
      ActionsOfOneOwner(p[1..], owner, rule);
    }
  }

  lemma {:induction false} WinnerIsUnique(actions: seq<PendingAction>, t: Target, v: Value, v': Value)
    requires Wins(actions, t, v) && Wins(actions, t, v')
    ensures v == v'
  {
    var r :| LowestWriter(actions, r, t) && FirstWriteBy(actions, r, t) == Some(v);
    var r' :| LowestWriter(actions, r', t) && FirstWriteBy(actions, r', t) == Some(v');
    LessIsTotal(r, r');
  }

  lemma {:induction false} ResolutionIsUnique(actions: seq<PendingAction>, a: Commands, b: Commands)
    requires Resolves(actions, a) && Resolves(actions, b)
    ensures a == b
  {
    forall d | d in a ensures a[d] == b[d] {
      forall k | k in a[d] ensures a[d][k] == b[d][k] {
        WinnerIsUnique(actions, Target(d, k), a[d][k], b[d][k]);
      }
    }
  }

  /** Any reordering that keeps each rule's own actions in order resolves to the same commands. */
  lemma {:induction false} ResolutionIsOrderIndependent(p: seq<PendingAction>, q: seq<PendingAction>, a: Commands,
                                                        b: Commands)
    requires forall rule :: ActionsOf(p, rule) == ActionsOf(q, rule)
    requires Resolves(p, a) && Resolves(q, b)
    ensures a == b
  {
    forall x ensures x in p <==> x in q {
      OwnActionsAreMembers(p, x.ruleId);
      OwnActionsAreMembers(q, x.ruleId);
    }
    forall rule, t ensures FirstWriteBy(p, rule, t) == FirstWriteBy(q, rule, t) {
      FirstWriteOfOwnActions(p, rule, t);
      FirstWriteOfOwnActions(q, rule, t);
    }
    forall t, v ensures Wins(p, t, v) <==> Wins(q, t, v) {
      assert forall rule :: LowestWriter(p, rule, t) <==> LowestWriter(q, rule, t);
    }
    ResolutionIsUnique(q, a, b);
  }

  // ---- The algorithm ----

  type Entry = (string, Value)

  /** The entry the nested maps hold for a target. */
  function EntryAt(conflicts: map<string, map<string, Entry>>, t: Target): Option<Entry> {
    if t.deviceId in conflicts && t.key in conflicts[t.deviceId]
    then Some(conflicts[t.deviceId][t.key]) else None
  }

  /** One comparison of the inner loop: keep the entry unless the action's rule ID is lower. */
  function Challenge(entry: Option<Entry>, a: PendingAction, t: Target): Option<Entry>
    requires Writes(a, t)
  {
    if entry.None? || Less(a.ruleId, entry.value.0) then Some((a.ruleId, a.params[t.key])) else entry
  }

  /** An entry is right for the actions seen so far. */
  ghost predicate EntryIsRight(p: seq<PendingAction>, t: Target, entry: Option<Entry>) {
    match entry
    case None => forall rule :: FirstWriteBy(p, rule, t).None?
    case Some((rule, v)) => LowestWriter(p, rule, t) && FirstWriteBy(p, rule, t) == Some(v)
  }

  lemma {:induction false} ChallengeKeepsRight(p: seq<PendingAction>, a: PendingAction, t: Target, entry: Option<Entry>)
    requires EntryIsRight(p, t, entry)
    ensures EntryIsRight(p + [a], t, if Writes(a, t) then Challenge(entry, a, t) else entry)
  {
    forall rule
      ensures FirstWriteBy(p + [a], rule, t) ==
              if FirstWriteBy(p, rule, t).Some? then FirstWriteBy(p, rule, t)
              else if a.ruleId == rule && Writes(a, t) then Some(a.params[t.key]) else None
    {
      FirstWriteOfSum(p, [a], rule, t);
    }
    if Writes(a, t) && entry.Some? {
      LessIsTotal(a.ruleId, entry.value.0);
      forall r | FirstWriteBy(p, r, t).Some? && Less(a.ruleId, entry.value.0)
        ensures !Less(r, a.ruleId)
      {
        if Less(r, a.ruleId) {
          LessIsTransitive(r, a.ruleId, entry.value.0);
        }
      }
    }
    LessIsTotal(a.ruleId, a.ruleId);
  }

  lemma {:induction false} EntriesResolve(p: seq<PendingAction>, t: Target, entry: Option<Entry>)
    requires EntryIsRight(p, t, entry)
    ensures entry.Some? <==> Written(p, t)
    ensures entry.Some? ==> Wins(p, t, entry.value.1)
  {
    if entry.Some? {
      FirstWriteIffWritten(p, entry.value.0, t);
    } else {
      forall a | a in p ensures !Writes(a, t) {
        FirstWriteIffWritten(p, a.ruleId, t);
      }
    }
  }

  /** The inner loop: one action challenges the entry of each of its keys, in any order. */
  method ChallengeAll(conflicts: map<string, map<string, Entry>>, action: PendingAction)
    returns (after: map<string, map<string, Entry>>)
    requires action.deviceId in conflicts
    ensures after.Keys == conflicts.Keys
    ensures forall t ::
              EntryAt(after, t) ==
              if Writes(action, t) then Challenge(EntryAt(conflicts, t), action, t) else EntryAt(conflicts, t)
  {
    after := conflicts;
    var keys := Enumerate(action.params.Keys);
    for j := 0 to |keys|
      invariant after.Keys == conflicts.Keys
      invariant forall t :: EntryAt(after, t) == if t.deviceId == action.deviceId && t.key in keys[..j]
                                                 then Challenge(EntryAt(conflicts, t), action, t)
                                                 else EntryAt(conflicts, t)
    {
      var key := keys[j];
      var value := action.params[key];
      var attrs := after[action.deviceId];
      assert EntryAt(after, Target(action.deviceId, key)) == EntryAt(conflicts, Target(action.deviceId, key));
      if key !in attrs {
        after := after[action.deviceId := attrs[key := (action.ruleId, value)]];
      } else if Less(action.ruleId, attrs[key].0) {
        after := after[action.deviceId := attrs[key := (action.ruleId, value)]];
      }
      assert keys[..j + 1] == keys[..j] + [key];
    }
    assert keys[..|keys|] == keys;
  }

  /** The loop over actions, and the commands made from what is left. */
  method ResolveConflicts(pending: seq<PendingAction>) returns (resolved: Commands)
    ensures Resolves(pending, resolved)
  {
    var conflicts: map<string, map<string, Entry>> := map[];
    for i := 0 to |pending|
      invariant forall d :: d in conflicts <==> Mentioned(pending[..i], d)
      invariant forall t :: EntryIsRight(pending[..i], t, EntryAt(conflicts, t))
    {
      var action := pending[i];
      ghost var seen, start := pending[..i], conflicts;
      assert pending[..i + 1] == seen + [action];
      if action.deviceId !in conflicts {
        conflicts := conflicts[action.deviceId := map[]];
      }
      assert forall t :: EntryAt(conflicts, t) == EntryAt(start, t);
      conflicts := ChallengeAll(conflicts, action);
      forall t ensures EntryIsRight(seen + [action], t, EntryAt(conflicts, t)) {
        ChallengeKeepsRight(seen, action, t, EntryAt(start, t));
      }
    }
    assert pending[..|pending|] == pending;
    resolved := Values(conflicts);
    forall d, k | d in resolved
      ensures k in resolved[d] <==> Written(pending, Target(d, k))
      ensures k in resolved[d] ==> Wins(pending, Target(d, k), resolved[d][k])
    {
      EntriesResolve(pending, Target(d, k), EntryAt(conflicts, Target(d, k)));
    }
  }

  /** The values of one device's entries, without the rule IDs. */
  ghost predicate Strips(attrs: map<string, Entry>, values: map<string, Value>) {
    values.Keys == attrs.Keys && forall k | k in attrs :: values[k] == attrs[k].1
  }

  /** The last two loops: rule IDs are dropped once every action has been seen. */
  method Values(conflicts: map<string, map<string, Entry>>) returns (resolved: Commands)
    ensures resolved.Keys == conflicts.Keys
    ensures forall d | d in conflicts :: Strips(conflicts[d], resolved[d])
  {
    resolved := map[];
    var devices := Enumerate(conflicts.Keys);
    for i := 0 to |devices|
      invariant forall d :: d in resolved <==> d in devices[..i]
      invariant forall d | d in resolved :: d in conflicts && Strips(conflicts[d], resolved[d])
    {
      var values := StripEntries(conflicts[devices[i]]);
      assert devices[..i + 1] == devices[..i] + [devices[i]];
      resolved := resolved[devices[i] := values];
    }
    assert devices[..|devices|] == devices;
  }

  method StripEntries(attrs: map<string, Entry>) returns (values: map<string, Value>)
    ensures Strips(attrs, values)
  {
    values := map[];
    var keys := Enumerate(attrs.Keys);
    for j := 0 to |keys|
      invariant forall k :: k in values <==> k in keys[..j]
      invariant forall k | k in values :: k in attrs && values[k] == attrs[k].1
    {
      assert keys[..j + 1] == keys[..j] + [keys[j]];
      values := values[keys[j] := attrs[keys[j]].1];
    }
    assert keys[..|keys|] == keys;
  }
}
