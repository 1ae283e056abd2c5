/** What a rule's job publishes, read off the action lists and conditions of the rules as stored. */
module Publication {
  import opened Text
  import opened Json
  import opened Redis
  import opened Conditions
  import opened Evaluator
  import opened Conflicts
  import opened Store
  import opened TaskQueue

  // ---- What an action list asks for, read off its JSON ----

  /** A field the struct reads as a string: absent, null or a string. */
  predicate IsTextField(fields: map<string, Value>, key: string) {
    key in fields ==> fields[key].Null? || fields[key].Str?
  }

  /** An element the collector accepts. */
  predicate IsAction(e: Value) {
    e.Null? || (e.Object? && IsTextField(e.fields, "device_id") && IsTextField(e.fields, "action"))
  }

  /** The element names the device in device_id and has the key in its params. */
  predicate Touches(e: Value, t: Target) {
    && e.Object? && "device_id" in e.fields && e.fields["device_id"] == Str(t.deviceId) && t.deviceId != ""
    && "params" in e.fields && e.fields["params"].Object? && t.key in e.fields["params"].fields
  }

  predicate Sets(e: Value, t: Target, v: Value) {
    Touches(e, t) && e.fields["params"].fields[t.key] == v
  }

  /** The first element that touches the target sets it to the value. */
  predicate SetsFirst(elems: seq<Value>, t: Target, v: Value) {
    exists i | 0 <= i < |elems| :: Sets(elems[i], t, v) && forall j | 0 <= j < i :: !Touches(elems[j], t)
  }

  /** An action list, all of whose elements are accepted, asks for the value. */
  predicate AsksFor(actions: Value, t: Target, v: Value) {
    actions.Array? && (forall e | e in actions.elems :: IsAction(e)) && SetsFirst(actions.elems, t, v)
  }

  lemma {:induction false} ElementWrites(ruleId: string, e: Value, t: Target)
    ensures IsAction(e) <==> DecodeAction(e).Some?
    ensures IsAction(e) ==>
              FirstWriteBy(PendingOf(ruleId, DecodeAction(e).value), ruleId, t) ==
              if Touches(e, t) then Some(e.fields["params"].fields[t.key]) else None
  {
  }

  lemma {:induction false} ListWrites(ruleId: string, elems: seq<Value>, raws: seq<RawAction>, t: Target, v: Value)
    requires |raws| == |elems| && forall i | 0 <= i < |elems| ::
             IsAction(elems[i]) && DecodeAction(elems[i]) == Some(raws[i])
    ensures FirstWriteBy(PendingOfAll(ruleId, raws), ruleId, t) == Some(v) <==> SetsFirst(elems, t, v)
    ensures FirstWriteBy(PendingOfAll(ruleId, raws), ruleId, t) == None <==>
            forall j | 0 <= j < |elems| :: !Touches(elems[j], t)
  {
    if elems != [] {
      var n := |elems| - 1;
      var last := elems[n];
      ListWrites(ruleId, elems[..n], raws[..n], t, v);
      ElementWrites(ruleId, last, t);
      FirstWriteOfSum(PendingOfAll(ruleId, raws[..n]), PendingOf(ruleId, raws[n]), ruleId, t);
      var before := FirstWriteBy(PendingOfAll(ruleId, raws[..n]), ruleId, t);
      if before.Some? {
        ListWrites(ruleId, elems[..n], raws[..n], t, before.value);
      }
      SetsFirstOfOneMore(elems[..n], last, t, v);
      assert elems == elems[..n] + [last];
    }
  }

  lemma {:induction false} SetsFirstOfOneMore(elems: seq<Value>, last: Value, t: Target, v: Value)
    ensures SetsFirst(elems + [last], t, v) <==>
            SetsFirst(elems, t, v) || (Sets(last, t, v) && forall j | 0 <= j < |elems| :: !Touches(elems[j], t))
  {
    var all := elems + [last];
    if i :| 0 <= i < |all| && Sets(all[i], t, v) && forall j | 0 <= j < i :: !Touches(all[j], t) {
      if i < |elems| {
        assert forall j | 0 <= j <= i :: elems[j] == all[j];
        assert Sets(elems[i], t, v) && forall j | 0 <= j < i :: !Touches(elems[j], t);
      } else {
        assert forall j | 0 <= j < |elems| :: elems[j] == all[j];
      }
    }
    if i :| 0 <= i < |elems| && Sets(elems[i], t, v) && forall j | 0 <= j < i :: !Touches(elems[j], t) {
      assert Sets(all[i], t, v) && forall j | 0 <= j < i :: !Touches(all[j], t);
    }
    if Sets(last, t, v) && forall j | 0 <= j < |elems| :: !Touches(elems[j], t) {
      assert Sets(all[|elems|], t, v) && forall j | 0 <= j < |elems| :: !Touches(all[j], t);
    }
  }

  /** What a rule writes to a target is what its action list asks for. */
  lemma {:induction false} OwnWriteIff(rules: Rules, id: string, t: Target, v: Value)
    requires id in rules
    ensures OwnWrite(rules, id, t) == Some(v) <==> AsksFor(rules[id].actions, t, v)
  {
    var actions := rules[id].actions;
    if actions.Array? {
      forall e | e in actions.elems ensures IsAction(e) <==> DecodeAction(e).Some? {
        ElementWrites(id, e, t);
      }
      if DecodeActions(actions).Some? {
        ListWrites(id, actions.elems, DecodeActions(actions).value, t, v);
      }
    }
  }

  // ---- What the job means, on the rules as they are stored ----

  /** The rule is enabled, its tree evaluates to true now, and its action list asks for the value. */
  predicate Orders(decode: Decoder, db: Db, rules: Rules, r: string, t: Target, v: Value) {
    && r in rules && rules[r].enabled && rules[r].conditions.Some? && Eval(decode, db, rules[r].conditions.value).0
    && AsksFor(rules[r].actions, t, v)
  }

  lemma {:induction false} CompetesIff(decode: Decoder, db: Db, rules: Rules, r: string, t: Target)
    ensures Competes(decode, db, rules, r, t) <==> exists v :: Orders(decode, db, rules, r, t, v)
    ensures forall v :: Orders(decode, db, rules, r, t, v) <==>
                        Competes(decode, db, rules, r, t) && OwnWrite(rules, r, t) == Some(v)
  {
    if r in rules {
      if rules[r].conditions.Some? {
        EvalIsTruth(decode, db, rules[r].conditions.value);
      }
      forall v ensures OwnWrite(rules, r, t) == Some(v) <==> AsksFor(rules[r].actions, t, v) {
        OwnWriteIff(rules, r, t, v);
      }
      if Competes(decode, db, rules, r, t) {
        assert Orders(decode, db, rules, r, t, OwnWrite(rules, r, t).value);
      }
    }
  }

  /** For every target a triggered rule's list asks for, a message goes to the device named there, with
      the value that the lowest of all ordering rules asks for. */
  lemma {:induction false} TriggeredRuleIsObeyed(decode: Decoder, db: Db, rules: Rules, id: string,
                                                 messages: seq<Message>,
                                                 t: Target, own: Value)
    requires id in rules && Publishes(decode, db, rules, id, messages) && Orders(decode, db, rules, id, t, own)
    ensures exists m, r |
              && m in messages && m.deviceId == t.deviceId && t.key in m.params
              && Orders(decode, db, rules, r, t, m.params[t.key]) ::
              forall other, v | Orders(decode, db, rules, other, t, v) :: !Less(other, r)
  {
    CompetesIff(decode, db, rules, id, t);
    PublishesGlobalValues(decode, db, rules, id, messages, t);
    var m :| m in messages && m.deviceId == t.deviceId && t.key in m.params
             && GlobalValue(decode, db, rules, t, m.params[t.key]);
    var r :| Competes(decode, db, rules, r, t) && OwnWrite(rules, r, t) == Some(m.params[t.key])
             && forall other | Competes(decode, db, rules, other, t) :: !Less(other, r);
    CompetesIff(decode, db, rules, r, t);
    forall other, v | Orders(decode, db, rules, other, t, v) ensures !Less(other, r) {
      CompetesIff(decode, db, rules, other, t);
    }
  }

  /** No device gets two messages, and none an empty one; a rule that does not trigger sends nothing. */
  lemma {:induction false} OneMessagePerDevice(decode: Decoder, db: Db, rules: Rules, id: string,
                                               messages: seq<Message>)
    requires id in rules && Publishes(decode, db, rules, id, messages)
    ensures forall i, j | 0 <= i < j < |messages| :: messages[i].deviceId != messages[j].deviceId
    ensures forall m | m in messages :: m.params != map[]
    ensures !rules[id].enabled || rules[id].conditions.None? || !Eval(decode, db, rules[id].conditions.value).0 ==>
              messages == []
  {
    if rules[id].conditions.Some? {
      EvalIsTruth(decode, db, rules[id].conditions.value);
    }
  }

  /** Nothing is invented: each value published is set, for that device and key, by an element of the
      action list of an enabled rule that evaluates to true now. */
  lemma {:induction false} NothingIsInvented(decode: Decoder, db: Db, rules: Rules, id: string, messages: seq<Message>,
                                             m: Message, key: string)
    requires id in rules && Publishes(decode, db, rules, id, messages) && m in messages && key in m.params
    ensures exists r | r in rules && rules[r].enabled && rules[r].conditions.Some? && rules[r].actions.Array? ::
              && Eval(decode, db, rules[r].conditions.value).0
              && exists e | e in rules[r].actions.elems :: Sets(e, Target(m.deviceId, key), m.params[key])
  {
    var t := Target(m.deviceId, key);
    var all, resolved :| Gathers(decode, db, rules, id, all) && Resolves(all, resolved)
                         && Announces(messages, resolved);
    assert Wins(all, t, resolved[m.deviceId][key]);
    var r :| LowestWriter(all, r, t) && FirstWriteBy(all, r, t) == Some(m.params[key]);
    FirstWriteOfOwnActions(all, r, t);
    ShareIsSet(decode, db, rules, id, r, t);
  }

  lemma {:induction false} ShareIsSet(decode: Decoder, db: Db, rules: Rules, id: string, r: string, t: Target)
    requires id in rules && Triggers(decode, db, rules[id])
    requires FirstWriteBy(Share(decode, db, rules, id, r), r, t).Some?
    ensures r in rules && rules[r].enabled && rules[r].conditions.Some? && rules[r].actions.Array?
    ensures Eval(decode, db, rules[r].conditions.value).0
    ensures var v := FirstWriteBy(Share(decode, db, rules, id, r), r, t).value;
            exists e | e in rules[r].actions.elems :: Sets(e, t, v)
  {
    var share := Share(decode, db, rules, id, r);
    FirstWriteIsWritten(share, r, t);
    var a :| a in share && Writes(a, t) && a.params[t.key] == FirstWriteBy(share, r, t).value;
    OverlappingIsSelection(Collected(r, rules[r].actions), Collected(id, rules[id].actions));
    CollectedIsSet(r, rules[r].actions, a, t);
    EvalIsTruth(decode, db, rules[r].conditions.value);
  }

  lemma {:induction false} FirstWriteIsWritten(p: seq<PendingAction>, rule: string, t: Target)
    ensures FirstWriteBy(p, rule, t).Some? ==>
              exists a | a in p :: Writes(a, t) && a.params[t.key] == FirstWriteBy(p, rule, t).value
  {
    if p != [] {
      FirstWriteIsWritten(p[1..], rule, t);
    }
  }

  lemma {:induction false} CollectedIsSet(ruleId: string, actions: Value, a: PendingAction, t: Target)
    requires a in Collected(ruleId, actions) && Writes(a, t)
    ensures actions.Array? && exists e | e in actions.elems :: Sets(e, t, a.params[t.key])
  {
    if DecodeActions(actions).Some? {
      var raws := DecodeActions(actions).value;
      PendingIsOfOne(ruleId, raws, a);
      var i :| 0 <= i < |raws| && a in PendingOf(ruleId, raws[i]);
      assert actions.elems[i] in actions.elems && DecodeAction(actions.elems[i]) == Some(raws[i]);
      assert Sets(actions.elems[i], t, a.params[t.key]);
    }
  }

  lemma {:induction false} PendingIsOfOne(ruleId: string, raws: seq<RawAction>, a: PendingAction)
    requires a in PendingOfAll(ruleId, raws)
    ensures exists i | 0 <= i < |raws| :: a in PendingOf(ruleId, raws[i])
  {
    var n := |raws| - 1;
    if a in PendingOfAll(ruleId, raws[..n]) {
      PendingIsOfOne(ruleId, raws[..n], a);
    }
  }

  // ---- Which keys are published ----

  /** The pending action and the element write the same targets. */
  ghost predicate Mirrors(a: PendingAction, e: Value) { forall t :: Writes(a, t) <==> Touches(e, t) }

  predicate IsActionList(actions: Value) { actions.Array? && forall e | e in actions.elems :: IsAction(e) }

  lemma {:induction false} PendingMirrors(ruleId: string, e: Value, a: PendingAction)
    requires IsAction(e) && DecodeAction(e).Some? && a in PendingOf(ruleId, DecodeAction(e).value)
    ensures Mirrors(a, e)
  {
  }

  lemma {:induction false} TouchingIsPending(ruleId: string, e: Value, t: Target)
    requires IsAction(e) && DecodeAction(e).Some? && Touches(e, t)
    ensures exists a :: a in PendingOf(ruleId, DecodeAction(e).value) && Mirrors(a, e)
  {
    var a := PendingOf(ruleId, DecodeAction(e).value)[0];
    PendingMirrors(ruleId, e, a);
  }

  lemma {:induction false} PendingOfEach(ruleId: string, raws: seq<RawAction>, a: PendingAction)
    ensures a in PendingOfAll(ruleId, raws) <==> exists i | 0 <= i < |raws| :: a in PendingOf(ruleId, raws[i])
  {
    if raws != [] {
      var n := |raws| - 1;
      PendingOfEach(ruleId, raws[..n], a);
      if i :| 0 <= i < |raws| && a in PendingOf(ruleId, raws[i]) && i < n {
        assert a in PendingOf(ruleId, raws[..n][i]);
      }
    }
  }

  /** What is collected mirrors the elements of the list, provided they are all accepted. */
  lemma {:induction false} CollectedMirrors(ruleId: string, actions: Value)
    ensures forall a | a in Collected(ruleId, actions) ::
              IsActionList(actions) && exists e | e in actions.elems :: Mirrors(a, e)
    ensures IsActionList(actions) ==> forall e, t | e in actions.elems && Touches(e, t) ::
              exists a | a in Collected(ruleId, actions) :: Mirrors(a, e)
  {
    if actions.Array? {
      var elems := actions.elems;
      forall e | e in elems ensures IsAction(e) <==> DecodeAction(e).Some? {
        ElementWrites(ruleId, e, Target("", ""));
      }
      if DecodeActions(actions).Some? {
        var raws := DecodeActions(actions).value;
        forall a | a in Collected(ruleId, actions) ensures exists e | e in elems :: Mirrors(a, e) {
          PendingOfEach(ruleId, raws, a);
          var i :| 0 <= i < |raws| && a in PendingOf(ruleId, raws[i]);
          assert elems[i] in elems && DecodeAction(elems[i]) == Some(raws[i]);
          PendingMirrors(ruleId, elems[i], a);
        }
        forall e, t | e in elems && Touches(e, t) ensures exists a | a in Collected(ruleId, actions) :: Mirrors(a, e) {
          var i :| 0 <= i < |elems| && elems[i] == e;
          TouchingIsPending(ruleId, e, t);
          var a :| a in PendingOf(ruleId, raws[i]) && Mirrors(a, e);
          PendingOfEach(ruleId, raws, a);
        }
      }
    }
  }

  /** An element of an accepted list that touches the target. */
  predicate Mentions(actions: Value, t: Target) {
    IsActionList(actions) && exists e | e in actions.elems :: Touches(e, t)
  }

  lemma {:induction false} MentionsIff(ruleId: string, actions: Value, t: Target)
    ensures Written(Collected(ruleId, actions), t) <==> Mentions(actions, t)
  {
    CollectedMirrors(ruleId, actions);
  }

  /** An element that touches the target and also some target the other list mentions. */
  ghost predicate MentionsAlong(actions: Value, t: Target, own: Value) {
    IsActionList(actions) &&
    exists e | e in actions.elems && Touches(e, t) :: exists u: Target :: Touches(e, u) && Mentions(own, u)
  }

  lemma {:induction false} OverlappingIff(actions: seq<PendingAction>, own: seq<PendingAction>)
    ensures forall a :: a in Overlapping(actions, own) <==> a in actions && Overlaps(a, own)
  {
    if actions != [] {
      OverlappingIff(actions[..|actions| - 1], own);
      InFrontOrLast(actions);
    }
  }

  lemma {:induction false} OverlapsIff(a: PendingAction, own: seq<PendingAction>)
    ensures Overlaps(a, own) <==> exists u :: Writes(a, u) && Written(own, u)
  {
    if u :| Writes(a, u) && Written(own, u) {
      assert u == Target(a.deviceId, u.key);
    }
    if k :| k in a.params && Written(own, Target(a.deviceId, k)) {
      assert Writes(a, Target(a.deviceId, k));
    }
  }

  /** Some pending action that overlaps the given ones writes the target. */
  predicate Keeps(pending: seq<PendingAction>, mine: seq<PendingAction>, t: Target) {
    exists a | a in pending :: Writes(a, t) && Overlaps(a, mine)
  }

  lemma {:induction false} KeptIff(pending: seq<PendingAction>, mine: seq<PendingAction>, t: Target)
    ensures Written(Overlapping(pending, mine), t) <==> Keeps(pending, mine, t)
  {
    OverlappingIff(pending, mine);
  }

  lemma {:induction false} MentionsAlongIff(r: string, actions: Value, t: Target, id: string, own: Value)
    ensures Written(Overlapping(Collected(r, actions), Collected(id, own)), t) <==> MentionsAlong(actions, t, own)
  {
    KeptIff(Collected(r, actions), Collected(id, own), t);
    if Keeps(Collected(r, actions), Collected(id, own), t) {
      KeptIsMentionedAlong(r, actions, t, id, own);
    }
    if MentionsAlong(actions, t, own) {
      MentionedAlongIsKept(r, actions, t, id, own);
    }
  }

  lemma {:induction false} KeptIsMentionedAlong(r: string, actions: Value, t: Target, id: string, own: Value)
    requires Keeps(Collected(r, actions), Collected(id, own), t)
    ensures MentionsAlong(actions, t, own)
  {
    CollectedMirrors(r, actions);
    var a :| a in Collected(r, actions) && Writes(a, t) && Overlaps(a, Collected(id, own));
    var e :| e in actions.elems && Mirrors(a, e);
    OverlapsIff(a, Collected(id, own));
    var u :| Writes(a, u) && Written(Collected(id, own), u);
    MentionsIff(id, own, u);
    assert Touches(e, t) && Touches(e, u);
  }

  lemma {:induction false} MentionedAlongIsKept(r: string, actions: Value, t: Target, id: string, own: Value)
    requires MentionsAlong(actions, t, own)
    ensures Keeps(Collected(r, actions), Collected(id, own), t)
  {
    CollectedMirrors(r, actions);
    var e :| e in actions.elems && Touches(e, t) && exists u: Target :: Touches(e, u) && Mentions(own, u);
    var u: Target :| Touches(e, u) && Mentions(own, u);
    MentionsIff(id, own, u);
    var a :| a in Collected(r, actions) && Mirrors(a, e);
    assert Writes(a, u) && Writes(a, t);
    OverlapsIff(a, Collected(id, own));
  }

  /** Some message for the device carries the key. */
  predicate Carries(messages: seq<Message>, t: Target) {
    exists m | m in messages :: m.deviceId == t.deviceId && t.key in m.params
  }

  /** An element of another rule that is true now mentions the key along with one of this rule's. */
  ghost predicate AnotherMentions(decode: Decoder, db: Db, rules: Rules, id: string, t: Target)
    requires id in rules
  {
    exists r | r in rules && r != id && rules[r].enabled && rules[r].conditions.Some? ::
      Eval(decode, db, rules[r].conditions.value).0 && MentionsAlong(rules[r].actions, t, rules[id].actions)
  }

  lemma {:induction false} SharesMention(decode: Decoder, db: Db, rules: Rules, id: string, t: Target)
    requires id in rules
    ensures (exists r :: r != id && Written(Share(decode, db, rules, id, r), t)) <==>
            AnotherMentions(decode, db, rules, id, t)
  {
    forall r | r in rules && rules[r].conditions.Some?
      ensures Eval(decode, db, rules[r].conditions.value).0 == Truth(WorldNow(decode, db), rules[r].conditions.value)
      ensures Written(Overlapping(Collected(r, rules[r].actions), Collected(id, rules[id].actions)), t) <==>
              MentionsAlong(rules[r].actions, t, rules[id].actions)
    {
      EvalIsTruth(decode, db, rules[r].conditions.value);
      MentionsAlongIff(r, rules[r].actions, t, id, rules[id].actions);
    }
    if r :| r != id && Written(Share(decode, db, rules, id, r), t) {
      assert r in rules && Triggers(decode, db, rules[r]);
    }
    if r :| r in rules && r != id && rules[r].enabled && rules[r].conditions.Some?
            && Eval(decode, db, rules[r].conditions.value).0
            && MentionsAlong(rules[r].actions, t, rules[id].actions) {
      assert Written(Share(decode, db, rules, id, r), t);
    }
  }

  /** Exactly these keys are published when a rule triggers: those its own list mentions, and those an
      element of another true rule mentions along with one of them. */
  lemma {:induction false} PublishedIff(decode: Decoder, db: Db, rules: Rules, id: string, messages: seq<Message>,
                                        t: Target)
    requires id in rules && rules[id].enabled && rules[id].conditions.Some?
    requires Eval(decode, db, rules[id].conditions.value).0 && Publishes(decode, db, rules, id, messages)
    ensures Carries(messages, t) <==> Mentions(rules[id].actions, t) || AnotherMentions(decode, db, rules, id, t)
  {
    EvalIsTruth(decode, db, rules[id].conditions.value);
    var all, resolved :| Gathers(decode, db, rules, id, all) && Resolves(all, resolved)
                         && Announces(messages, resolved);
    CarriesIffWritten(all, resolved, messages, t);
    WrittenByShare(decode, db, rules, id, all, t);
    MentionsIff(id, rules[id].actions, t);
    SharesMention(decode, db, rules, id, t);
    assert Share(decode, db, rules, id, id) == Collected(id, rules[id].actions);
  }

  lemma {:induction false} CarriesIffWritten(all: seq<PendingAction>, resolved: Commands, messages: seq<Message>,
                                             t: Target)
    requires Resolves(all, resolved) && Announces(messages, resolved)
    ensures Carries(messages, t) <==> Written(all, t)
  {
    assert t == Target(t.deviceId, t.key);
    if Written(all, t) {
      assert Mentioned(all, t.deviceId) && t.key in resolved[t.deviceId];
      assert Message(t.deviceId, resolved[t.deviceId]) in messages;
    }
  }

  lemma {:induction false} WrittenByShare(decode: Decoder, db: Db, rules: Rules, id: string, all: seq<PendingAction>,
                                          t: Target)
    requires id in rules && Gathers(decode, db, rules, id, all)
    ensures Written(all, t) <==> exists r :: Written(Share(decode, db, rules, id, r), t)
  {
    forall r ensures ActionsOf(all, r) == Share(decode, db, rules, id, r)
                     && forall a :: a in ActionsOf(all, r) <==> a in all && a.ruleId == r {
      OwnActionsAreMembers(all, r);
    }
    if a :| a in all && Writes(a, t) {
      assert a in Share(decode, db, rules, id, a.ruleId);
    }
  }
}
