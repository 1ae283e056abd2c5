/** Evaluation of condition trees against Redis, with time leaves cached for sixty seconds. */
module Evaluator {
  import opened Text
  import opened Json
  import opened Redis
  import opened Conditions
  import opened TimeConditions
  import opened Store

  const CACHE_TTL := 60_000

  const MINUTE_MS := 60_000

  const DAY_MS := 86_400_000

  function MinuteOfDay(now: int): (m: int)
    ensures 0 <= m < 1440
  {
    (now % DAY_MS) / MINUTE_MS
  }

  function StateKey(device: string): string { "device:" + device }

  /** A device's last reported fields; anything unreadable counts as no fields. */
  function StateOf(db: Db, device: string): map<string, Value> {
    match db.Get(StateKey(device))
    case Some(Entry(State(fields), _)) => fields
    case _ => map[]
  }

  /** Go's `%v` of a byte slice. */
  function BytesText(bytes: seq<Byte>): string {
    "[" + Spaced(bytes) + "]"
  }

  function Spaced(bytes: seq<Byte>): string {
    if bytes == [] then ""
    else Decimal(bytes[0]) + (if |bytes| == 1 then "" else " " + Spaced(bytes[1..]))
  }

  function CacheKey(op: string, value: seq<Byte>): string {
    "time:" + op + ":" + BytesText(value)
  }

  lemma {:induction false} SpacedHasNoColon(bytes: seq<Byte>)
    ensures ':' !in Spaced(bytes)
  {
    if bytes != [] {
      SpacedHasNoColon(bytes[1..]);
    }
  }

  lemma {:induction false} SpacedIsInjective(a: seq<Byte>, b: seq<Byte>)
    requires Spaced(a) == Spaced(b)
    ensures a == b
  {
    if a != [] && b != [] {
      var x, y := Spaced(a)[|Decimal(a[0])|..], Spaced(b)[|Decimal(b[0])|..];
      assert Spaced(a) == Decimal(a[0]) + x && Spaced(b) == Decimal(b[0]) + y;
      DigitRunOf(Decimal(a[0]), x);
      DigitRunOf(Decimal(b[0]), y);
      assert Spaced(a)[..|Decimal(a[0])|] == Decimal(a[0]) && Spaced(b)[..|Decimal(b[0])|] == Decimal(b[0]);
      DecimalIsInjective(a[0], b[0]);
      assert |a| == 1 <==> |b| == 1;
      if |a| > 1 {
        assert x[1..] == Spaced(a[1..]) && y[1..] == Spaced(b[1..]);
        SpacedIsInjective(a[1..], b[1..]);
      }
      assert a == [a[0]] + a[1..] && b == [b[0]] + b[1..];
    }
  }

  /** A cache key determines the operator and the raw value bytes, whatever colons they hold. */
  lemma {:induction false} CacheKeyIsInjective(op: string, value: seq<Byte>, op': string, value': seq<Byte>)
    requires CacheKey(op, value) == CacheKey(op', value')
    ensures op == op' && value == value'
  {
    SpacedHasNoColon(value);
    SpacedHasNoColon(value');
    LastSeparatorSplit("time:" + op, BytesText(value), "time:" + op', BytesText(value'), ':');
    assert op == ("time:" + op)[5..] && op' == ("time:" + op')[5..];
    assert Spaced(value) == BytesText(value)[1..|BytesText(value)| - 1];
    assert Spaced(value') == BytesText(value')[1..|BytesText(value')| - 1];
    SpacedIsInjective(value, value');
  }

  lemma {:induction false} StateKeyIsNoCacheKey(device: string, op: string, value: seq<Byte>)
    ensures StateKey(device) != CacheKey(op, value)
  {
    assert StateKey(device)[0] == 'd' && CacheKey(op, value)[0] == 't';
  }

  // ---- Evaluation ----

  function BoolText(b: bool): string { if b then "true" else "false" }

  /** The string GET returns, empty for a missing key or a key of another type. A stored state is
      never the empty text and never the text "true". */
  function PlainAt(db: Db, key: string): string {
    match db.Get(key)
    case Some(Entry(Plain(text), _)) => text
    case Some(Entry(State(_), _)) => "{}"
    case _ => ""
  }

  /** The answer the cache holds for a time leaf. */
  function CachedAnswer(db: Db, op: string, value: seq<Byte>): Option<bool> {
    var text := PlainAt(db, CacheKey(op, value));
    if text == "" then None else Some(text == "true")
  }

  /** A leaf, and the database after looking it up. */
  function EvalLeaf(decode: Decoder, db: Db, cond: Condition): (bool, Db) {
    if IsDeviceLeaf(cond) then
      match decode(cond.value)
      case None => (false, db)
      case Some(expected) => (CompareValues(Field(StateOf(db, cond.deviceId), cond.key), cond.op, expected), db)
    else if IsTimeLeaf(cond) then
      match CachedAnswer(db, cond.op, cond.value)
      case Some(answer) => (answer, db)
      case None =>
        match decode(cond.value)
        case None => (false, db)
        case Some(expected) =>
          var answer := CompareClock(MinuteOfDay(db.now), cond.op, expected);
          (answer, db.Put(CacheKey(cond.op, cond.value), Plain(BoolText(answer)), CACHE_TTL))
    else (false, db)
  }

  /** The evaluator's recursion, threading the database through it. */
  function Eval(decode: Decoder, db: Db, cond: Condition): (bool, Db)
    decreases cond, 1
  {
    if cond.operator == "" then EvalLeaf(decode, db, cond) else EvalChildren(decode, db, cond.operator, cond.children)
  }

  function EvalChildren(decode: Decoder, db: Db, operator: string, children: seq<Condition>): (bool, Db)
    decreases children, 0
  {
    if children == [] then (operator == "AND", db)
    else
      var (first, db') := Eval(decode, db, children[0]);
      if operator == "AND" && !first then (false, db')
      else if operator == "OR" && first then (true, db')
      else EvalChildren(decode, db', operator, children[1..])
  }

  /** Undecodable conditions are false. */
  function EvalOpt(decode: Decoder, db: Db, cond: Option<Condition>): (bool, Db) {
    match cond
    case None => (false, db)
    case Some(c) => Eval(decode, db, c)
  }

  method EvaluateCondition(redis: Client, decode: Decoder, cond: Condition) returns (result: bool)
    modifies redis
    ensures (result, redis.db) == Eval(decode, old(redis.db), cond)
    decreases cond
  {
    if cond.operator == "" {
      if cond.kind == "sensor" || cond.kind == "device" {
        var state := StateOf(redis.db, cond.deviceId);
        match decode(cond.value) {
          case None => return false;
          case Some(expected) => return CompareValues(Field(state, cond.key), cond.op, expected);
        }
      } else if cond.kind == "time" {
        var cacheKey := CacheKey(cond.op, cond.value);
        var cached := PlainAt(redis.db, cacheKey);
        if cached != "" {
          return cached == "true";
        }
        match decode(cond.value) {
          case None => return false;
          case Some(expected) =>
            result := CompareClock(MinuteOfDay(redis.db.now), cond.op, expected);
            redis.db := redis.db.Put(cacheKey, Plain(BoolText(result)), CACHE_TTL);
            return;
        }
      }
      return false;
    }
    for i := 0 to |cond.children|
      invariant EvalChildren(decode, redis.db, cond.operator, cond.children[i..]) == Eval(decode, old(redis.db), cond)
    {
      assert cond.children[i..][1..] == cond.children[i + 1..];
      var childResult := EvaluateCondition(redis, decode, cond.children[i]);
      if cond.operator == "AND" && !childResult {
        return false;
      }
      if cond.operator == "OR" && childResult {
        return true;
      }
    }
    return cond.operator == "AND";
  }

  method EvaluateConditions(redis: Client, decode: Decoder, conditions: Option<Condition>) returns (result: bool)
    modifies redis
    ensures (result, redis.db) == EvalOpt(decode, old(redis.db), conditions)
  {
    match conditions {
      case None => result := false;
      case Some(cond) => result := EvaluateCondition(redis, decode, cond);
    }
  }

  // ---- What evaluation means at one instant ----

  /** The answer to a time leaf right now: the cached one, else the direct comparison. */
  predicate ClockNow(decode: Decoder, db: Db, op: string, value: seq<Byte>) {
    match CachedAnswer(db, op, value)
    case Some(answer) => answer
    case None => ClockAt(decode, MinuteOfDay(db.now), op, value)
  }

  /** The world evaluation sees at this instant. */
  function WorldNow(decode: Decoder, db: Db): World {
    World(decode, d => StateOf(db, d), (op, value) => ClockNow(decode, db, op, value))
  }

  /** The rule is enabled and its tree is true in the world of this instant. */
  predicate Triggers(decode: Decoder, db: Db, rule: Rule) {
    rule.enabled && rule.conditions.Some? && Truth(WorldNow(decode, db), rule.conditions.value)
  }

  /** Filling the cache does not change the world at the same instant, nor anything stored
      outside the time cache. */
  ghost predicate SameInstant(decode: Decoder, db: Db, db': Db) {
    && db'.now == db.now
    && (forall d :: StateOf(db', d) == StateOf(db, d))
    && (forall op, value :: ClockNow(decode, db', op, value) == ClockNow(decode, db, op, value))
    && (forall key | !HasPrefix(key, "time:") :: SameAt(db, db', key))
  }

  lemma {:induction false} EvalLeafIsTruth(decode: Decoder, db: Db, cond: Condition)
    requires cond.operator == ""
    ensures EvalLeaf(decode, db, cond).0 == Truth(WorldNow(decode, db), cond)
    ensures SameInstant(decode, db, EvalLeaf(decode, db, cond).1)
  {
    var db' := EvalLeaf(decode, db, cond).1;
    if db' != db {
      var key := CacheKey(cond.op, cond.value);
      assert forall k | k != key :: db'.Get(k) == db.Get(k);
      forall op, value ensures ClockNow(decode, db', op, value) == ClockNow(decode, db, op, value) {
        if CacheKey(op, value) == key {
          CacheKeyIsInjective(op, value, cond.op, cond.value);
        }
      }
      forall d ensures StateOf(db', d) == StateOf(db, d) {
        StateKeyIsNoCacheKey(d, cond.op, cond.value);
      }
      assert key[..5] == "time:";
    }
  }

  lemma {:induction false} SameInstantSameTruth(decode: Decoder, db: Db, db': Db, cond: Condition)
    requires SameInstant(decode, db, db')
    ensures Truth(WorldNow(decode, db'), cond) == Truth(WorldNow(decode, db), cond)
  {
    SameAnswersSameLeaves(WorldNow(decode, db'), WorldNow(decode, db), cond);
    TruthFromLeaves(WorldNow(decode, db'), WorldNow(decode, db), cond);
  }

  lemma {:induction false} SameAnswersSameLeaves(w: World, v: World, cond: Condition)
    requires w.decode == v.decode && forall d :: w.states(d) == v.states(d)
    requires forall op, value :: w.clock(op, value) == v.clock(op, value)
    ensures SameLeaves(w, v, cond)
  {
    if cond.operator != "" {
      forall c | c in cond.children ensures SameLeaves(w, v, c) {
        SameAnswersSameLeaves(w, v, c);
      }
    }
  }

  /** Short-circuit evaluation through the cache computes the meaning of the tree in the world of
      that instant, and leaves that world as it was, so nothing depends on evaluation order. */
  lemma {:induction false} EvalIsTruth(decode: Decoder, db: Db, cond: Condition)
    ensures Eval(decode, db, cond).0 == Truth(WorldNow(decode, db), cond)
    ensures SameInstant(decode, db, Eval(decode, db, cond).1)
    decreases cond, 1
  {
    if cond.operator == "" {
      EvalLeafIsTruth(decode, db, cond);
    } else {
      EvalChildrenIsTruth(decode, db, cond.operator, cond.children);
    }
  }

  lemma {:induction false} EvalChildrenIsTruth(decode: Decoder, db: Db, operator: string, children: seq<Condition>)
    ensures var w := WorldNow(decode, db);
            EvalChildren(decode, db, operator, children).0 ==
            if operator == "AND" then forall c | c in children :: Truth(w, c)
            else operator == "OR" && exists c | c in children :: Truth(w, c)
    ensures SameInstant(decode, db, EvalChildren(decode, db, operator, children).1)
    decreases children, 0
  {
    if children != [] {
      var db' := Eval(decode, db, children[0]).1;
      var w, w' := WorldNow(decode, db), WorldNow(decode, db');
      EvalIsTruth(decode, db, children[0]);
      EvalChildrenIsTruth(decode, db', operator, children[1..]);
      forall c ensures Truth(w', c) == Truth(w, c) {
        SameInstantSameTruth(decode, db, db', c);
      }
      assert forall c :: c in children <==> c == children[0] || c in children[1..];
    }
  }

  /** The database after evaluating several trees, one after the other. */
  function EvalAll(decode: Decoder, db: Db, trees: seq<Condition>): Db {
    if trees == [] then db
    else Eval(decode, EvalAll(decode, db, trees[..|trees| - 1]), trees[|trees| - 1]).1
  }

  lemma {:induction false} EvalOneMore(decode: Decoder, db: Db, trees: seq<Condition>, tree: Condition)
    ensures EvalAll(decode, db, trees + [tree]) == Eval(decode, EvalAll(decode, db, trees), tree).1
  {
    assert (trees + [tree])[..|trees|] == trees;
  }

  lemma {:induction false} EvalAllOfSum(decode: Decoder, db: Db, first: seq<Condition>, more: seq<Condition>)
    ensures EvalAll(decode, db, first + more) == EvalAll(decode, EvalAll(decode, db, first), more)
  {
    if more == [] {
      assert first + more == first;
    } else {
      var n := |more| - 1;
      assert first + more == (first + more[..n]) + [more[n]];
      EvalAllOfSum(decode, db, first, more[..n]);
      EvalOneMore(decode, db, first + more[..n], more[n]);
    }
  }

  lemma {:induction false} EvalAllIsSameInstant(decode: Decoder, db: Db, trees: seq<Condition>)
    ensures SameInstant(decode, db, EvalAll(decode, db, trees))
  {
    if trees != [] {
      EvalAllIsSameInstant(decode, db, trees[..|trees| - 1]);
      EvalIsTruth(decode, EvalAll(decode, db, trees[..|trees| - 1]), trees[|trees| - 1]);
    }
  }

  // ---- What the cache holds, over time ----

  /** Every live cached answer is the direct comparison of that same leaf at the instant it was
      stored, at most sixty seconds ago. */
  ghost predicate CacheSound(decode: Decoder, db: Db) {
    forall op, value | db.Get(CacheKey(op, value)).Some? ::
      var e := db.Get(CacheKey(op, value)).value;
      && e.expiry.Some?
      && db.now - CACHE_TTL < e.expiry.value - CACHE_TTL <= db.now
      && e.data == Plain(BoolText(ClockAt(decode, MinuteOfDay(e.expiry.value - CACHE_TTL), op, value)))
  }

  /** Evaluation keeps the cache sound. */
  lemma {:induction false} EvalKeepsCacheSound(decode: Decoder, db: Db, cond: Condition)
    requires CacheSound(decode, db)
    ensures CacheSound(decode, Eval(decode, db, cond).1)
    decreases cond, 1
  {
    if cond.operator == "" {
      LeafKeepsCacheSound(decode, db, cond);
    } else {
      ChildrenKeepCacheSound(decode, db, cond.operator, cond.children);
    }
  }

  lemma {:induction false} LeafKeepsCacheSound(decode: Decoder, db: Db, cond: Condition)
    requires CacheSound(decode, db) && cond.operator == ""
    ensures CacheSound(decode, EvalLeaf(decode, db, cond).1)
  {
    var db' := EvalLeaf(decode, db, cond).1;
    forall op, value | db'.Get(CacheKey(op, value)).Some? && CacheKey(op, value) == CacheKey(cond.op, cond.value)
      ensures op == cond.op && value == cond.value
    {
      CacheKeyIsInjective(op, value, cond.op, cond.value);
    }
  }

  lemma {:induction false} ChildrenKeepCacheSound(decode: Decoder, db: Db, operator: string, children: seq<Condition>)
    requires CacheSound(decode, db)
    ensures CacheSound(decode, EvalChildren(decode, db, operator, children).1)
    decreases children, 0
  {
    if children != [] {
      EvalKeepsCacheSound(decode, db, children[0]);
      ChildrenKeepCacheSound(decode, Eval(decode, db, children[0]).1, operator, children[1..]);
    }
  }

  lemma {:induction false} EvalAllKeepsCacheSound(decode: Decoder, db: Db, trees: seq<Condition>)
    requires CacheSound(decode, db)
    ensures CacheSound(decode, EvalAll(decode, db, trees))
  {
    if trees != [] {
      EvalAllKeepsCacheSound(decode, db, trees[..|trees| - 1]);
      EvalKeepsCacheSound(decode, EvalAll(decode, db, trees[..|trees| - 1]), trees[|trees| - 1]);
    }
  }

  /** Time passing keeps the cache sound: answers older than sixty seconds have expired. */
  lemma {:induction false} TimeKeepsCacheSound(decode: Decoder, db: Db, later: int)
    requires CacheSound(decode, db) && db.now <= later
    ensures CacheSound(decode, db.(now := later))
  {
    assert forall k :: db.(now := later).Get(k).Some? ==> db.Get(k) == db.(now := later).Get(k);
  }

  /** Operations that leave the time cache alone keep it sound. */
  lemma {:induction false} FrameKeepsCacheSound(decode: Decoder, db: Db, db': Db)
    requires CacheSound(decode, db) && db'.now == db.now
    requires forall key | HasPrefix(key, "time:") :: SameAt(db, db', key)
    ensures CacheSound(decode, db')
  {
    forall op, value ensures db'.Get(CacheKey(op, value)) == db.Get(CacheKey(op, value)) {
      assert CacheKey(op, value)[..5] == "time:";
      assert SameAt(db, db', CacheKey(op, value));
    }
  }

  // ---- Cached evaluation refines direct evaluation ----

  /** The sixty seconds up to now stay within one day and touch no extracted boundary minute. */
  predicate QuietWindow(decode: Decoder, now: int, cond: Condition) {
    var from := now - CACHE_TTL + 1;
    from / DAY_MS == now / DAY_MS && !Crosses(Boundaries(decode, cond), MinuteOfDay(from), MinuteOfDay(now))
  }

  lemma {:induction false} WindowMinutes(now: int, t: int)
    requires now - CACHE_TTL < t <= now && (now - CACHE_TTL + 1) / DAY_MS == now / DAY_MS
    ensures MinuteOfDay(now - CACHE_TTL + 1) <= MinuteOfDay(t) <= MinuteOfDay(now)
  {
    var from := now - CACHE_TTL + 1;
    assert t / DAY_MS == now / DAY_MS;
    assert from % DAY_MS <= t % DAY_MS <= now % DAY_MS;
  }

  lemma {:induction false} QuietLeaves(decode: Decoder, db: Db, w: World, cond: Condition, minutes: set<int>)
    requires CacheSound(decode, db) && Covered(decode, cond, minutes)
    requires var from := db.now - CACHE_TTL + 1;
             from / DAY_MS == db.now / DAY_MS && !Crosses(minutes, MinuteOfDay(from), MinuteOfDay(db.now))
    requires w.decode == decode && forall d :: w.states(d) == StateOf(db, d)
    requires forall op, value :: w.clock(op, value) == ClockAt(decode, MinuteOfDay(db.now), op, value)
    ensures SameLeaves(WorldNow(decode, db), w, cond)
  {
    if cond.operator != "" {
      forall c | c in cond.children ensures SameLeaves(WorldNow(decode, db), w, c) {
        QuietLeaves(decode, db, w, c, minutes);
      }
    } else if IsTimeLeaf(cond) {
      var e := db.Get(CacheKey(cond.op, cond.value));
      if e.Some? {
        var t := e.value.expiry.value - CACHE_TTL;
        WindowMinutes(db.now, t);
        LeafIsConstant(decode, MinuteOfDay(t), MinuteOfDay(db.now), cond, minutes);
      }
    }
  }

  /** The world without any cache, at the instant of the database. */
  function WorldDirect(decode: Decoder, db: Db): World {
    WorldAt(decode, d => StateOf(db, d), MinuteOfDay(db.now))
  }

  /** Evaluating a tree that its boundaries cover, through a sound cache, gives the uncached answer
      whenever the last sixty seconds were quiet. */
  lemma {:induction false} CachedRefinesDirect(decode: Decoder, db: Db, cond: Condition)
    requires CacheSound(decode, db) && QuietWindow(decode, db.now, cond)
    requires Covered(decode, cond, Boundaries(decode, cond))
    ensures Eval(decode, db, cond).0 == Truth(WorldDirect(decode, db), cond)
  {
    var w := WorldDirect(decode, db);
    EvalIsTruth(decode, db, cond);
    QuietLeaves(decode, db, w, cond, Boundaries(decode, cond));
    TruthFromLeaves(WorldNow(decode, db), w, cond);
  }

  /** In every sound and quiet situation the cache answers each leaf as the clock does. */
  ghost predicate CacheAnswersDirectly(decode: Decoder, cond: Condition) {
    forall db | CacheSound(decode, db) && QuietWindow(decode, db.now, cond) ::
      SameLeaves(WorldNow(decode, db), WorldDirect(decode, db), cond)
  }

  /** That condition is exact: for any other tree, some quiet window has a stale leaf. */
  lemma {:induction false} CacheAnswersDirectlyIff(decode: Decoder, cond: Condition)
    ensures CacheAnswersDirectly(decode, cond) <==> Covered(decode, cond, Boundaries(decode, cond))
  {
    var minutes := Boundaries(decode, cond);
    if Covered(decode, cond, minutes) {
      forall db | CacheSound(decode, db) && QuietWindow(decode, db.now, cond)
        ensures SameLeaves(WorldNow(decode, db), WorldDirect(decode, db), cond)
      {
        QuietLeaves(decode, db, WorldDirect(decode, db), cond, minutes);
      }
    } else {
      var from, op, value := UncoveredLeaf(decode, cond, minutes);
      var now := (from + 1) * MINUTE_MS;
      var db := OneAnswer(decode, now, op, value);
      NextMinute(from);
      OneAnswerIsSound(decode, now, op, value);
      assert !SameLeaves(WorldNow(decode, db), WorldDirect(decode, db), cond) by {
        assert WorldNow(decode, db).clock(op, value) != WorldDirect(decode, db).clock(op, value);
      }
    }
  }

  lemma {:induction false} NextMinute(from: nat)
    requires from + 1 < 1440
    ensures var now := (from + 1) * MINUTE_MS;
            && MinuteOfDay(now) == from + 1 && MinuteOfDay(now - 1) == MinuteOfDay(now - CACHE_TTL + 1) == from
            && (now - CACHE_TTL + 1) / DAY_MS == now / DAY_MS
  {
  }

  /** Redis holding just the answer to one leaf, a millisecond old. */
  function OneAnswer(decode: Decoder, now: int, op: string, value: seq<Byte>): Db {
    var answer := BoolText(ClockAt(decode, MinuteOfDay(now - 1), op, value));
    Db(map[CacheKey(op, value) := Entry(Plain(answer), Some(now - 1 + CACHE_TTL))], now)
  }

  lemma {:induction false} OneAnswerIsSound(decode: Decoder, now: int, op: string, value: seq<Byte>)
    ensures var db := OneAnswer(decode, now, op, value);
            && CacheSound(decode, db)
            && CachedAnswer(db, op, value) == Some(ClockAt(decode, MinuteOfDay(now - 1), op, value))
  {
    var db := OneAnswer(decode, now, op, value);
    forall op', value' | db.Get(CacheKey(op', value')).Some? ensures op' == op && value' == value {
      CacheKeyIsInjective(op, value, op', value');
    }
  }

  // ---- At a boundary ----

  function MinuteStart(now: int): int { now - now % MINUTE_MS }

  /** The answer to the leaf is another one than in the minute before. */
  predicate ChangesThisMinute(decode: Decoder, now: int, cond: Condition) {
    var minute := MinuteOfDay(now);
    ClockAt(decode, MinuteBefore(minute), cond.op, cond.value) != ClockAt(decode, minute, cond.op, cond.value)
  }

  /** A live cached answer was stored before this minute began. */
  predicate HoldsOldAnswer(db: Db, cond: Condition) {
    match db.Get(CacheKey(cond.op, cond.value))
    case Some(Entry(_, Some(expiry))) => expiry - CACHE_TTL < MinuteStart(db.now)
    case _ => false
  }

  /** No time leaf below the compound nodes has both changed its answer in this minute and an answer
      from before it in the cache. */
  predicate NoStaleLeaf(decode: Decoder, db: Db, cond: Condition) {
    if cond.operator == "" then
      IsTimeLeaf(cond) && ChangesThisMinute(decode, db.now, cond) ==> !HoldsOldAnswer(db, cond)
    else forall c | c in cond.children :: NoStaleLeaf(decode, db, c)
  }

  /** Through a sound cache, at any instant, the boundary's own minute included, the leaves of a tree
      are answered as by the clock if and only if none of them is stale. */
  lemma {:induction false} DirectIffNoStaleLeaf(decode: Decoder, db: Db, cond: Condition)
    requires CacheSound(decode, db)
    ensures SameLeaves(WorldNow(decode, db), WorldDirect(decode, db), cond) <==> NoStaleLeaf(decode, db, cond)
  {
    if cond.operator != "" {
      forall c | c in cond.children
        ensures SameLeaves(WorldNow(decode, db), WorldDirect(decode, db), c) <==> NoStaleLeaf(decode, db, c)
      {
        DirectIffNoStaleLeaf(decode, db, c);
      }
    } else if IsTimeLeaf(cond) {
      var stored := db.Get(CacheKey(cond.op, cond.value));
      if stored.Some? {
        ThisMinuteOrLast(db.now, stored.value.expiry.value - CACHE_TTL);
      }
    }
  }

  /** So a tree without a stale leaf is evaluated right; a single leaf is only then. */
  lemma {:induction false} BoundaryAnswerIff(decode: Decoder, db: Db, cond: Condition)
    requires CacheSound(decode, db)
    ensures NoStaleLeaf(decode, db, cond) ==> Eval(decode, db, cond).0 == Truth(WorldDirect(decode, db), cond)
    ensures cond.operator == "" && Eval(decode, db, cond).0 == Truth(WorldDirect(decode, db), cond) ==>
            NoStaleLeaf(decode, db, cond)
  {
    EvalIsTruth(decode, db, cond);
    DirectIffNoStaleLeaf(decode, db, cond);
    if NoStaleLeaf(decode, db, cond) {
      TruthFromLeaves(WorldNow(decode, db), WorldDirect(decode, db), cond);
    }
  }

  lemma {:induction false} ThisMinuteOrLast(now: int, t: int)
    requires now - CACHE_TTL < t <= now
    ensures MinuteOfDay(t) == if t >= MinuteStart(now) then MinuteOfDay(now) else MinuteBefore(MinuteOfDay(now))
  {
    MinuteOfMinutes(t);
    MinuteOfMinutes(now);
    assert t / MINUTE_MS == if t >= MinuteStart(now) then now / MINUTE_MS else now / MINUTE_MS - 1;
  }

  lemma {:induction false} MinuteOfMinutes(t: int)
    ensures MinuteOfDay(t) == t / MINUTE_MS % 1440
  {
    var days, rest := t / DAY_MS, t % DAY_MS;
    assert t / MINUTE_MS == 1440 * days + rest / MINUTE_MS;
  }

  /** An answer sticks: the same leaf evaluated again within sixty seconds gives the answer of the
      first time, whatever the clock says by then; later it is compared with the clock again. */
  lemma {:induction false} AnswersStick(decode: Decoder, db: Db, cond: Condition, ms: nat)
    requires IsTimeLeaf(cond) && decode(cond.value).Some? && db.Get(CacheKey(cond.op, cond.value)).None?
    ensures var later := Eval(decode, db, cond).1.(now := db.now + ms);
            Eval(decode, later, cond).0 ==
            ClockAt(decode, MinuteOfDay(if ms < 60_000 then db.now else db.now + ms), cond.op, cond.value)
  {
  }

  // ---- What evaluation reads ----

  /** The clock, from local midnight: at this instant it shows hour h and minute m. */
  lemma {:induction false} MinuteOfInstant(day: int, h: nat, m: nat, rest: nat)
    requires h < 24 && m < 60 && rest < 60_000
    ensures MinuteOfDay(86_400_000 * day + 3_600_000 * h + 60_000 * m + rest) == 60 * h + m
  {
    var now, minutes := 86_400_000 * day + 3_600_000 * h + 60_000 * m + rest, 1440 * day + 60 * h + m;
    assert now == 60_000 * minutes + rest;
    assert now / MINUTE_MS == minutes;
    MinuteOfMinutes(now);
  }

  /** A time leaf with the clock text of H:M, evaluated at h:m with no stale answer in the cache,
      compares h:m with H:M. */
  lemma {:induction false} TimeLeafReadsClock(decode: Decoder, db: Db, leaf: Condition, s: string, H: nat, M: nat,
                                              day: int, h: nat, m: nat, rest: nat)
    requires leaf.operator == "" && leaf.kind == "time" && decode(leaf.value) == Some(Str(s))
    requires H < 24 && M < 60 && IsClockText(s, H, M) && h < 24 && m < 60 && rest < 60_000
    requires db.now == 86_400_000 * day + 3_600_000 * h + 60_000 * m + rest
    requires CacheSound(decode, db) && NoStaleLeaf(decode, db, leaf)
    ensures Eval(decode, db, leaf).0 <==>
            if leaf.op == "==" then h == H && m == M
            else if leaf.op == "!=" then h != H || m != M
            else if leaf.op == "<" then h < H || (h == H && m < M)
            else leaf.op == ">" && (h > H || (h == H && m > M))
  {
    BoundaryAnswerIff(decode, db, leaf);
    MinuteOfInstant(day, h, m, rest);
    ClockLeafMeans(decode, d => StateOf(db, d), leaf, s, H, M, h, m);
  }

  /** The same through a quiet window: for a tree its boundaries cover, no stale answer is left. */
  lemma {:induction false} QuietLeavesAreFresh(decode: Decoder, db: Db, cond: Condition)
    requires CacheSound(decode, db) && QuietWindow(decode, db.now, cond)
    requires Covered(decode, cond, Boundaries(decode, cond))
    ensures NoStaleLeaf(decode, db, cond)
  {
    QuietLeaves(decode, db, WorldDirect(decode, db), cond, Boundaries(decode, cond));
    DirectIffNoStaleLeaf(decode, db, cond);
  }

  /** A device leaf, of either kind, reads the stored state of its device and no clock. */
  lemma {:induction false} DeviceLeafReadsState(decode: Decoder, db: Db, fields: map<string, Value>,
                                                clock: (string, seq<Byte>) -> bool,
                                                kind: string, device: string, key: string, op: string, value: seq<Byte>)
    requires (kind == "sensor" || kind == "device") && StateOf(db, device) == fields
    ensures var leaf := DeviceLeaf(kind, device, key, op, value);
            Eval(decode, db, leaf).0 == Truth(World(decode, _ => fields, clock), leaf)
  {
    EvalIsTruth(decode, db, DeviceLeaf(kind, device, key, op, value));
  }
}
