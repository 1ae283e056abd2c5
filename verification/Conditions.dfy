/** Condition trees, what they mean, and what that meaning depends on. */
module Conditions {
  import opened Text
  import opened Json

  /** One node: a leaf when operator is empty, a compound otherwise. */
  datatype Condition = Condition(
    kind: string,
    deviceId: string,
    key: string,
    op: string,
    value: seq<Byte>,
    operator: string,
    children: seq<Condition>)

  /** Comparison of decoded values; Null stands for an absent one. */
  predicate CompareValues(actual: Value, op: string, expected: Value) {
    match (actual, expected)
    case (Number(a), Number(e)) =>
      (op == ">" && a > e) || (op == "<" && a < e) || (op == "==" && a == e) || (op == "!=" && a != e)
    case (Str(a), Str(e)) => (op == "==" && a == e) || (op == "!=" && a != e)
    case (Bool(a), Bool(e)) => (op == "==" && a == e) || (op == "!=" && a != e)
    case _ => false
  }

  /** The minute of the day that Go's time.Parse reads with layout "15:04": one or two hour
      digits, a colon, two minute digits, and nothing else. */
  function ParseClock(s: string): (m: Option<nat>)
    ensures m.Some? ==> m.value < 1440
  {
    var h := if |s| >= 2 && IsDigit(s[1]) then 2 else 1;
    if |s| == h + 3 && AllDigits(s[..h]) && s[h] == ':' && AllDigits(s[h + 1..])
       && NumberOf(s[..h]) < 24 && NumberOf(s[h + 1..]) < 60
    then Some(NumberOf(s[..h]) * 60 + NumberOf(s[h + 1..]))
    else None
  }

  /** Comparison of the current minute of the day with an expected clock text. */
  predicate CompareClock(minute: int, op: string, expected: Value) {
    expected.Str? &&
    match ParseClock(expected.s)
    case None => false
    case Some(e) =>
      || (op == ">" && minute > e) || (op == "<" && minute < e)
      || (op == "==" && minute == e) || (op == "!=" && minute != e)
  }

  /** Everything outside the tree that its truth can depend on: the codec, the state fields of
      each device, and the answer to each time leaf. */
  datatype World = World(
    decode: Decoder,
    states: string -> map<string, Value>,
    clock: (string, seq<Byte>) -> bool)

  predicate IsDeviceLeaf(cond: Condition) {
    cond.operator == "" && (cond.kind == "sensor" || cond.kind == "device")
  }

  predicate IsTimeLeaf(cond: Condition) {
    cond.operator == "" && cond.kind == "time"
  }

  predicate LeafHolds(w: World, cond: Condition) {
    if IsDeviceLeaf(cond) then
      match w.decode(cond.value)
      case None => false
      case Some(expected) => CompareValues(Field(w.states(cond.deviceId), cond.key), cond.op, expected)
    else
      IsTimeLeaf(cond) && w.clock(cond.op, cond.value)
  }

  /** What a tree means: AND is "every child", OR is "some child", any other operator is false. */
  predicate Truth(w: World, cond: Condition) {
    if cond.operator == "" then LeafHolds(w, cond)
    else if cond.operator == "AND" then forall c | c in cond.children :: Truth(w, c)
    else cond.operator == "OR" && exists c | c in cond.children :: Truth(w, c)
  }

  /** Both worlds answer every leaf below the compound nodes alike. */
  ghost predicate SameLeaves(w: World, v: World, cond: Condition) {
    if cond.operator == "" then LeafHolds(w, cond) == LeafHolds(v, cond)
    else forall c | c in cond.children :: SameLeaves(w, v, c)
  }

  lemma {:induction false} TruthFromLeaves(w: World, v: World, cond: Condition)
    requires SameLeaves(w, v, cond)
    ensures Truth(w, cond) == Truth(v, cond)
  {
    if cond.operator != "" {
      forall c | c in cond.children ensures Truth(w, c) == Truth(v, c) {
        TruthFromLeaves(w, v, c);
      }
    }
  }

  // ---- What leaves and compound nodes mean ----

  /** The leaf, read as a device condition of either kind, with a given operator. */
  function DeviceLeaf(kind: string, device: string, key: string, op: string, value: seq<Byte>): Condition {
    Condition(kind, device, key, op, value, "", [])
  }

  /** A numeric device condition, of both kinds: the operators are the order of the numbers. */
  lemma {:induction false} NumberLeafMeans(w: World, kind: string, device: string, key: string, op: string,
                                           value: seq<Byte>, e: real)
    requires (kind == "sensor" || kind == "device") && w.decode(value) == Some(Number(e))
    ensures var state := w.states(device);
            Truth(w, DeviceLeaf(kind, device, key, op, value)) <==>
            key in state && state[key].Number? &&
            var a := state[key].n;
            if op == "<" then a < e else if op == ">" then a > e
            else if op == "==" then a == e else op == "!=" && a != e
  {
  }

  /** A text or truth value: equality and its complement, and no order. */
  lemma {:induction false} PlainLeafMeans(w: World, kind: string, device: string, key: string, op: string,
                                          value: seq<Byte>, e: Value)
    requires (kind == "sensor" || kind == "device") && w.decode(value) == Some(e) && (e.Str? || e.Bool?)
    ensures var state := w.states(device);
            Truth(w, DeviceLeaf(kind, device, key, op, value)) <==>
            key in state && (state[key].Str? <==> e.Str?) && (state[key].Bool? <==> e.Bool?)
            && if op == "==" then state[key] == e else op == "!=" && state[key] != e
  {
  }

  /** No operator holds of values of different types, of nulls, arrays and objects, of a missing
      field, or of a leaf of another kind. */
  lemma {:induction false} OtherLeavesAreFalse(w: World, leaf: Condition, e: Value)
    requires leaf.operator == "" && leaf.kind != "time" && w.decode(leaf.value) == Some(e)
    ensures var state := w.states(leaf.deviceId);
            && (leaf.kind != "sensor" && leaf.kind != "device" ==> !Truth(w, leaf))
            && (leaf.key !in state ==> !Truth(w, leaf))
            && (e.Null? || e.Array? || e.Object? ==> !Truth(w, leaf))
            && (leaf.key in state && !SameType(state[leaf.key], e) ==> !Truth(w, leaf))
  {
  }

  predicate SameType(a: Value, b: Value) {
    && (a.Number? <==> b.Number?) && (a.Str? <==> b.Str?) && (a.Bool? <==> b.Bool?)
  }

  /** On one number, exactly one of "<", "==" and ">" holds; "!=" holds when "==" does not; and when
      the number grows, ">" stays true and "<" stays false. */
  lemma {:induction false} NumberLeafLaws(w: World, v: World, kind: string, device: string, key: string,
                                          value: seq<Byte>, e: real)
    requires (kind == "sensor" || kind == "device") && w.decode(value) == v.decode(value) == Some(Number(e))
    requires key in w.states(device) && w.states(device)[key].Number?
    requires key in v.states(device) && v.states(device)[key].Number?
    ensures var less, same, more :=
              Truth(w, DeviceLeaf(kind, device, key, "<", value)), Truth(w, DeviceLeaf(kind, device, key, "==", value)),
              Truth(w, DeviceLeaf(kind, device, key, ">", value));
            && (less || same || more) && !(less && same) && !(same && more) && !(less && more)
            && (Truth(w, DeviceLeaf(kind, device, key, "!=", value)) <==> !same)
            && (w.states(device)[key].n <= v.states(device)[key].n ==>
                  && (more ==> Truth(v, DeviceLeaf(kind, device, key, ">", value)))
                  && (!less ==> !Truth(v, DeviceLeaf(kind, device, key, "<", value))))
  {
  }

  function Compound(operator: string, children: seq<Condition>): Condition {
    Condition("", "", "", "", [], operator, children)
  }

  /** "AND" and "OR" of joined lists are the conjunction and the disjunction of the parts; without
      children they are true and false; of one child they are that child; nothing else is true. */
  lemma {:induction false} CompoundLaws(w: World, a: seq<Condition>, b: seq<Condition>, c: Condition, operator: string)
    ensures Truth(w, Compound("AND", a + b)) <==> Truth(w, Compound("AND", a)) && Truth(w, Compound("AND", b))
    ensures Truth(w, Compound("OR", a + b)) <==> Truth(w, Compound("OR", a)) || Truth(w, Compound("OR", b))
    ensures Truth(w, Compound("AND", [])) && !Truth(w, Compound("OR", []))
    ensures (Truth(w, Compound("AND", [c])) <==> Truth(w, c)) && (Truth(w, Compound("OR", [c])) <==> Truth(w, c))
    ensures operator !in {"", "AND", "OR"} ==> !Truth(w, Compound(operator, a))
  {
    assert c in [c];
    assert forall x :: x in a + b <==> x in a || x in b;
  }

  /** The two-digit text of a number below a hundred. */
  function Padded(n: nat): string
    requires n < 100
  {
    [('0' as int + n / 10) as char, ('0' as int + n % 10) as char]
  }

  /** The clock texts: two digits each for hour and minute, the hour also with one; nothing else. */
  lemma {:induction false} ParseClockIff(s: string, m: nat)
    ensures ParseClock(s) == Some(m) <==>
            exists h, mm | 0 <= h < 24 && 0 <= mm < 60 :: m == 60 * h + mm && IsClockText(s, h, mm)
  {
    if h, mm :| 0 <= h < 24 && 0 <= mm < 60 && m == 60 * h + mm && IsClockText(s, h, mm) {
      ClockTextParses(s, h, mm);
    }
    if ParseClock(s) == Some(m) {
      var k := if |s| >= 2 && IsDigit(s[1]) then 2 else 1;
      var h, mm := NumberOf(s[..k]), NumberOf(s[k + 1..]);
      ShortDigits(s[..k]);
      ShortDigits(s[k + 1..]);
      assert s == s[..k] + ":" + s[k + 1..];
      assert IsClockText(s, h, mm);
    }
  }

  predicate IsClockText(s: string, h: nat, mm: nat)
    requires h < 24 && mm < 60
  {
    s == Padded(h) + ":" + Padded(mm) || (h < 10 && s == Padded(h)[1..] + ":" + Padded(mm))
  }

  lemma {:induction false} ClockTextParses(s: string, h: nat, mm: nat)
    requires h < 24 && mm < 60 && IsClockText(s, h, mm)
    ensures ParseClock(s) == Some(60 * h + mm)
  {
    var k := |s| - 3;
    assert s[..k] == if k == 2 then Padded(h) else Padded(h)[1..];
    assert s[k + 1..] == Padded(mm) && s[k] == ':';
    TwoDigitNumber(h / 10, h % 10);
    TwoDigitNumber(mm / 10, mm % 10);
  }

  /** One or two digits are the padded text of their number, or its second half. */
  lemma {:induction false} ShortDigits(s: string)
    requires AllDigits(s) && 1 <= |s| <= 2
    ensures NumberOf(s) < 100
    ensures s == if |s| == 2 then Padded(NumberOf(s)) else Padded(NumberOf(s))[1..]
    ensures |s| == 1 ==> NumberOf(s) < 10
  {
    var last := s[|s| - 1];
    assert IsDigit(last);
    if |s| == 2 {
      assert IsDigit(s[0]) && s[..1][..0] == [];
      TwoDigitNumber(DigitValue(s[0]), DigitValue(last));
    } else {
      assert s[..0] == [];
    }
  }

  /** The device IDs written anywhere in the tree, compound nodes included. */
  function Devices(cond: Condition): (ids: set<string>)
    decreases cond, 1
  {
    (if cond.deviceId == "" then {} else {cond.deviceId}) + DevicesOf(cond.children)
  }

  function DevicesOf(conds: seq<Condition>): (ids: set<string>)
    decreases conds, 0
  {
    if conds == [] then {} else Devices(conds[0]) + DevicesOf(conds[1..])
  }

  lemma {:induction false} ChildDevices(conds: seq<Condition>, c: Condition)
    requires c in conds
    ensures Devices(c) <= DevicesOf(conds)
  {
    if c != conds[0] {
      ChildDevices(conds[1..], c);
    }
  }

  /** Evaluation depends on a device only if the tree names it: worlds that differ in the state
      of one other, non-empty device ID answer every leaf alike. */
  lemma {:induction false} UnnamedDeviceIsIrrelevant(w: World, v: World, cond: Condition, device: string)
    requires w.decode == v.decode && forall op, value :: w.clock(op, value) == v.clock(op, value)
    requires forall d | d != device :: w.states(d) == v.states(d)
    requires device != "" && device !in Devices(cond)
    ensures SameLeaves(w, v, cond)
  {
    if cond.operator != "" {
      forall c | c in cond.children ensures SameLeaves(w, v, c) {
        ChildDevices(cond.children, c);
        UnnamedDeviceIsIrrelevant(w, v, c, device);
      }
    }
  }

  // ---- Which devices a tree names ----

  /** node is the root of the tree or anywhere below it. */
  ghost predicate Within(node: Condition, cond: Condition) {
    node == cond || exists c | c in cond.children :: Within(node, c)
  }

  /** Exactly the non-empty IDs of the nodes, leaves and compounds alike. */
  lemma {:induction false} DevicesIff(cond: Condition, device: string)
    ensures device in Devices(cond) <==> device != "" && exists node :: Within(node, cond) && node.deviceId == device
    decreases cond, 1
  {
    DevicesOfIff(cond.children, device);
    if device != "" && cond.deviceId == device {
      assert Within(cond, cond);
    }
    if c :| c in cond.children && device in Devices(c) {
      DevicesIff(c, device);
      var node :| Within(node, c) && node.deviceId == device;
      assert Within(node, cond);
    }
    if node :| Within(node, cond) && node.deviceId == device && node != cond {
      var c :| c in cond.children && Within(node, c);
      DevicesIff(c, device);
    }
  }

  lemma {:induction false} DevicesOfIff(conds: seq<Condition>, device: string)
    ensures device in DevicesOf(conds) <==> exists c | c in conds :: device in Devices(c)
    decreases conds, 0
  {
    if conds != [] {
      DevicesOfIff(conds[1..], device);
      if c :| c in conds && device in Devices(c) {
        assert c == conds[0] || c in conds[1..];
      }
      assert conds[0] in conds && forall c | c in conds[1..] :: c in conds;
    }
  }
}
