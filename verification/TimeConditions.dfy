/** Time conditions: the boundaries extracted from a tree, the cron text made from them, and
    why watching the boundaries is enough. */
module TimeConditions {
  import opened Text
  import opened Json
  import opened Conditions

  const MAX_INT := 0x7FFF_FFFF_FFFF_FFFF

  datatype TimeCondition = TimeCondition(hour: nat, minute: nat, op: string)

  // ---- Go's fmt.Sscanf with format "%d:%d" ----

  /** Skipping white space fails at a newline. */
  function SkipSpace(s: string): Option<string> {
    if s == [] || !IsSpace(s[0]) then Some(s)
    else if s[0] == '\n' then None
    else SkipSpace(s[1..])
  }

  /** `%d`: white space, an optional sign, digits; the number has to fit 64 bits. */
  function ScanInt(s: string): Option<(int, string)> {
    match SkipSpace(s)
    case None => None
    case Some(t) =>
      var signed := t != [] && (t[0] == '+' || t[0] == '-');
      var u := if signed then t[1..] else t;
      var k := DigitRun(u);
      var n: int := NumberOf(u[..k]);
      var negative := signed && t[0] == '-';
      if k == 0 || n > MAX_INT + (if negative then 1 else 0) then None
      else Some((if negative then -n else n, u[k..]))
  }

  /** Hour and minute as the extractor reads them; what follows the minute is ignored. */
  function ReadClock(s: string): (r: Option<(nat, nat)>)
    ensures r.Some? ==> r.value.0 < 24 && r.value.1 < 60
  {
    match ScanInt(s)
    case None => None
    case Some((hour, rest)) =>
      if rest == [] || rest[0] != ':' then None
      else
        match ScanInt(rest[1..])
        case None => None
        case Some((minute, _)) =>
          if 0 <= hour < 24 && 0 <= minute < 60 then Some((hour, minute)) else None
  }

  lemma {:induction false} ScanPlainInt(digits: string, rest: string)
    requires digits != [] && AllDigits(digits) && NumberOf(digits) <= MAX_INT
    requires rest == [] || !IsDigit(rest[0])
    ensures ScanInt(digits + rest) == Some((NumberOf(digits), rest))
  {
    DigitRunOf(digits, rest);
    assert (digits + rest)[0] == digits[0];
    assert (digits + rest)[..|digits|] == digits && (digits + rest)[|digits|..] == rest;
  }

  lemma {:induction false} TwoDigits(s: string)
    requires AllDigits(s) && 1 <= |s| <= 2
    ensures NumberOf(s) < 100
  {
    assert NumberOf(s[..|s| - 1]) < 10 by {
      if |s| == 2 {
        assert NumberOf(s[..1][..0]) == 0;
      }
    }
  }

  /** Every text the comparison accepts is read by the extractor as the same minute of the day. */
  lemma {:induction false} ExtractorReadsWhatComparisonParses(s: string)
    requires ParseClock(s).Some?
    ensures ReadClock(s).Some?
    ensures ReadClock(s).value.0 * 60 + ReadClock(s).value.1 == ParseClock(s).value
  {
    var h := if |s| >= 2 && IsDigit(s[1]) then 2 else 1;
    TwoDigits(s[..h]);
    TwoDigits(s[h + 1..]);
    assert s == s[..h] + s[h..] && s[h..][1..] == s[h + 1..] == s[h + 1..] + [];
    ScanPlainInt(s[..h], s[h..]);
    ScanPlainInt(s[h + 1..], []);
  }

  /** The converse fails: the extractor accepts texts the comparison rejects. */
  lemma {:induction false} ExtractorReadsMore()
    ensures ReadClock("7:5 ").Some? && ParseClock("7:5 ").None?
  {
    var s := "7:5 ";
    assert s == "7" + ":5 " && ":5 "[1..] == "5" + " ";
    assert NumberOf("7"[..0]) == 0 && NumberOf("5"[..0]) == 0;
    ScanPlainInt("7", ":5 ");
    ScanPlainInt("5", " ");
  }

  predicate IsBlank(s: string) { forall c | c in s :: IsSpace(c) && c != '\n' }

  lemma {:induction false} BlanksAreSkipped(blanks: string, rest: string)
    requires IsBlank(blanks) && (rest == [] || !IsSpace(rest[0]))
    ensures SkipSpace(blanks + rest) == Some(rest)
  {
    if blanks == [] {
      assert blanks + rest == rest;
    } else {
      assert blanks[0] in blanks && (blanks + rest)[1..] == blanks[1..] + rest;
      BlanksAreSkipped(blanks[1..], rest);
    }
  }

  lemma {:induction false} ScanBlankInt(blanks: string, digits: string, rest: string)
    requires IsBlank(blanks) && digits != [] && AllDigits(digits) && NumberOf(digits) <= MAX_INT
    requires rest == [] || !IsDigit(rest[0])
    ensures ScanInt(blanks + digits + rest) == Some((NumberOf(digits), rest))
  {
    var text := digits + rest;
    assert text[0] == digits[0] && IsDigit(digits[0]) && !IsSpace(text[0]);
    BlanksAreSkipped(blanks, text);
    assert blanks + digits + rest == blanks + text;
    ScanPlainInt(digits, rest);
  }

  /** What the extractor reads: blanks before either number, any number of digits, and whatever
      follows the minute; out of range it reads nothing. */
  lemma {:induction false} ReadClockReads(before: string, hour: string, between: string, minute: string, rest: string)
    requires IsBlank(before) && IsBlank(between) && hour != [] && AllDigits(hour) && minute != [] && AllDigits(minute)
    requires NumberOf(hour) <= MAX_INT && NumberOf(minute) <= MAX_INT && (rest == [] || !IsDigit(rest[0]))
    ensures ReadClock(before + hour + (":" + (between + minute + rest))) ==
            if NumberOf(hour) < 24 && NumberOf(minute) < 60 then Some((NumberOf(hour), NumberOf(minute))) else None
  {
    var tail := ":" + (between + minute + rest);
    ScanBlankInt(before, hour, tail);
    assert tail[1..] == between + minute + rest;
    ScanBlankInt(between, minute, rest);
  }

  // ---- Extraction ----

  predicate Supported(op: string) { op == "==" || op == "<" || op == ">" }

  /** The clock in a node's raw value: null decodes to the empty Go string, other types fail. */
  function ReadValue(decode: Decoder, value: seq<Byte>): (r: Option<(nat, nat)>)
    ensures r.Some? ==> r.value.0 < 24 && r.value.1 < 60
  {
    match decode(value)
    case Some(Str(s)) => ReadClock(s)
    case _ => None
  }

  /** A time node the extractor gives up on, its children included. */
  predicate Unreadable(decode: Decoder, cond: Condition) {
    cond.kind == "time" && Supported(cond.op) && ReadValue(decode, cond.value).None?
  }

  function Extracted(decode: Decoder, cond: Condition): seq<TimeCondition>
    decreases cond, 1
  {
    if Unreadable(decode, cond) then []
    else OwnTime(decode, cond) + ExtractedOf(decode, cond.children)
  }

  function OwnTime(decode: Decoder, cond: Condition): seq<TimeCondition> {
    if cond.kind == "time" && Supported(cond.op) && !Unreadable(decode, cond) then
      var (hour, minute) := ReadValue(decode, cond.value).value;
      [TimeCondition(hour, minute, cond.op)]
    else []
  }

  function ExtractedOf(decode: Decoder, conds: seq<Condition>): seq<TimeCondition>
    decreases conds, 0
  {
    if conds == [] then []
    else ExtractedOf(decode, conds[..|conds| - 1]) + Extracted(decode, conds[|conds| - 1])
  }

  /** The recursive extractor, appending to the list it is given. */
  method ExtractTimeConditions(decode: Decoder, cond: Condition, found: seq<TimeCondition>)
    returns (all: seq<TimeCondition>)
    ensures all == found + Extracted(decode, cond)
    decreases cond
  {
    all := found;
    if cond.kind == "time" && (cond.op == "==" || cond.op == "<" || cond.op == ">") {
      match ReadValue(decode, cond.value) {
        case None => return;
        case Some((hour, minute)) =>
          all := all + [TimeCondition(hour, minute, cond.op)];
      }
    }
    ghost var base := all;
    assert base == found + OwnTime(decode, cond) && !Unreadable(decode, cond);
    for i := 0 to |cond.children|
      invariant all == base + ExtractedOf(decode, cond.children[..i])
    {
      all := ExtractTimeConditions(decode, cond.children[i], all);
      OneMoreChild(decode, cond.children, i);
      ConcatIsAssociative(base, ExtractedOf(decode, cond.children[..i]), Extracted(decode, cond.children[i]));
    }
    assert cond.children[..|cond.children|] == cond.children;
    ConcatIsAssociative(found, OwnTime(decode, cond), ExtractedOf(decode, cond.children));
  }

  lemma {:induction false} OneMoreChild(decode: Decoder, conds: seq<Condition>, i: nat)
    requires i < |conds|
    ensures ExtractedOf(decode, conds[..i + 1]) == ExtractedOf(decode, conds[..i]) + Extracted(decode, conds[i])
  {
    assert conds[..i + 1][..i] == conds[..i];
  }

  function MinuteOf(tc: TimeCondition): int { tc.hour * 60 + tc.minute }

  /** The minutes of the day a rule's schedules are placed at. */
  function Boundaries(decode: Decoder, cond: Condition): (minutes: set<int>) {
    set tc | tc in Extracted(decode, cond) :: MinuteOf(tc)
  }

  /** node is in the tree with no unreadable time node at or above it. */
  ghost predicate Visible(decode: Decoder, node: Condition, cond: Condition) {
    !Unreadable(decode, cond) && (node == cond || exists c | c in cond.children :: Visible(decode, node, c))
  }

  /** The node is a time condition the extractor places at this minute. */
  predicate PlacedAt(decode: Decoder, node: Condition, minute: int) {
    && node.kind == "time" && node.op in {"==", "<", ">"}
    && ReadValue(decode, node.value).Some?
    && var (h, m) := ReadValue(decode, node.value).value; minute == 60 * h + m
  }

  predicate Has(tcs: seq<TimeCondition>, minute: int) { exists tc | tc in tcs :: MinuteOf(tc) == minute }

  /** The boundaries of a tree are exactly the minutes of its visible time conditions. */
  lemma {:induction false} BoundariesIff(decode: Decoder, cond: Condition, minute: int)
    ensures minute in Boundaries(decode, cond) <==>
            exists node :: Visible(decode, node, cond) && PlacedAt(decode, node, minute)
  {
    ExtractedIff(decode, cond, minute);
  }

  lemma {:induction false} ExtractedIff(decode: Decoder, cond: Condition, minute: int)
    ensures Has(Extracted(decode, cond), minute) <==>
            exists node :: Visible(decode, node, cond) && PlacedAt(decode, node, minute)
    decreases cond, 1
  {
    ExtractedOfIff(decode, cond.children, minute);
    if !Unreadable(decode, cond) {
      HasInSum(OwnTime(decode, cond), ExtractedOf(decode, cond.children), minute);
      OwnIff(decode, cond, minute);
      if PlacedAt(decode, cond, minute) {
        assert Visible(decode, cond, cond);
      }
      if c :| c in cond.children && Has(Extracted(decode, c), minute) {
        ExtractedIff(decode, c, minute);
        var node :| Visible(decode, node, c) && PlacedAt(decode, node, minute);
        assert Visible(decode, node, cond);
      }
      if node :| Visible(decode, node, cond) && PlacedAt(decode, node, minute) && node != cond {
        var c :| c in cond.children && Visible(decode, node, c);
        ExtractedIff(decode, c, minute);
      }
    }
  }

  lemma {:induction false} OwnIff(decode: Decoder, cond: Condition, minute: int)
    requires !Unreadable(decode, cond)
    ensures Has(OwnTime(decode, cond), minute) <==> PlacedAt(decode, cond, minute)
  {
    if PlacedAt(decode, cond, minute) {
      assert MinuteOf(OwnTime(decode, cond)[0]) == minute;
    }
  }

  lemma {:induction false} HasInSum(a: seq<TimeCondition>, b: seq<TimeCondition>, minute: int)
    ensures Has(a + b, minute) <==> Has(a, minute) || Has(b, minute)
  {
    assert forall tc :: tc in a + b <==> tc in a || tc in b;
  }

  lemma {:induction false} ExtractedOfIff(decode: Decoder, conds: seq<Condition>, minute: int)
    ensures Has(ExtractedOf(decode, conds), minute) <==> exists c | c in conds :: Has(Extracted(decode, c), minute)
    decreases conds, 0
  {
    if conds != [] {
      var n := |conds| - 1;
      ExtractedOfIff(decode, conds[..n], minute);
      HasInSum(ExtractedOf(decode, conds[..n]), Extracted(decode, conds[n]), minute);
      InFrontOrLast(conds);
      assert ExtractedOf(decode, conds) == ExtractedOf(decode, conds[..n]) + Extracted(decode, conds[n]);
      if c :| c in conds && Has(Extracted(decode, c), minute) {
        assert c in conds[..n] || c == conds[n];
      }
      if c :| c in conds[..n] && Has(Extracted(decode, c), minute) {
        assert c in conds;
      }
      assert conds[n] in conds;
    }
  }

  lemma {:induction false} ChildBoundaries(decode: Decoder, conds: seq<Condition>, c: Condition)
    requires c in conds
    ensures forall tc | tc in Extracted(decode, c) :: tc in ExtractedOf(decode, conds)
  {
    if c != conds[|conds| - 1] {
      ChildBoundaries(decode, conds[..|conds| - 1], c);
    }
  }

  // ---- Truth between boundaries ----

  /** The leaf compares the current time with a clock text the comparison accepts. */
  predicate ComparesWithClock(decode: Decoder, cond: Condition) {
    match decode(cond.value)
    case Some(Str(s)) => ParseClock(s).Some?
    case _ => false
  }

  /** Trees whose clock dependence the extractor plainly sees: no "!=" against a clock, and no compound
      node typed as a time condition it gives up on. */
  predicate Watchable(decode: Decoder, cond: Condition) {
    if cond.operator == "" then
      !(cond.kind == "time" && cond.op == "!=" && ComparesWithClock(decode, cond))
    else
      !Unreadable(decode, cond) && forall c | c in cond.children :: Watchable(decode, c)
  }

  /** A time leaf at a given minute of the day, without any cache. */
  predicate ClockAt(decode: Decoder, minute: int, op: string, value: seq<Byte>) {
    match decode(value)
    case None => false
    case Some(expected) => CompareClock(minute, op, expected)
  }

  function WorldAt(decode: Decoder, states: string -> map<string, Value>, minute: int): World {
    World(decode, states, (op, value) => ClockAt(decode, minute, op, value))
  }

  /** A time leaf over the day: with the clock text of H:M it compares hour and minute of the clock
      with H and M; no other operator holds. */
  lemma {:induction false} ClockLeafMeans(decode: Decoder, states: string -> map<string, Value>, leaf: Condition,
                                          s: string,
                                          H: nat, M: nat, h: nat, m: nat)
    requires leaf.operator == "" && leaf.kind == "time" && decode(leaf.value) == Some(Str(s))
    requires H < 24 && M < 60 && IsClockText(s, H, M) && h < 24 && m < 60
    ensures Truth(WorldAt(decode, states, 60 * h + m), leaf) <==>
            if leaf.op == "==" then h == H && m == M
            else if leaf.op == "!=" then h != H || m != M
            else if leaf.op == "<" then h < H || (h == H && m < M)
            else leaf.op == ">" && (h > H || (h == H && m > M))
  {
    ClockTextParses(s, H, M);
  }

  /** Against anything but a clock text it is false all day. */
  lemma {:induction false} OtherClockLeafIsFalse(decode: Decoder, states: string -> map<string, Value>,
                                                 leaf: Condition, minute: int)
    requires leaf.operator == "" && leaf.kind == "time"
    requires forall s, H, M | 0 <= H < 24 && 0 <= M < 60 && decode(leaf.value) == Some(Str(s)) :: !IsClockText(s, H, M)
    ensures !Truth(WorldAt(decode, states, minute), leaf)
  {
    if decode(leaf.value).Some? && decode(leaf.value).value.Str? && ParseClock(decode(leaf.value).value.s).Some? {
      var s := decode(leaf.value).value.s;
      ParseClockIff(s, ParseClock(s).value);
      assert false;
    }
  }

  predicate Crosses(minutes: set<int>, from: int, to: int) {
    exists b | b in minutes :: from <= b <= to
  }

  /** The minutes at whose end a comparison with clock m can change its answer are touched: each
      change within the day has one of the two minutes around it in the set. */
  predicate ChangesTouch(minutes: set<int>, op: string, m: nat) {
    && (op == ">" || op == "==" || op == "!=" ==> m in minutes || m + 1 in minutes || m == 1439)
    && (op == "<" || op == "==" || op == "!=" ==> m in minutes || m - 1 in minutes || m == 0)
  }

  predicate LeafCovered(decode: Decoder, cond: Condition, minutes: set<int>) {
    IsTimeLeaf(cond) && ComparesWithClock(decode, cond) ==>
      ChangesTouch(minutes, cond.op, ParseClock(decode(cond.value).value.s).value)
  }

  /** The minutes watched suffice for every time leaf below the compound nodes. */
  predicate Covered(decode: Decoder, cond: Condition, minutes: set<int>) {
    if cond.operator == "" then LeafCovered(decode, cond, minutes)
    else forall c | c in cond.children :: Covered(decode, c, minutes)
  }

  lemma {:induction false} LeafIsConstant(decode: Decoder, from: int, to: int, cond: Condition, minutes: set<int>)
    requires IsTimeLeaf(cond) && LeafCovered(decode, cond, minutes)
    requires 0 <= from <= to < 1440 && !Crosses(minutes, from, to)
    ensures ClockAt(decode, from, cond.op, cond.value) == ClockAt(decode, to, cond.op, cond.value)
  {
  }

  lemma {:induction false} LeavesAreConstant(decode: Decoder, w: World, v: World, from: int, to: int,
                                             cond: Condition, minutes: set<int>)
    requires w.decode == v.decode == decode && w.states == v.states
    requires forall op, value :: w.clock(op, value) == ClockAt(decode, from, op, value)
    requires forall op, value :: v.clock(op, value) == ClockAt(decode, to, op, value)
    requires Covered(decode, cond, minutes) && 0 <= from <= to < 1440 && !Crosses(minutes, from, to)
    ensures SameLeaves(w, v, cond)
  {
    if cond.operator != "" {
      forall c | c in cond.children ensures SameLeaves(w, v, c) {
        LeavesAreConstant(decode, w, v, from, to, c, minutes);
      }
    } else if IsTimeLeaf(cond) {
      LeafIsConstant(decode, from, to, cond, minutes);
    }
  }

  /** A leaf that is not covered changes its answer between two neighbouring minutes that are not
      watched, and any two worlds that differ in that answer differ on the tree's leaves. */
  lemma {:induction false} UncoveredLeaf(decode: Decoder, cond: Condition, minutes: set<int>)
    returns (from: nat, op: string, value: seq<Byte>)
    requires !Covered(decode, cond, minutes)
    ensures from + 1 < 1440 && !Crosses(minutes, from, from + 1)
    ensures ClockAt(decode, from, op, value) != ClockAt(decode, from + 1, op, value)
    ensures forall w: World, v: World | w.clock(op, value) != v.clock(op, value) :: !SameLeaves(w, v, cond)
  {
    if cond.operator == "" {
      var m := ParseClock(decode(cond.value).value.s).value;
      op, value := cond.op, cond.value;
      from := if op != "<" && m < 1439 && m !in minutes && m + 1 !in minutes then m else m - 1;
    } else {
      var c :| c in cond.children && !Covered(decode, c, minutes);
      from, op, value := UncoveredLeaf(decode, c, minutes);
    }
  }

  /** Watching a set of minutes is enough exactly when it covers the tree: all leaves answer alike
      on every same-day interval that contains none of the minutes. */
  lemma {:induction false} CoveredIff(decode: Decoder, states: string -> map<string, Value>, cond: Condition,
                                      minutes: set<int>)
    ensures Covered(decode, cond, minutes) <==>
            forall from, to | 0 <= from <= to < 1440 && !Crosses(minutes, from, to) ::
              SameLeaves(WorldAt(decode, states, from), WorldAt(decode, states, to), cond)
  {
    if Covered(decode, cond, minutes) {
      forall from, to | 0 <= from <= to < 1440 && !Crosses(minutes, from, to)
        ensures SameLeaves(WorldAt(decode, states, from), WorldAt(decode, states, to), cond)
      {
        LeavesAreConstant(decode, WorldAt(decode, states, from), WorldAt(decode, states, to), from, to, cond, minutes);
      }
    } else {
      var from, op, value := UncoveredLeaf(decode, cond, minutes);
      assert !SameLeaves(WorldAt(decode, states, from), WorldAt(decode, states, from + 1), cond);
    }
  }

  /** The boundaries of a watchable tree cover it. */
  lemma {:induction false} WatchableIsCovered(decode: Decoder, cond: Condition, minutes: set<int>)
    requires Watchable(decode, cond) && Boundaries(decode, cond) <= minutes
    ensures Covered(decode, cond, minutes)
  {
    if cond.operator != "" {
      forall c | c in cond.children ensures Covered(decode, c, minutes) {
        ChildBoundaries(decode, cond.children, c);
        assert Boundaries(decode, c) <= Boundaries(decode, cond);
        WatchableIsCovered(decode, c, minutes);
      }
    } else if IsTimeLeaf(cond) && ComparesWithClock(decode, cond) && Supported(cond.op) {
      ExtractorReadsWhatComparisonParses(decode(cond.value).value.s);
      var tc := OwnTime(decode, cond)[0];
      assert Extracted(decode, cond)[0] == tc;
      assert MinuteOf(tc) in Boundaries(decode, cond);
    }
  }

  /** With fixed device states, a tree that its extracted boundaries cover has one truth value on
      any same-day interval of minutes that contains none of them. */
  lemma {:induction false} PiecewiseConstant(decode: Decoder, states: string -> map<string, Value>, from: int,
                                             to: int, cond: Condition)
    requires Covered(decode, cond, Boundaries(decode, cond))
    requires 0 <= from <= to < 1440 && !Crosses(Boundaries(decode, cond), from, to)
    ensures Truth(WorldAt(decode, states, from), cond) == Truth(WorldAt(decode, states, to), cond)
  {
    var minutes := Boundaries(decode, cond);
    LeavesAreConstant(decode, WorldAt(decode, states, from), WorldAt(decode, states, to), from, to, cond, minutes);
    TruthFromLeaves(WorldAt(decode, states, from), WorldAt(decode, states, to), cond);
  }

  /** For a childless time leaf being watchable is exact: its answer is constant between extracted
      boundaries if and only if it is watchable. */
  lemma {:induction false} WatchableLeafIff(decode: Decoder, cond: Condition)
    requires IsTimeLeaf(cond) && cond.children == []
    ensures Watchable(decode, cond) <==>
            forall from, to | 0 <= from <= to < 1440 && !Crosses(Boundaries(decode, cond), from, to) ::
              ClockAt(decode, from, cond.op, cond.value) == ClockAt(decode, to, cond.op, cond.value)
  {
    if Watchable(decode, cond) {
      WatchableIsCovered(decode, cond, Boundaries(decode, cond));
      forall from, to | 0 <= from <= to < 1440 && !Crosses(Boundaries(decode, cond), from, to)
        ensures ClockAt(decode, from, cond.op, cond.value) == ClockAt(decode, to, cond.op, cond.value)
      {
        LeafIsConstant(decode, from, to, cond, Boundaries(decode, cond));
      }
    } else {
      var m := ParseClock(decode(cond.value).value.s).value;
      assert Extracted(decode, cond) == [];
      var from, to := if m == 0 then 0 else m - 1, if m == 0 then 1 else m;
      assert ClockAt(decode, from, cond.op, cond.value) != ClockAt(decode, to, cond.op, cond.value);
    }
  }

  // ---- Waking at the changes ----

  function MinuteBefore(minute: int): int { if minute == 0 then 1439 else minute - 1 }

  /** Every change of a comparison with clock m, over midnight too, comes at a minute of the set. */
  predicate WakesAtChanges(minutes: set<int>, op: string, m: nat) {
    && (op == ">" ==> m == 1439 || (m + 1 in minutes && 0 in minutes))
    && (op == "<" ==> m == 0 || (m in minutes && 0 in minutes))
    && (op == "==" || op == "!=" ==> m in minutes && (if m == 1439 then 0 else m + 1) in minutes)
  }

  predicate Woken(decode: Decoder, cond: Condition, minutes: set<int>) {
    if cond.operator != "" then forall c | c in cond.children :: Woken(decode, c, minutes)
    else IsTimeLeaf(cond) && ComparesWithClock(decode, cond) ==>
      WakesAtChanges(minutes, cond.op, ParseClock(decode(cond.value).value.s).value)
  }

  /** A leaf that is not woken changes its answer at a minute outside the set. */
  lemma {:induction false} UnwokenLeaf(decode: Decoder, cond: Condition, minutes: set<int>)
    returns (t: nat, op: string, value: seq<Byte>)
    requires !Woken(decode, cond, minutes)
    ensures t < 1440 && t !in minutes && ClockAt(decode, MinuteBefore(t), op, value) != ClockAt(decode, t, op, value)
    ensures forall w: World, v: World | w.clock(op, value) != v.clock(op, value) :: !SameLeaves(w, v, cond)
    ensures cond.operator == "" ==> op == cond.op && value == cond.value
  {
    if cond.operator == "" {
      var m := ParseClock(decode(cond.value).value.s).value;
      op, value := cond.op, cond.value;
      var next := if m == 1439 then 0 else m + 1;
      t := if op == "<" then (if m !in minutes then m else 0)
           else if op == ">" then (if next !in minutes then next else 0)
           else if m !in minutes then m else next;
    } else {
      var c :| c in cond.children && !Woken(decode, c, minutes);
      t, op, value := UnwokenLeaf(decode, c, minutes);
    }
  }

  lemma {:induction false} WokenLeavesStay(decode: Decoder, states: string -> map<string, Value>, cond: Condition,
                                           minutes: set<int>, t: int)
    requires Woken(decode, cond, minutes) && 0 <= t < 1440 && t !in minutes
    ensures SameLeaves(WorldAt(decode, states, MinuteBefore(t)), WorldAt(decode, states, t), cond)
  {
    if cond.operator != "" {
      forall c | c in cond.children
        ensures SameLeaves(WorldAt(decode, states, MinuteBefore(t)), WorldAt(decode, states, t), c)
      {
        WokenLeavesStay(decode, states, c, minutes, t);
      }
    }
  }

  /** Jobs at a set of minutes see every change of a tree's leaves at once exactly when the set has
      each minute at which one of them changes. */
  lemma {:induction false} WokenIff(decode: Decoder, states: string -> map<string, Value>, cond: Condition,
                                    minutes: set<int>)
    ensures Woken(decode, cond, minutes) <==>
            forall t | 0 <= t < 1440 && t !in minutes ::
              SameLeaves(WorldAt(decode, states, MinuteBefore(t)), WorldAt(decode, states, t), cond)
  {
    if Woken(decode, cond, minutes) {
      forall t | 0 <= t < 1440 && t !in minutes
        ensures SameLeaves(WorldAt(decode, states, MinuteBefore(t)), WorldAt(decode, states, t), cond)
      {
        WokenLeavesStay(decode, states, cond, minutes, t);
      }
    } else {
      var t, op, value := UnwokenLeaf(decode, cond, minutes);
      assert !SameLeaves(WorldAt(decode, states, MinuteBefore(t)), WorldAt(decode, states, t), cond);
    }
  }

  /** The extracted boundary of a lone time leaf is never enough: it is woken at each of its changes
      only if it has none. "> 18:00" is woken at 18:00, where it is still false. */
  lemma {:induction false} LoneLeafIsWokenIffConstant(decode: Decoder, cond: Condition)
    requires IsTimeLeaf(cond) && cond.children == []
    ensures Woken(decode, cond, Boundaries(decode, cond)) <==>
            forall t, u | 0 <= t < 1440 && 0 <= u < 1440 ::
              ClockAt(decode, t, cond.op, cond.value) == ClockAt(decode, u, cond.op, cond.value)
  {
    var minutes := Boundaries(decode, cond);
    if !Woken(decode, cond, minutes) {
      var t, op, value := UnwokenLeaf(decode, cond, minutes);
    } else if ComparesWithClock(decode, cond) {
      var s := decode(cond.value).value.s;
      ExtractorReadsWhatComparisonParses(s);
      OwnBoundary(decode, cond, ParseClock(s).value);
    }
  }

  lemma {:induction false} OwnBoundary(decode: Decoder, cond: Condition, m: nat)
    requires IsTimeLeaf(cond) && cond.children == []
    requires ReadValue(decode, cond.value).Some?
             && ReadValue(decode, cond.value).value.0 * 60 + ReadValue(decode, cond.value).value.1 == m
    ensures forall b | b in Boundaries(decode, cond) :: b == m
  {
    assert Extracted(decode, cond) == OwnTime(decode, cond);
  }

  /** A compound node typed "time" with an unreadable value hides the boundaries below it: this
      tree changes truth at 12:01 although nothing was extracted. */
  lemma {:induction false} TypedCompoundHidesBoundaries(decode: Decoder, noon: seq<Byte>,
                                                        states: string -> map<string, Value>)
    requires decode(noon) == Some(Str("12:00")) && decode([]) == None
    ensures
      var leaf := Condition("time", "", "", ">", noon, "", []);
      var tree := Condition("time", "", "", "==", [], "AND", [leaf]);
      && Boundaries(decode, tree) == {} && !Covered(decode, tree, {})
      && !Truth(WorldAt(decode, states, 720), tree) && Truth(WorldAt(decode, states, 721), tree)
  {
    var leaf := Condition("time", "", "", ">", noon, "", []);
    var s := "12:00";
    assert s[..2] == "12" && s[3..] == "00";
    assert NumberOf("12") == 12 by {
      assert "12"[..1] == "1" && "1"[..0] == "";
    }
    assert NumberOf("00") == 0 by {
      assert "00"[..1] == "0" && "0"[..0] == "";
    }
    assert ParseClock(s) == Some(720);
    assert Truth(WorldAt(decode, states, 721), leaf) && !Truth(WorldAt(decode, states, 720), leaf);
    assert leaf in [leaf] && !Covered(decode, leaf, {});
  }

  // ---- Cron text ----

  /** Cron text for an hour and a minute: minute first, every day. */
  function CronText(tc: TimeCondition): string {
    Decimal(tc.minute) + " " + Decimal(tc.hour) + " * * *"
  }

  /** The fields of a cron text: what stands between its single blanks. */
  function Fields(text: string): seq<string> {
    var k := FieldEnd(text);
    if k == |text| then [text] else [text[..k]] + Fields(text[k + 1..])
  }

  function FieldEnd(text: string): (k: nat)
    ensures k <= |text| && ' ' !in text[..k] && (k < |text| ==> text[k] == ' ')
  {
    if text == [] || text[0] == ' ' then 0
    else
      var k := 1 + FieldEnd(text[1..]);
      assert text[..k] == [text[0]] + text[1..][..k - 1];
      k
  }

  /** A star matches every value, a number itself. */
  predicate FieldMatches(field: string, value: nat) {
    field == "*" || (field != [] && AllDigits(field) && NumberOf(field) == value)
  }

  /** When a cron text of five fields fires: minute, hour, day of the month, month, day of the week. */
  predicate CronMatches(text: string, minute: nat, hour: nat, day: nat, month: nat, weekday: nat) {
    var fields := Fields(text);
    && |fields| == 5
    && FieldMatches(fields[0], minute) && FieldMatches(fields[1], hour)
    && FieldMatches(fields[2], day) && FieldMatches(fields[3], month) && FieldMatches(fields[4], weekday)
  }

  lemma {:induction false} FirstField(field: string, rest: string)
    requires ' ' !in field
    ensures Fields(field + " " + rest) == [field] + Fields(rest)
  {
    var text := field + " " + rest;
    var k := FieldEnd(text);
    assert text[|field|] == ' ' && forall i | 0 <= i < |field| :: text[i] == field[i];
    assert forall i | 0 <= i < k :: text[..k][i] == text[i];
    assert text[..|field|] == field && text[|field| + 1..] == rest;
  }

  /** Texts joined by single blanks. */
  function Joined(fields: seq<string>): string
    requires fields != []
  {
    if |fields| == 1 then fields[0] else fields[0] + " " + Joined(fields[1..])
  }

  lemma {:induction false} FieldsOfJoined(fields: seq<string>)
    requires fields != [] && forall f | f in fields :: ' ' !in f
    ensures Fields(Joined(fields)) == fields
  {
    assert fields[0] in fields && fields == [fields[0]] + fields[1..];
    if |fields| == 1 {
      LastField(fields[0]);
    } else {
      FirstField(fields[0], Joined(fields[1..]));
      FieldsOfJoined(fields[1..]);
    }
  }

  lemma {:induction false} LastField(field: string)
    requires ' ' !in field
    ensures Fields(field) == [field]
  {
    forall i | 0 <= i < |field| ensures field[i] != ' ' {
      assert field[i] in field;
    }
  }

  lemma {:induction false} NoBlankInDigits(s: string)
    requires AllDigits(s)
    ensures ' ' !in s
  {
    assert !IsDigit(' ');
  }

  /** The generated text has five fields, the two numbers and three stars. */
  lemma {:induction false} CronRoundTrip(tc: TimeCondition)
    ensures Fields(CronText(tc)) == [Decimal(tc.minute), Decimal(tc.hour), "*", "*", "*"]
  {
    var m, h := Decimal(tc.minute), Decimal(tc.hour);
    NoBlankInDigits(m);
    NoBlankInDigits(h);
    FieldsOfJoined([m, h, "*", "*", "*"]);
    TextOfFields(m, h);
  }

  lemma {:induction false} TextOfFields(m: string, h: string)
    ensures m + " " + h + " * * *" == Joined([m, h, "*", "*", "*"])
  {
    var all := [m, h, "*", "*", "*"];
    assert all[1..] == [h, "*", "*", "*"] && all[1..][1..] == ["*", "*", "*"];
    var stars := Joined(["*", "*", "*"]);
    assert ["*", "*", "*"][1..] == ["*", "*"] && ["*", "*"][1..] == ["*"];
    assert " * * *" == " " + stars;
    ConcatIsAssociative(m + " ", h, " " + stars);
    ConcatIsAssociative(h, " ", stars);
  }

  /** It fires at its minute and hour and at no other, on every day, month and weekday. */
  lemma {:induction false} CronMeans(tc: TimeCondition, minute: nat, hour: nat, day: nat, month: nat, weekday: nat)
    ensures CronMatches(CronText(tc), minute, hour, day, month, weekday) <==> minute == tc.minute && hour == tc.hour
  {
    CronRoundTrip(tc);
    NumberOfDecimal(tc.minute);
    NumberOfDecimal(tc.hour);
    assert Decimal(tc.minute) != "*" && Decimal(tc.hour) != "*" by {
      assert IsDigit(Decimal(tc.minute)[0]) && IsDigit(Decimal(tc.hour)[0]);
    }
  }

  /** Two extracted conditions share a schedule row of a rule exactly when they mean the same
      minute of the day, whatever their operators. */
  lemma {:induction false} SameCronIffSameMinute(a: TimeCondition, b: TimeCondition)
    requires a.minute < 60 && b.minute < 60
    ensures CronText(a) == CronText(b) <==> MinuteOf(a) == MinuteOf(b)
  {
    if CronText(a) == CronText(b) {
      CronMeans(a, a.minute, a.hour, 1, 1, 0);
      CronMeans(b, a.minute, a.hour, 1, 1, 0);
    } else {
      assert a.minute != b.minute || a.hour != b.hour;
    }
  }
}
