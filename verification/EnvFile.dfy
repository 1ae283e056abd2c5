/** The .env file: reading it line by line, and writing it back with the two secrets. */
module EnvFile {
  import opened Text

  /** The longest line the line scanner accepts, in bytes; a longer one ends the scan. */
  const MAX_LINE := 65_535

  const JWT_KEY := "JWT_SECRET"

  const AGENT_KEY := "AGENT_ID"

  // The two comment lines of the header, word by word: the verifier is slow on long literals.
  const TITLE := "# SmartHome " + "Backend " + "Environment " + "Configuration"

  const WARNING := "# Auto-" + "generated " + "secrets - " + "DO NOT " + "COMMIT TO " + "VERSION " + "CONTROL"

  type Vars = map<string, string>

  // ---- Text helpers ----

  /** The position of the first c, or the length. */
  function IndexOf(s: string, c: char): (i: nat)
    ensures i <= |s| && c !in s[..i] && (i < |s| ==> s[i] == c)
  {
    if s == [] || s[0] == c then 0
    else
      var i := 1 + IndexOf(s[1..], c);
      assert s[..i] == [s[0]] + s[1..][..i - 1];
      i
  }

  lemma {:induction false} IndexOfIs(s: string, c: char, i: nat)
    requires i <= |s| && c !in s[..i] && (i < |s| ==> s[i] == c)
    ensures IndexOf(s, c) == i
  {
    var j := IndexOf(s, c);
    assert forall n | 0 <= n < i :: s[..i][n] == s[n];
    assert forall n | 0 <= n < j :: s[..j][n] == s[n];
  }

  function CharSize(c: char): nat {
    if c as int < 0x80 then 1 else if c as int < 0x800 then 2 else if c as int < 0x10000 then 3 else 4
  }

  /** The length in UTF-8. */
  function Size(s: string): nat {
    if s == [] then 0 else CharSize(s[0]) + Size(s[1..])
  }

  lemma {:induction false} SizeOfSum(a: string, b: string)
    ensures Size(a + b) == Size(a) + Size(b)
  {
    if a == [] {
      assert a + b == b;
    } else {
      assert (a + b)[1..] == a[1..] + b;
      SizeOfSum(a[1..], b);
    }
  }

  lemma {:induction false} SizeOfPart(s: string, i: nat, j: nat)
    requires i <= j <= |s|
    ensures Size(s[i..j]) <= Size(s)
  {
    assert s == s[..i] + (s[i..j] + s[j..]);
    SizeOfSum(s[..i], s[i..j] + s[j..]);
    SizeOfSum(s[i..j], s[j..]);
  }

  /** How many characters strings.TrimSpace drops at the start, and where it stops at the end. */
  function TrimStart(s: string): (i: nat)
    ensures i <= |s| && (i < |s| ==> !IsSpace(s[i]))
  {
    if s == [] || !IsSpace(s[0]) then 0 else 1 + TrimStart(s[1..])
  }

  function TrimEnd(s: string): (j: nat)
    ensures j <= |s| && (j > 0 ==> !IsSpace(s[j - 1]))
  {
    if s == [] then 0 else if !IsSpace(s[|s| - 1]) then |s| else TrimEnd(s[..|s| - 1])
  }

  function TrimSpace(s: string): string {
    var i, j := TrimStart(s), TrimEnd(s);
    if i < j then s[i..j] else ""
  }

  // ---- Reading ----

  function DropCR(line: string): string {
    if line != [] && line[|line| - 1] == '\r' then line[..|line| - 1] else line
  }

  /** The lines the scanner yields: split at newlines, up to the first one that is too long. */
  function Scan(content: string): seq<string> {
    if content == [] then []
    else
      var k := IndexOf(content, '\n');
      var raw := content[..k];
      if Size(raw) > MAX_LINE then []
      else [DropCR(raw)] + if k < |content| then Scan(content[k + 1..]) else []
  }

  /** All lines, however long, with and without their carriage returns. */
  function RawLines(content: string): seq<string> {
    if content == [] then []
    else
      var k := IndexOf(content, '\n');
      [content[..k]] + if k < |content| then RawLines(content[k + 1..]) else []
  }

  function Lines(content: string): seq<string> { DropCRs(RawLines(content)) }

  function DropCRs(raws: seq<string>): seq<string> {
    if raws == [] then [] else [DropCR(raws[0])] + DropCRs(raws[1..])
  }

  /** The variable a line sets: not for blank lines, comments and lines without an equals sign;
      only the first equals sign separates. */
  function ParseLine(line: string): Option<(string, string)> {
    var t := TrimSpace(line);
    var k := IndexOf(t, '=');
    if t == "" || t[0] == '#' || k == |t| then None else Some((t[..k], t[k + 1..]))
  }

  predicate IsBlank(s: string) { forall c | c in s :: IsSpace(c) }

  lemma {:induction false} BlanksInFront(blanks: string, s: string)
    requires IsBlank(blanks) && (s == "" || !IsSpace(s[0]))
    ensures TrimStart(blanks + s) == |blanks|
  {
    if blanks == "" {
      assert blanks + s == s;
    } else {
      assert blanks[0] in blanks && (blanks + s)[1..] == blanks[1..] + s;
      BlanksInFront(blanks[1..], s);
    }
  }

  lemma {:induction false} BlanksBehind(s: string, blanks: string)
    requires IsBlank(blanks) && (s == "" || !IsSpace(s[|s| - 1]))
    ensures TrimEnd(s + blanks) == |s|
  {
    if blanks == "" {
      assert s + blanks == s;
    } else {
      var n := |blanks| - 1;
      assert blanks[n] in blanks && (s + blanks)[..|s| + n] == s + blanks[..n];
      BlanksBehind(s, blanks[..n]);
    }
  }

  /** Trimming takes exactly the white space at both ends. */
  lemma {:induction false} TrimTakesBlanks(front: string, s: string, back: string)
    requires IsBlank(front) && IsBlank(back) && (s == "" || (!IsSpace(s[0]) && !IsSpace(s[|s| - 1])))
    ensures TrimSpace(front + s + back) == s
  {
    var text := front + s + back;
    if s == "" {
      assert text == (front + back) + "" && IsBlank(front + back);
      BlanksInFront(front + back, "");
    } else {
      assert text == front + (s + back) && (s + back)[0] == s[0] && (front + s)[|front + s| - 1] == s[|s| - 1];
      BlanksInFront(front, s + back);
      BlanksBehind(front + s, back);
      assert text[|front|..|front| + |s|] == s;
    }
  }

  /** A setting, white space at the ends of the line aside, is split at its first equals sign. */
  lemma {:induction false} SettingLineMeans(front: string, key: string, value: string, back: string)
    requires IsBlank(front) && IsBlank(back) && '=' !in key && (key == "" || (key[0] != '#' && !IsSpace(key[0])))
    requires value == "" || !IsSpace(value[|value| - 1])
    ensures ParseLine(front + (key + "=" + value) + back) == Some((key, value))
  {
    var setting := key + "=" + value;
    assert setting[|setting| - 1] == if value == "" then '=' else value[|value| - 1];
    assert setting[0] == if key == "" then '=' else key[0];
    TrimTakesBlanks(front, setting, back);
    assert setting[..|key|] == key && setting[|key| + 1..] == value;
    IndexOfIs(setting, '=', |key|);
  }

  /** A comment, an empty line and a line without equals sign set nothing. */
  lemma {:induction false} OtherLinesAreSilent(front: string, text: string, back: string)
    requires IsBlank(front) && IsBlank(back) && (text == "" || (!IsSpace(text[0]) && !IsSpace(text[|text| - 1])))
    requires text == "" || text[0] == '#' || '=' !in text
    ensures ParseLine(front + text + back) == None
  {
    TrimTakesBlanks(front, text, back);
    if '=' !in text {
      assert text[..|text|] == text;
      IndexOfIs(text, '=', |text|);
    }
  }

  predicate SetsKey(line: string, key: string) { ParseLine(line).Some? && ParseLine(line).value.0 == key }

  /** A key has the value of the last line that sets it. */
  lemma {:induction false} LastSettingWins(front: seq<string>, line: string, rest: seq<string>, key: string,
                                           value: string)
    requires ParseLine(line) == Some((key, value)) && forall l | l in rest :: !SetsKey(l, key)
    ensures var vars := VarsOf(front + [line] + rest); key in vars && vars[key] == value
  {
    var head := front + [line];
    if rest == [] {
      LastLine(front, line);
      assert head + rest == head;
    } else {
      var n := |rest| - 1;
      assert rest[n] in rest && forall l | l in rest[..n] :: l in rest;
      LastSettingWins(front, line, rest[..n], key, value);
      SilentLast(head + rest[..n], rest[n], key);
      LastOfSum(head, rest);
    }
  }

  lemma {:induction false} SilentLast(lines: seq<string>, last: string, key: string)
    requires !SetsKey(last, key) && key in VarsOf(lines)
    ensures key in VarsOf(lines + [last]) && VarsOf(lines + [last])[key] == VarsOf(lines)[key]
  {
    LastLine(lines, last);
    SilentFor(VarsOf(lines), last, key);
  }

  lemma {:induction false} SilentFor(vars: Vars, line: string, key: string)
    requires !SetsKey(line, key)
    ensures key in SetLine(vars, line) <==> key in vars
    ensures key in vars ==> SetLine(vars, line)[key] == vars[key]
  {
  }

  /** A key that no line sets has none. */
  lemma {:induction false} OnlySetKeys(lines: seq<string>, key: string)
    requires key in VarsOf(lines)
    ensures exists line | line in lines :: SetsKey(line, key)
  {
    var n := |lines| - 1;
    if !SetsKey(lines[n], key) {
      OnlySetKeys(lines[..n], key);
    }
  }

  function SetLine(vars: Vars, line: string): Vars {
    match ParseLine(line)
    case None => vars
    case Some((key, value)) => vars[key := value]
  }

  /** Later lines override earlier ones. */
  function VarsOf(lines: seq<string>): Vars {
    if lines == [] then map[] else SetLine(VarsOf(lines[..|lines| - 1]), lines[|lines| - 1])
  }

  function Parse(content: string): Vars { VarsOf(Scan(content)) }

  method ReadVars(content: string) returns (vars: Vars)
    ensures vars == Parse(content)
  {
    var lines := Scan(content);
    vars := map[];
    for i := 0 to |lines|
      invariant vars == VarsOf(lines[..i])
    {
      LastLine(lines[..i], lines[i]);
      assert lines[..i + 1] == lines[..i] + [lines[i]];
      match ParseLine(lines[i]) {
        case None =>
        case Some((key, value)) => vars := vars[key := value];
      }
    }
    assert lines[..|lines|] == lines;
  }

  // ---- Writing ----

  function Unlines(lines: seq<string>): string {
    if lines == [] then "" else lines[0] + "\n" + Unlines(lines[1..])
  }

  function Entry(key: string, value: string): string { key + "=" + value }

  /** The lines written for the variables, in the given order. */
  function EntryLines(vars: Vars, order: seq<string>): seq<string>
    requires forall k | k in order :: k in vars
  {
    seq(|order|, i requires 0 <= i < |order| => Entry(order[i], vars[order[i]]))
  }

  function Printed(vars: Vars, order: seq<string>): string
    requires forall k | k in order :: k in vars
  {
    TITLE + "\n" + (WARNING + "\n" + ("" + "\n" + Unlines(EntryLines(vars, order))))
  }

  function WithSecrets(vars: Vars, jwt: string, agent: string): Vars {
    vars[JWT_KEY := jwt][AGENT_KEY := agent]
  }

  /** What a file that could be opened contributes. */
  function OldVars(file: Option<string>): Vars {
    if file.Some? then Parse(file.value) else map[]
  }

  /** What the whole file sets, over-long lines and everything behind them included. */
  function FileVars(file: Option<string>): Vars {
    if file.Some? then VarsOf(Lines(file.value)) else map[]
  }

  /** The lines the scan does not reach: the first over-long one and all behind it. */
  function Unread(raws: seq<string>): seq<string> {
    if raws == [] then [] else if Size(raws[0]) > MAX_LINE then DropCRs(raws) else Unread(raws[1..])
  }

  /** What those lines set of other variables than the secrets repeats what was read before them. */
  predicate OnlyRepeats(file: Option<string>) {
    file.Some? ==>
      var unread := VarsOf(Unread(RawLines(file.value)));
      forall k | k in unread && k != JWT_KEY && k != AGENT_KEY ::
        k in OldVars(file) && OldVars(file)[k] == unread[k]
  }

  lemma {:induction false} ScannedAndUnread(content: string)
    ensures Lines(content) == Scan(content) + Unread(RawLines(content))
    decreases |content|
  {
    if content != [] {
      var k := IndexOf(content, '\n');
      var raw, tail := content[..k], if k < |content| then content[k + 1..] else "";
      ScannedAndUnread(tail);
      assert RawLines(content) == [raw] + RawLines(tail) && ([raw] + RawLines(tail))[1..] == RawLines(tail);
      if Size(raw) <= MAX_LINE {
        assert Scan(content) == [DropCR(raw)] + Scan(tail);
        ConcatIsAssociative([DropCR(raw)], Scan(tail), Unread(RawLines(tail)));
      }
    }
  }

  lemma {:induction false} VarsOfSum(a: seq<string>, b: seq<string>)
    ensures VarsOf(a + b) == VarsOf(a) + VarsOf(b)
  {
    if b == [] {
      assert a + b == a;
    } else {
      var n := |b| - 1;
      assert a + b == (a + b[..n]) + [b[n]];
      LastLine(a + b[..n], b[n]);
      VarsOfSum(a, b[..n]);
      SetOnSum(VarsOf(a), VarsOf(b[..n]), b[n]);
    }
  }

  lemma {:induction false} SetOnSum(first: Vars, more: Vars, line: string)
    ensures SetLine(first + more, line) == first + SetLine(more, line)
  {
  }

  lemma {:induction false} FittingLinesAreRead(raws: seq<string>)
    requires forall raw | raw in raws :: Size(raw) <= MAX_LINE
    ensures Unread(raws) == []
  {
    if raws != [] {
      FittingLinesAreRead(raws[1..]);
      assert raws[0] in raws;
    }
  }

  /** A file whose lines all fit loses nothing. */
  lemma {:induction false} FittingFilesLoseNothing(content: string)
    requires forall raw | raw in RawLines(content) :: Size(raw) <= 65_535
    ensures Scan(content) == Lines(content) && OnlyRepeats(Some(content))
  {
    FittingLinesAreRead(RawLines(content));
    ScannedAndUnread(content);
  }

  /** Overriding the secrets in what was read gives the whole file's variables with the secrets
      exactly when the unread lines only repeat. */
  lemma {:induction false} ReadIsWholeIff(file: Option<string>, jwt: string, agent: string)
    ensures WithSecrets(OldVars(file), jwt, agent) == WithSecrets(FileVars(file), jwt, agent) <==> OnlyRepeats(file)
  {
    if file.Some? {
      var unread := VarsOf(Unread(RawLines(file.value)));
      ScannedAndUnread(file.value);
      VarsOfSum(Scan(file.value), Unread(RawLines(file.value)));
      assert FileVars(file) == OldVars(file) + unread;
      OverriddenSum(OldVars(file), unread, JWT_KEY, jwt, AGENT_KEY, agent);
    }
  }

  lemma {:induction false} OverriddenSum(first: Vars, more: Vars, key: string, value: string, key': string,
                                         value': string)
    ensures first[key := value][key' := value'] == (first + more)[key := value][key' := value'] <==>
            forall k | k in more && k != key && k != key' :: k in first && first[k] == more[k]
  {
    var read, whole := first[key := value][key' := value'], (first + more)[key := value][key' := value'];
    if forall k | k in more && k != key && k != key' :: k in first && first[k] == more[k] {
      assert read == whole;
    } else {
      var k :| k in more && k != key && k != key' && !(k in first && first[k] == more[k]);
      assert k in whole && whole[k] == more[k];
    }
  }

  // ---- Which entries survive ----

  /** An entry that fits on one line and starts and ends where the trimmed line does. */
  predicate Survives(key: string, value: string) {
    && '\n' !in Entry(key, value) && Size(Entry(key, value)) <= MAX_LINE
    && '=' !in key && (key == "" || (key[0] != '#' && !IsSpace(key[0])))
    && (value == "" || !IsSpace(value[|value| - 1]))
  }

  lemma {:induction false} TrimmedStays(s: string)
    requires s == "" || (!IsSpace(s[0]) && !IsSpace(s[|s| - 1]))
    ensures TrimSpace(s) == s
  {
  }

  lemma {:induction false} SurvivingEntryParses(key: string, value: string)
    requires Survives(key, value)
    ensures DropCR(Entry(key, value)) == Entry(key, value)
    ensures ParseLine(Entry(key, value)) == Some((key, value))
  {
    var line := Entry(key, value);
    assert line[0] == if key == "" then '=' else key[0];
    assert line[|line| - 1] == if value == "" then '=' else value[|value| - 1];
    TrimmedStays(line);
    assert line[..|key|] == key && line[|key| + 1..] == value;
    IndexOfIs(line, '=', |key|);
  }

  /** Whatever a line within the limits is parsed to survives being written. */
  lemma {:induction false} ParsedEntrySurvives(line: string)
    requires '\n' !in line && Size(line) <= MAX_LINE && ParseLine(line).Some?
    ensures Survives(ParseLine(line).value.0, ParseLine(line).value.1)
  {
    var i, j := TrimStart(line), TrimEnd(line);
    var t := TrimSpace(line);
    assert t == line[i..j];
    SizeOfPart(line, i, j);
    assert t[0] == line[i] && t[|t| - 1] == line[j - 1];
    TrimmedTextSplits(t);
  }

  lemma {:induction false} TrimmedTextSplits(t: string)
    requires t != "" && !IsSpace(t[0]) && !IsSpace(t[|t| - 1]) && t[0] != '#'
    requires '\n' !in t && Size(t) <= MAX_LINE && IndexOf(t, '=') < |t|
    ensures Survives(t[..IndexOf(t, '=')], t[IndexOf(t, '=') + 1..])
  {
    var k := IndexOf(t, '=');
    var value := t[k + 1..];
    assert Entry(t[..k], value) == t;
    assert value != "" ==> value[|value| - 1] == t[|t| - 1];
  }

  lemma {:induction false} ScannedLinesFit(content: string)
    ensures forall line | line in Scan(content) :: '\n' !in line && Size(line) <= MAX_LINE
    decreases |content|
  {
    if content != [] {
      var k := IndexOf(content, '\n');
      var raw := content[..k];
      if raw != [] {
        SizeOfPart(raw, 0, |raw| - 1);
      }
      if k < |content| {
        ScannedLinesFit(content[k + 1..]);
      }
    }
  }

  lemma {:induction false} ParsedVarsSurvive(lines: seq<string>)
    requires forall line | line in lines :: '\n' !in line && Size(line) <= MAX_LINE
    ensures forall k | k in VarsOf(lines) :: Survives(k, VarsOf(lines)[k])
  {
    if lines != [] {
      var last := lines[|lines| - 1];
      assert last in lines;
      ParsedVarsSurvive(lines[..|lines| - 1]);
      if ParseLine(last).Some? {
        ParsedEntrySurvives(last);
      }
    }
  }

  lemma {:induction false} OnlySurvivorsAreRead(content: string)
    ensures forall k | k in Parse(content) :: Survives(k, Parse(content)[k])
  {
    ScannedLinesFit(content);
    ParsedVarsSurvive(Scan(content));
  }

  // ---- The round trip ----

  lemma {:induction false} ScanLine(line: string, rest: string)
    requires '\n' !in line && Size(line) <= MAX_LINE
    ensures Scan(line + "\n" + rest) == [DropCR(line)] + Scan(rest)
  {
    var content := line + "\n" + rest;
    assert content[..|line|] == line && content[|line|] == '\n';
    IndexOfIs(content, '\n', |line|);
    assert content[|line| + 1..] == rest;
  }

  lemma {:induction false} ScanEntries(vars: Vars, order: seq<string>)
    requires forall k | k in order :: k in vars && Survives(k, vars[k])
    ensures Scan(Unlines(EntryLines(vars, order))) == EntryLines(vars, order)
  {
    if order != [] {
      var k := order[0];
      assert k in order;
      var lines := EntryLines(vars, order);
      assert lines[1..] == EntryLines(vars, order[1..]);
      SurvivingEntryParses(k, vars[k]);
      ScanLine(Entry(k, vars[k]), Unlines(EntryLines(vars, order[1..])));
      ScanEntries(vars, order[1..]);
    }
  }

  /** The variables of the given names, and no others. */
  ghost predicate IsPart(part: Vars, vars: Vars, names: seq<string>) {
    && (forall k :: k in part <==> k in names)
    && (forall k | k in part :: k in vars && part[k] == vars[k])
  }

  lemma {:induction false} OneMoreName(part: Vars, vars: Vars, names: seq<string>, k: string)
    requires IsPart(part, vars, names) && k in vars
    ensures IsPart(part[k := vars[k]], vars, names + [k])
  {
  }

  lemma {:induction false} EntriesParse(vars: Vars, order: seq<string>)
    requires forall k | k in order :: k in vars && Survives(k, vars[k])
    ensures IsPart(VarsOf(EntryLines(vars, order)), vars, order)
  {
    if order != [] {
      var n := |order| - 1;
      var rest, k := order[..n], order[n];
      assert k in order && order == rest + [k];
      EntriesParse(vars, rest);
      OneMoreName(VarsOf(EntryLines(vars, rest)), vars, rest, k);
      SurvivingEntryParses(k, vars[k]);
      LastEntry(vars, rest, k);
      LastLine(EntryLines(vars, rest), Entry(k, vars[k]));
    }
  }

  lemma {:induction false} LastEntry(vars: Vars, names: seq<string>, k: string)
    requires k in vars && forall n | n in names :: n in vars
    ensures EntryLines(vars, names + [k]) == EntryLines(vars, names) + [Entry(k, vars[k])]
  {
  }

  lemma {:induction false} LastLine(lines: seq<string>, line: string)
    ensures VarsOf(lines + [line]) == SetLine(VarsOf(lines), line)
  {
    assert (lines + [line])[..|lines|] == lines;
  }

  lemma {:induction false} SilentFirstLine(line: string, lines: seq<string>)
    requires ParseLine(line).None?
    ensures VarsOf([line] + lines) == VarsOf(lines)
  {
    var all := [line] + lines;
    if lines == [] {
      assert all[..0] == [];
    } else {
      assert all[..|all| - 1] == [line] + lines[..|lines| - 1];
      SilentFirstLine(line, lines[..|lines| - 1]);
    }
  }

  /** Comments and blank lines set nothing. */
  lemma {:induction false} SkipLine(line: string, rest: string)
    requires '\n' !in line && |line| <= 1000 && (line == "" || IsComment(line))
    ensures Parse(line + "\n" + rest) == Parse(rest)
  {
    SizeBound(line);
    ScanLine(line, rest);
    TrimmedStays(line);
    SilentFirstLine(DropCR(line), Scan(rest));
  }

  lemma {:induction false} SizeBound(s: string)
    ensures Size(s) <= 4 * |s|
  {
    if s != [] {
      SizeBound(s[1..]);
    }
  }

  /** A one-line comment without trailing white space. */
  predicate IsComment(line: string) {
    '\n' !in line && 0 < |line| <= 1000 && line[0] == '#' && !IsSpace(line[|line| - 1])
  }

  lemma {:induction false} HeaderLinesAreComments()
    ensures IsComment(TITLE) && IsComment(WARNING)
  {
    assert |TITLE| == 45 && TITLE[44] == 'n' && |WARNING| == 59 && WARNING[58] == 'L';
  }

  lemma {:induction false} HeaderIsIgnored(title: string, warning: string, rest: string)
    requires IsComment(title) && IsComment(warning)
    ensures Parse(title + "\n" + (warning + "\n" + ("" + "\n" + rest))) == Parse(rest)
  {
    SkipLine("", rest);
    SkipLine(warning, "" + "\n" + rest);
    SkipLine(title, warning + "\n" + ("" + "\n" + rest));
  }

  lemma {:induction false} OnlyEntriesCount(vars: Vars, order: seq<string>)
    requires forall k | k in order :: k in vars
    ensures Parse(Printed(vars, order)) == Parse(Unlines(EntryLines(vars, order)))
  {
    HeaderLinesAreComments();
    HeaderIsIgnored(TITLE, WARNING, Unlines(EntryLines(vars, order)));
  }

  lemma {:induction false} SurvivorsAreReadBack(vars: Vars, order: seq<string>)
    requires Lists(order, vars.Keys) && forall k | k in vars :: Survives(k, vars[k])
    ensures Parse(Printed(vars, order)) == vars
  {
    OnlyEntriesCount(vars, order);
    ScanEntries(vars, order);
    EntriesParse(vars, order);
    assert VarsOf(EntryLines(vars, order)).Keys == vars.Keys;
  }

  /** Reading back what was written gives exactly the variables that were written, in whatever
      order they were printed, if and only if every entry survives. */
  lemma {:induction false} RoundTripIffSurvives(vars: Vars, order: seq<string>)
    requires Lists(order, vars.Keys)
    ensures Parse(Printed(vars, order)) == vars <==> forall k | k in vars :: Survives(k, vars[k])
  {
    if forall k | k in vars :: Survives(k, vars[k]) {
      SurvivorsAreReadBack(vars, order);
    } else {
      OnlySurvivorsAreRead(Printed(vars, order));
    }
  }

  /** What was read from the old file survives anyway, so only the two secrets matter. */
  lemma {:induction false} OnlySecretsMatter(file: Option<string>, jwt: string, agent: string)
    ensures var vars := WithSecrets(OldVars(file), jwt, agent);
            (forall k | k in vars :: Survives(k, vars[k])) <==> Survives(JWT_KEY, jwt) && Survives(AGENT_KEY, agent)
  {
    if file.Some? {
      OnlySurvivorsAreRead(file.value);
    }
    var vars := WithSecrets(OldVars(file), jwt, agent);
    assert vars[JWT_KEY] == jwt && vars[AGENT_KEY] == agent;
  }

  /** Updating the file: read, override the secrets, write everything in any order. Reading it
      again gives what was read with the two secrets exactly when both secrets survive; it gives
      what the whole file set with the two secrets exactly when, in addition, the lines from the
      first over-long one on set nothing new. */
  method SaveToEnvFile(file: Option<string>, jwt: string, agent: string) returns (content: string)
    ensures Parse(content) == WithSecrets(OldVars(file), jwt, agent) <==>
            Survives(JWT_KEY, jwt) && Survives(AGENT_KEY, agent)
    ensures Parse(content) == WithSecrets(FileVars(file), jwt, agent) <==>
            Survives(JWT_KEY, jwt) && Survives(AGENT_KEY, agent) && OnlyRepeats(file)
    ensures Survives(JWT_KEY, jwt) && Survives(AGENT_KEY, agent) ==>
              var vars := Parse(content);
              "JWT_SECRET" in vars && vars["JWT_SECRET"] == jwt && "AGENT_ID" in vars && vars["AGENT_ID"] == agent
  {
    var vars: Vars := map[];
    if file.Some? {
      vars := ReadVars(file.value);
    }
    vars := vars[JWT_KEY := jwt];
    vars := vars[AGENT_KEY := agent];
    var order := Enumerate(vars.Keys);
    var body := "";
    for i := 0 to |order|
      invariant body + Unlines(EntryLines(vars, order[i..])) == Unlines(EntryLines(vars, order))
    {
      assert order[i..][0] == order[i] && order[i..][1..] == order[i + 1..];
      assert EntryLines(vars, order[i..])[1..] == EntryLines(vars, order[i + 1..]);
      ConcatIsAssociative(body, Entry(order[i], vars[order[i]]) + "\n", Unlines(EntryLines(vars, order[i + 1..])));
      body := body + (order[i] + "=" + vars[order[i]] + "\n");
    }
    content := TITLE + "\n" + (WARNING + "\n" + ("" + "\n" + body));
    assert content == Printed(vars, order);
    RoundTripIffSurvives(vars, order);
    OnlySecretsMatter(file, jwt, agent);
    ReadIsWholeIff(file, jwt, agent);
    OnlySurvivorsAreRead(content);
    var whole := WithSecrets(FileVars(file), jwt, agent);
    assert whole[JWT_KEY] == jwt && whole[AGENT_KEY] == agent;
  }

  // ---- Generated secrets ----

  /** The base64url alphabet with padding, section 5 of RFC 4648. */
  predicate IsBase64Url(c: char) {
    'A' <= c <= 'Z' || 'a' <= c <= 'z' || IsDigit(c) || c == '-' || c == '_' || c == '='
  }

  /** The secrets the program generates survive, padding included. */
  lemma {:induction false} GeneratedSecretSurvives(key: string, secret: string)
    requires key == JWT_KEY || key == AGENT_KEY
    requires |secret| <= 44 && forall c | c in secret :: IsBase64Url(c)
    ensures Survives(key, secret)
  {
    SizeBound(Entry(key, secret));
    assert secret != "" ==> secret[|secret| - 1] in secret;
  }
}
