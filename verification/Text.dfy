/** Strings as the program uses them: Go's string order, the decimal text of numbers,
    white space, and the splitting facts the key and line formats rest on. */
module Text {

  datatype Option<+T> = None | Some(value: T)

  /** Go's `<` on strings: the first differing character decides, a proper prefix is smaller. */
  predicate Less(a: string, b: string) {
    b != [] && (a == [] || a[0] < b[0] || (a[0] == b[0] && Less(a[1..], b[1..])))
  }

  /** Less is a strict total order: exactly one of a < b, a == b and b < a holds. */
  lemma {:induction false} LessIsTotal(a: string, b: string)
    ensures Less(a, b) <==> a != b && !Less(b, a)
  {
    if a != [] && b != [] && a[0] == b[0] {
      LessIsTotal(a[1..], b[1..]);
      assert a == [a[0]] + a[1..] && b == [b[0]] + b[1..];
    }
  }

  lemma {:induction false} LessIsTransitive(a: string, b: string, c: string)
    requires Less(a, b) && Less(b, c)
    ensures Less(a, c)
  {
    if a != [] && a[0] == b[0] == c[0] {
      LessIsTransitive(a[1..], b[1..], c[1..]);
    }
  }

  /** The order itself: at the first place where the texts differ the smaller character decides, and
      a text that ends there is smaller. */
  lemma {:induction false} LessIffFirstDifference(a: string, b: string)
    ensures Less(a, b) <==>
            exists k :: 0 <= k <= |a| && k < |b| && a[..k] == b[..k] && (k < |a| ==> a[k] < b[k])
  {
    forall k | 0 < k <= |a| && k < |b| && a[..k] == b[..k] ensures a[0] == b[0] && a[1..][..k - 1] == b[1..][..k - 1] {
      assert a[0] == a[..k][0] == b[..k][0] == b[0] && a[1..][..k - 1] == a[..k][1..] && b[1..][..k - 1] == b[..k][1..];
    }
    assert a[..0] == b[..0];
    if a != [] && b != [] && a[0] == b[0] {
      LessIffFirstDifference(a[1..], b[1..]);
      if Less(a, b) {
        var k :| 0 <= k <= |a[1..]| && k < |b[1..]| && a[1..][..k] == b[1..][..k]
            && (k < |a[1..]| ==> a[1..][k] < b[1..][k]);
        assert a[..k + 1] == [a[0]] + a[1..][..k] && b[..k + 1] == [b[0]] + b[1..][..k];
      }
    }
  }

  predicate HasPrefix(s: string, prefix: string) {
    |prefix| <= |s| && s[..|prefix|] == prefix
  }

  predicate HasSuffix(s: string, suffix: string) {
    |suffix| <= |s| && s[|s| - |suffix|..] == suffix
  }

  /** The white space of Go's fmt scanner and of strings.TrimSpace. */
  predicate IsSpace(c: char) {
    || '\t' <= c <= '\r' || c == ' ' || c == '\U{0085}' || c == '\U{00A0}' || c == '\U{1680}'
    || '\U{2000}' <= c <= '\U{200A}' || c == '\U{2028}' || c == '\U{2029}' || c == '\U{202F}'
    || c == '\U{205F}' || c == '\U{3000}'
  }

  predicate IsDigit(c: char) { '0' <= c <= '9' }

  predicate AllDigits(s: string) { forall c | c in s :: IsDigit(c) }

  function Digit(d: nat): (c: char)
    requires d < 10
    ensures IsDigit(c)
  {
    '0' + d as char
  }

  function DigitValue(c: char): (d: nat)
    requires IsDigit(c)
    ensures d < 10
  {
    c as int - '0' as int
  }

  /** The text `%d` prints for a non-negative number. */
  function Decimal(n: nat): (s: string)
    ensures s != [] && AllDigits(s)
  {
    if n < 10 then [Digit(n)] else Decimal(n / 10) + [Digit(n % 10)]
  }

  /** The number a run of decimal digits denotes. */
  function NumberOf(s: string): nat
    requires AllDigits(s)
  {
    if s == [] then 0 else NumberOf(s[..|s| - 1]) * 10 + DigitValue(s[|s| - 1])
  }

  lemma {:induction false} NumberOfDecimal(n: nat)
    ensures NumberOf(Decimal(n)) == n
  {
    if n >= 10 {
      NumberOfDecimal(n / 10);
      assert Decimal(n)[..|Decimal(n)| - 1] == Decimal(n / 10);
    }
  }

  /** The other way round: a digit text without a leading zero is the decimal text of its number. */
  lemma {:induction false} DecimalOfNumber(s: string)
    requires s != [] && AllDigits(s) && (s[0] == '0' ==> |s| == 1)
    ensures Decimal(NumberOf(s)) == s
  {
    var n := |s| - 1;
    if n == 0 {
      assert NumberOf(s[..0]) == 0;
    } else {
      DecimalOfNumber(s[..n]);
      PositiveNumber(s[..n]);
      assert s == s[..n] + [s[n]];
    }
  }

  lemma {:induction false} PositiveNumber(s: string)
    requires s != [] && AllDigits(s) && s[0] != '0'
    ensures NumberOf(s) > 0
  {
    if |s| > 1 {
      PositiveNumber(s[..|s| - 1]);
    } else {
      assert NumberOf(s[..0]) == 0;
    }
  }

  /** Two digits, tens first. */
  lemma {:induction false} TwoDigitNumber(tens: nat, ones: nat)
    requires tens < 10 && ones < 10
    ensures var s := [('0' as int + tens) as char, ('0' as int + ones) as char];
            AllDigits(s) && NumberOf(s) == 10 * tens + ones
    ensures var s := [('0' as int + ones) as char];
            AllDigits(s) && NumberOf(s) == ones
  {
    var s := [('0' as int + tens) as char, ('0' as int + ones) as char];
    assert s[..1] == [s[0]] && [s[0]][..0] == [] && [s[1]][..0] == [];
    assert NumberOf([s[0]]) == tens && NumberOf([s[1]]) == ones;
  }

  lemma {:induction false} DecimalIsInjective(m: nat, n: nat)
    requires Decimal(m) == Decimal(n)
    ensures m == n
  {
    NumberOfDecimal(m);
    NumberOfDecimal(n);
  }

  /** How many characters of s, from the start, are digits. */
  function DigitRun(s: string): (k: nat)
    ensures k <= |s| && AllDigits(s[..k])
    ensures k < |s| ==> !IsDigit(s[k])
  {
    if s == [] || !IsDigit(s[0]) then 0
    else
      var k := 1 + DigitRun(s[1..]);
      assert s[..k] == [s[0]] + s[1..][..k - 1];
      k
  }

  /** A run of digits is cut off exactly where something else follows. */
  lemma {:induction false} DigitRunOf(digits: string, rest: string)
    requires AllDigits(digits) && (rest == [] || !IsDigit(rest[0]))
    ensures DigitRun(digits + rest) == |digits|
  {
    var s := digits + rest;
    assert forall i | 0 <= i < |digits| :: s[i] == digits[i];
    assert rest != [] ==> s[|digits|] == rest[0];
    assert forall i | 0 <= i < DigitRun(s) :: s[..DigitRun(s)][i] == s[i];
  }

  /** Text is split in one way only at its last separator. */
  lemma {:induction false} LastSeparatorSplit(a: string, x: string, b: string, y: string, sep: char)
    requires a + [sep] + x == b + [sep] + y
    requires sep !in x && sep !in y
    ensures a == b && x == y
  {
    var u, v := a + [sep] + x, b + [sep] + y;
    assert u[|a|] == sep && v[|b|] == sep;
    assert forall i | |b| < i < |v| :: v[i] == y[i - |b| - 1];
    assert forall i | |a| < i < |u| :: u[i] == x[i - |a| - 1];
    assert |a| == |b|;
    assert u[..|a|] == a && v[..|b|] == b;
    assert u[|a| + 1..] == x && v[|b| + 1..] == y;
  }

  lemma {:induction false} ConcatIsAssociative<T>(a: seq<T>, b: seq<T>, c: seq<T>)
    ensures (a + b) + c == a + (b + c)
  {
  }

  lemma {:induction false} LastOfSum<T>(head: seq<T>, rest: seq<T>)
    requires rest != []
    ensures head + rest == head + rest[..|rest| - 1] + [rest[|rest| - 1]]
  {
  }

  lemma {:induction false} InFrontOrLast<T>(list: seq<T>)
    requires list != []
    ensures forall x :: x in list <==> x in list[..|list| - 1] || x == list[|list| - 1]
  {
    assert list == list[..|list| - 1] + [list[|list| - 1]];
  }

  /** order lists every member of members, each once. */
  ghost predicate Lists<T(!new)>(order: seq<T>, members: set<T>) {
    && (forall i, j :: 0 <= i < j < |order| ==> order[i] != order[j])
    && (forall m :: m in members <==> m in order)
  }

  /** The members of a set in an arbitrary order: a Go map range or a Redis reply. */
  method Enumerate<T(==, !new)>(members: set<T>) returns (order: seq<T>)
    ensures Lists(order, members)
  {
    order := [];
    var rest := members;
    while rest != {}
      invariant rest <= members && Lists(order, members - rest)
      decreases rest
    {
      var m :| m in rest;
      order := order + [m];
      rest := rest - {m};
    }
  }
}
