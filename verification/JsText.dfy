/** The parts of JavaScript's text library the components rely on. */
module JsText {

  datatype Option<+T> = None | Some(value: T)

  /** `\n`, `\r`, U+2028 and U+2029: what `.` does not match in a regular expression without flags. */
  predicate IsLineTerminator(c: char) {
    c == '\n' || c == '\r' || c == '\U{2028}' || c == '\U{2029}'
  }

  /** ECMAScript WhiteSpace and LineTerminator: what `trim` removes. */
  predicate IsWhitespace(c: char) {
    || '\t' <= c <= '\r' || c == ' ' || c == '\U{A0}' || c == '\U{1680}'
    || '\U{2000}' <= c <= '\U{200A}' || IsLineTerminator(c)
    || c == '\U{202F}' || c == '\U{205F}' || c == '\U{3000}' || c == '\U{FEFF}'
  }

  predicate StartsWith(s: string, prefix: string) {
    prefix <= s
  }

  predicate EndsWith(s: string, suffix: string) {
    |suffix| <= |s| && s[|s| - |suffix|..] == suffix
  }

  function TrimStart(s: string): string {
    if s != "" && IsWhitespace(s[0]) then TrimStart(s[1..]) else s
  }

  function TrimEnd(s: string): string {
    if s != "" && IsWhitespace(s[|s| - 1]) then TrimEnd(s[..|s| - 1]) else s
  }

  function Trim(s: string): string {
    TrimEnd(TrimStart(s))
  }

  predicate Trimmed(s: string) {
    s == "" || (!IsWhitespace(s[0]) && !IsWhitespace(s[|s| - 1]))
  }

  lemma {:induction false} TrimStartIsSuffix(s: string)
    ensures var r := TrimStart(s);
      |r| <= |s| && r == s[|s| - |r|..] && (r == "" || !IsWhitespace(r[0]))
  {
    if s != "" && IsWhitespace(s[0]) {
      TrimStartIsSuffix(s[1..]);
    }
  }

  lemma {:induction false} TrimEndIsPrefix(s: string)
    ensures var r := TrimEnd(s);
      |r| <= |s| && r == s[..|r|] && (r == "" || !IsWhitespace(r[|r| - 1]))
  {
    if s != "" && IsWhitespace(s[|s| - 1]) {
      TrimEndIsPrefix(s[..|s| - 1]);
    }
  }

  lemma TrimProperties(s: string)
    ensures Trimmed(Trim(s))
    ensures |Trim(s)| <= |s|
    ensures |Trim(s)| == |s| ==> Trim(s) == s
    ensures Trim(s) == s <==> Trimmed(s)
  {
    TrimStartIsSuffix(s);
    TrimEndIsPrefix(TrimStart(s));
  }

  predicate IsBlank(s: string) {
    forall i :: 0 <= i < |s| ==> IsWhitespace(s[i])
  }

  lemma {:induction false} TrimStartDropsBlank(a: string, s: string)
    requires IsBlank(a)
    ensures TrimStart(a + s) == TrimStart(s)
    decreases |a|
  {
    if a == "" {
      assert a + s == s;
    } else {
      assert (a + s)[1..] == a[1..] + s;
      TrimStartDropsBlank(a[1..], s);
    }
  }

  lemma {:induction false} TrimEndDropsBlank(s: string, b: string)
    requires IsBlank(b)
    ensures TrimEnd(s + b) == TrimEnd(s)
    decreases |b|
  {
    if b == "" {
      assert s + b == s;
    } else {
      var init := b[..|b| - 1];
      assert (s + b)[..|s + b| - 1] == s + init;
      TrimEndDropsBlank(s, init);
    }
  }

  lemma {:induction false} TrimStartCuts(s: string) returns (a: string)
    ensures IsBlank(a) && s == a + TrimStart(s)
    decreases |s|
  {
    if s != "" && IsWhitespace(s[0]) {
      var rest := TrimStartCuts(s[1..]);
      a := [s[0]] + rest;
    } else {
      a := "";
    }
  }

  lemma {:induction false} TrimEndCuts(s: string) returns (b: string)
    ensures IsBlank(b) && s == TrimEnd(s) + b
    decreases |s|
  {
    if s != "" && IsWhitespace(s[|s| - 1]) {
      var init := s[..|s| - 1];
      var rest := TrimEndCuts(init);
      b := rest + [s[|s| - 1]];
      assert s == init + [s[|s| - 1]];
    } else {
      b := "";
    }
  }

  /** `s` is `m` with whitespace around it, and `m` has none at its ends. */
  ghost predicate IsTrimOf(s: string, m: string) {
    Trimmed(m) && exists a, b :: IsBlank(a) && IsBlank(b) && s == a + m + b
  }

  lemma TrimCuts(s: string)
    ensures IsTrimOf(s, Trim(s))
  {
    hide Trimmed, IsBlank;
    var a := TrimStartCuts(s);
    var b := TrimEndCuts(TrimStart(s));
    TrimProperties(s);
    assert s == a + Trim(s) + b;
  }

  lemma {:induction false} TrimStartOfBlank(a: string)
    requires IsBlank(a)
    ensures TrimStart(a) == ""
    decreases |a|
  {
    if a != "" {
      TrimStartOfBlank(a[1..]);
    }
  }

  /** Whitespace around a text makes no difference. */
  lemma TrimIgnoresBlanks(a: string, s: string, b: string)
    requires IsBlank(a) && IsBlank(b)
    ensures Trim(a + s + b) == Trim(s)
  {
    hide IsBlank;
    assert a + s + b == a + (s + b);
    TrimStartDropsBlank(a, s + b);
    StartThenEnd(s, b);
  }

  lemma {:induction false} StartThenEnd(s: string, b: string)
    requires IsBlank(b)
    ensures TrimEnd(TrimStart(s + b)) == TrimEnd(TrimStart(s))
    decreases |s|
  {
    if s == "" {
      assert s + b == b;
      TrimStartOfBlank(b);
    } else if IsWhitespace(s[0]) {
      assert (s + b)[1..] == s[1..] + b;
      StartThenEnd(s[1..], b);
    } else {
      TrimEndDropsBlank(s, b);
    }
  }

  /** `trim` returns exactly what is left without the outer whitespace: there is no other such text. */
  lemma TrimIsTheOnlyCut(s: string, m: string)
    ensures IsTrimOf(s, m) <==> m == Trim(s)
  {
    TrimCuts(s);
    if IsTrimOf(s, m) {
      var a, b :| IsBlank(a) && IsBlank(b) && s == a + m + b;
      TrimIgnoresBlanks(a, m, b);
      TrimProperties(m);
    }
  }

  /** The code points that `trim` removes, one by one. */
  lemma WhitespaceIs(c: char)
    ensures var all :=
        "\U{9}\U{A}\U{B}\U{C}\U{D}\U{20}\U{A0}\U{1680}\U{2000}\U{2001}\U{2002}\U{2003}\U{2004}\U{2005}\U{2006}"
        + "\U{2007}\U{2008}\U{2009}\U{200A}\U{2028}\U{2029}\U{202F}\U{205F}\U{3000}\U{FEFF}";
      IsWhitespace(c) <==> c in all
  {
  }

  /** The decimal text of a natural number, as `${n}` prints it. */
  function Decimal(n: nat): (s: string)
    ensures s != ""
    ensures forall i :: 0 <= i < |s| ==> '0' <= s[i] <= '9'
  {
    (if n < 10 then "" else Decimal(n / 10)) + [Digit(n % 10)]
  }

  function Digit(d: nat): (c: char)
    requires d < 10
    ensures '0' <= c <= '9'
  {
    '0' + d as char
  }

  function DecimalValue(s: string): int {
    if s == "" then 0 else 10 * DecimalValue(s[..|s| - 1]) + (s[|s| - 1] as int - '0' as int)
  }

  /** Reading the digits back gives the number, so distinct numbers print differently. */
  lemma {:induction false} DecimalReadsBack(n: nat)
    ensures DecimalValue(Decimal(n)) == n
  {
    var s := Decimal(n);
    if n < 10 {
      assert s[..|s| - 1] == "";
    } else {
      DecimalReadsBack(n / 10);
      assert s[..|s| - 1] == Decimal(n / 10);
    }
  }

  /** No leading zero, except for zero itself. */
  lemma {:induction false} DecimalHasNoLeadingZero(n: nat)
    ensures n > 0 ==> Decimal(n)[0] != '0'
    ensures n == 0 ==> Decimal(n) == "0"
  {
    if n >= 10 {
      DecimalHasNoLeadingZero(n / 10);
      assert Decimal(n)[0] == Decimal(n / 10)[0];
    }
  }

  lemma DecimalInjective(m: nat, n: nat)
    requires Decimal(m) == Decimal(n)
    ensures m == n
  {
    DecimalReadsBack(m);
    DecimalReadsBack(n);
  }

  function LeadingDigits(s: string): nat {
    if s != "" && '0' <= s[0] <= '9' then 1 + LeadingDigits(s[1..]) else 0
  }

  lemma {:induction false} LeadingDigitsOfPrefix(a: string, x: string)
    requires forall i :: 0 <= i < |a| ==> '0' <= a[i] <= '9'
    requires x == "" || x[0] == '-'
    ensures LeadingDigits(a + x) == |a|
    decreases |a|
  {
    if a == "" {
      assert a + x == x;
    } else {
      assert (a + x)[1..] == a[1..] + x;
      LeadingDigitsOfPrefix(a[1..], x);
    }
  }

  /** A number followed by nothing or by a hyphen can be cut off in one way only. */
  lemma NumberBeforeHyphen(m: nat, x: string, n: nat, y: string)
    requires Decimal(m) + x == Decimal(n) + y
    requires x == "" || x[0] == '-'
    requires y == "" || y[0] == '-'
    ensures m == n && x == y
  {
    var a, b := Decimal(m), Decimal(n);
    LeadingDigitsOfPrefix(a, x);
    LeadingDigitsOfPrefix(b, y);
    assert a == (a + x)[..|a|] == b;
    assert x == (a + x)[|a|..] == y;
    DecimalInjective(m, n);
  }
}
