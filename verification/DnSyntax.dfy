/**
 * Splitting a distinguished name at its unescaped commas, and undoing the escaping.
 *
 * The scanner's `escaped` flag is also written as a function of the text read so far, which gives
 * a definition of "unescaped comma" that does not mention the scanner's loop.
 */
module DnSyntax {
  import opened Sequences
  import opened JsText
  import Hex

  // ----- The grammar of a raw piece -----

  /** The scanner's flag after reading `s`. */
  function EscapedAfter(s: string, escaped: bool): bool {
    if s == "" then escaped else EscapedAfter(s[1..], !escaped && s[0] == '\\')
  }

  /** No comma of `s` is unescaped. */
  predicate CommaFree(s: string, escaped: bool) {
    s == "" || ((escaped || s[0] != ',') && CommaFree(s[1..], !escaped && s[0] == '\\'))
  }

  function TrailingBackslashes(s: string): nat {
    if s != "" && Last(s) == '\\' then 1 + TrailingBackslashes(Front(s)) else 0
  }

  /** The text does not end inside an escape. */
  predicate Closed(s: string) {
    TrailingBackslashes(s) % 2 == 0
  }

  lemma {:induction false} EscapedAfterConcat(a: string, b: string, e: bool)
    ensures EscapedAfter(a + b, e) == EscapedAfter(b, EscapedAfter(a, e))
    ensures CommaFree(a + b, e) <==> CommaFree(a, e) && CommaFree(b, EscapedAfter(a, e))
    decreases |a|
  {
    if a == "" {
      assert a + b == b;
    } else {
      assert (a + b)[1..] == a[1..] + b;
      EscapedAfterConcat(a[1..], b, !e && a[0] == '\\');
    }
  }

  /** The flag is up exactly after an odd run of backslashes. */
  lemma {:induction false} EscapedIffOddRun(s: string)
    ensures EscapedAfter(s, false) <==> !Closed(s)
    decreases |s|
  {
    if s != "" {
      assert s == Front(s) + [Last(s)];
      EscapedIffOddRun(Front(s));
      EscapedAfterConcat(Front(s), [Last(s)], false);
      assert [Last(s)][1..] == "";
    }
  }

  // ----- Pieces -----

  /** The pieces between unescaped commas, before any trimming; always at least one. */
  function RawPieces(s: string, escaped: bool): (r: seq<string>)
    ensures r != []
    decreases |s|
  {
    if s == "" then [""]
    else
      var rest := RawPieces(s[1..], !escaped && s[0] == '\\');
      if !escaped && s[0] == ',' then [""] + rest else Glue([s[0]], rest)
  }

  /** Puts `prefix` in front of the first piece. */
  function Glue(prefix: string, ps: seq<string>): (r: seq<string>)
    requires ps != []
    ensures |r| == |ps|
  {
    [prefix + ps[0]] + ps[1..]
  }

  lemma GlueConcat(a: string, b: string, ps: seq<string>)
    requires ps != []
    ensures Glue(a, Glue(b, ps)) == Glue(a + b, ps)
    ensures Glue("", ps) == ps
  {
    assert a + (b + ps[0]) == a + b + ps[0];
    assert "" + ps[0] == ps[0];
  }

  function Join(ps: seq<string>): string {
    if ps == [] then "" else if |ps| == 1 then ps[0] else ps[0] + "," + Join(ps[1..])
  }

  function TrimAll(ps: seq<string>): (r: seq<string>)
    ensures |r| == |ps|
  {
    if ps == [] then [] else TrimAll(Front(ps)) + [Trim(Last(ps))]
  }

  lemma {:induction false} TrimAllAt(ps: seq<string>)
    ensures forall i :: 0 <= i < |ps| ==> TrimAll(ps)[i] == Trim(ps[i])
    decreases |ps|
  {
    if ps != [] {
      TrimAllAt(Front(ps));
    }
  }

  function DropEmptyLast(ps: seq<string>): seq<string> {
    if ps != [] && Last(ps) == "" then Front(ps) else ps
  }

  /** What `splitDn` returns. */
  function Components(dn: string): seq<string> {
    TrimAll(DropEmptyLast(RawPieces(dn, false)))
  }

  /** The pieces the scanner is going to produce from where it stands. */
  ghost function Outcome(raw: seq<string>, current: string, rest: string, escaped: bool): seq<string> {
    raw + Glue(current, RawPieces(rest, escaped))
  }

  lemma GlueAtCut(raw: seq<string>, current: string, tail: seq<string>)
    requires tail != []
    ensures raw + Glue(current, [""] + tail) == raw + [current] + Glue("", tail)
  {
    GlueConcat("", "", tail);
    assert current + "" == current;
    assert Glue(current, [""] + tail) == [current] + tail;
  }

  lemma ScanCuts(raw: seq<string>, current: string, s: string)
    requires s != "" && s[0] == ','
    ensures Outcome(raw, current, s, false) == Outcome(raw + [current], "", s[1..], false)
  {
    var tail := RawPieces(s[1..], false);
    assert RawPieces(s, false) == [""] + tail;
    GlueAtCut(raw, current, tail);
  }

  lemma ScanKeeps(raw: seq<string>, current: string, s: string, escaped: bool)
    requires s != "" && (escaped || s[0] != ',')
    ensures Outcome(raw, current, s, escaped)
      == Outcome(raw, current + [s[0]], s[1..], !escaped && s[0] == '\\')
  {
    GlueConcat(current, [s[0]], RawPieces(s[1..], !escaped && s[0] == '\\'));
  }

  lemma TrimAllSnoc(ps: seq<string>, p: string)
    ensures TrimAll(ps + [p]) == TrimAll(ps) + [Trim(p)]
  {
    assert Front(ps + [p]) == ps;
  }

  lemma LastPiece(raw: seq<string>, current: string)
    ensures raw + Glue(current, [""]) == raw + [current]
    ensures TrimAll(DropEmptyLast(raw + [current]))
      == if current != "" then TrimAll(raw) + [Trim(current)] else TrimAll(raw)
  {
    assert current + "" == current;
    assert Front(raw + [current]) == raw;
    TrimAllSnoc(raw, current);
  }

  method SplitDn(dn: string) returns (components: seq<string>)
    ensures components == Components(dn)
  {
    components := [];
    var current := "";
    var escaped := false;
    ghost var raw: seq<string> := [];
    GlueConcat("", "", RawPieces(dn, false));
    assert dn[0..] == dn;
    for i := 0 to |dn|
      invariant components == TrimAll(raw)
      invariant RawPieces(dn, false) == Outcome(raw, current, dn[i..], escaped)
    {
      var c := dn[i];
      assert dn[i..][0] == c && dn[i..][1..] == dn[i + 1..];
      if escaped || c != ',' {
        ScanKeeps(raw, current, dn[i..], escaped);
      } else {
        ScanCuts(raw, current, dn[i..]);
      }
      if escaped {
        current := current + [c];
        escaped := false;
      } else if c == '\\' {
        current := current + [c];
        escaped := true;
      } else if c == ',' {
        TrimAllSnoc(raw, current);
        components := components + [Trim(current)];
        raw := raw + [current];
        current := "";
      } else {
        current := current + [c];
      }
    }
    assert dn[|dn|..] == "";
    LastPiece(raw, current);
    if current != "" {
      components := components + [Trim(current)];
    }
  }

  ghost predicate WellFormedPieces(ps: seq<string>) {
    && ps != []
    && (forall i :: 0 <= i < |ps| ==> CommaFree(ps[i], false))
    && (forall i :: 0 <= i < |ps| - 1 ==> Closed(ps[i]))
  }

  /** Joining the pieces with commas restores the text. */
  lemma {:induction false} JoinRawPieces(s: string, e: bool)
    ensures Join(RawPieces(s, e)) == s
    decreases |s|
  {
    if s != "" {
      var e' := !e && s[0] == '\\';
      JoinRawPieces(s[1..], e');
      var rest := RawPieces(s[1..], e');
      assert s == [s[0]] + s[1..];
      if !e && s[0] == ',' {
        assert ([""] + rest)[1..] == rest;
      } else {
        assert Glue([s[0]], rest)[1..] == rest[1..];
      }
    }
  }

  /** No piece holds an unescaped comma, and no piece but the last ends inside an escape. */
  lemma {:induction false} RawPiecesAreWellFormed(s: string, e: bool)
    ensures var r := RawPieces(s, e);
      && CommaFree(r[0], e) && (|r| > 1 ==> !EscapedAfter(r[0], e))
      && (forall i :: 1 <= i < |r| ==> CommaFree(r[i], false))
      && (forall i :: 1 <= i < |r| - 1 ==> !EscapedAfter(r[i], false))
    decreases |s|
  {
    if s != "" {
      var e' := !e && s[0] == '\\';
      RawPiecesAreWellFormed(s[1..], e');
      var rest := RawPieces(s[1..], e');
      if e || s[0] != ',' {
        assert ([s[0]] + rest[0])[1..] == rest[0];
      }
    }
  }

  lemma {:induction false} RawPiecesOfPrefix(a: string, b: string, e: bool)
    requires CommaFree(a, e)
    ensures RawPieces(a + b, e) == Glue(a, RawPieces(b, EscapedAfter(a, e)))
    decreases |a|
  {
    var tail := RawPieces(b, EscapedAfter(a, e));
    if a == "" {
      assert a + b == b;
      GlueConcat("", "", tail);
    } else {
      assert (a + b)[1..] == a[1..] + b;
      RawPiecesOfPrefix(a[1..], b, !e && a[0] == '\\');
      assert [a[0]] + a[1..] == a;
      GlueConcat([a[0]], a[1..], tail);
    }
  }

  lemma {:induction false} RawPiecesOfJoin(ps: seq<string>)
    requires WellFormedPieces(ps)
    ensures RawPieces(Join(ps), false) == ps
    decreases |ps|
  {
    var p := ps[0];
    if |ps| == 1 {
      assert Join(ps) == p + "";
      RawPiecesOfPrefix(p, "", false);
      assert Glue(p, [""]) == ps;
    } else {
      var rest := "," + Join(ps[1..]);
      assert Join(ps) == p + rest;
      RawPiecesOfPrefix(p, rest, false);
      EscapedIffOddRun(p);
      assert rest[1..] == Join(ps[1..]);
      RawPiecesOfJoin(ps[1..]);
      assert p + "" == p;
      assert Glue(p, [""] + ps[1..]) == ps;
    }
  }

  /**
   * The scanner finds the only way to cut a text at unescaped commas: cutting and joining are
   * inverse to each other between texts and well-formed piece lists.
   */
  lemma {:induction false} SplitIsTheOnlyCut(dn: string, ps: seq<string>)
    ensures WellFormedPieces(ps) && Join(ps) == dn <==> ps == RawPieces(dn, false)
  {
    if WellFormedPieces(ps) {
      RawPiecesOfJoin(ps);
    }
    JoinRawPieces(dn, false);
    RawPiecesAreWellFormed(dn, false);
    var r := RawPieces(dn, false);
    forall i | 0 <= i < |r| {
      EscapedIffOddRun(r[i]);
    }
  }

  lemma {:induction false} JoinSnocEmpty(ps: seq<string>)
    requires ps != []
    ensures Join(ps + [""]) == Join(ps) + ","
  {
    if |ps| > 1 {
      JoinSnocEmpty(ps[1..]);
      assert (ps + [""])[1..] == ps[1..] + [""];
    } else {
      assert (ps + [""])[1..] == [""];
    }
  }

  /** Up to trimming, only a final comma is lost. */
  lemma {:induction false} SplitLosesOnlyAFinalComma(dn: string)
    ensures var kept := DropEmptyLast(RawPieces(dn, false));
      Components(dn) == TrimAll(kept) && (Join(kept) == dn || Join(kept) + "," == dn)
  {
    JoinRawPieces(dn, false);
    var r := RawPieces(dn, false);
    if Last(r) == "" && |r| > 1 {
      JoinSnocEmpty(Front(r));
      assert Front(r) + [""] == r;
    }
  }

  lemma TrimKeepsCommaFree(s: string)
    requires CommaFree(s, false)
    ensures CommaFree(Trim(s), false)
  {
    TrimStartKeepsCommaFree(s);
    var m := TrimStart(s);
    var t := TrimEnd(m);
    TrimEndIsPrefix(m);
    assert m == t + m[|t|..];
    EscapedAfterConcat(t, m[|t|..], false);
  }

  lemma {:induction false} TrimStartKeepsCommaFree(s: string)
    requires CommaFree(s, false)
    ensures CommaFree(TrimStart(s), false)
    decreases |s|
  {
    if s != "" && IsWhitespace(s[0]) {
      TrimStartKeepsCommaFree(s[1..]);
    }
  }

  /** What every component of a parsed name is: trimmed, with no unescaped comma. */
  predicate IsComponent(c: string) {
    Trimmed(c) && CommaFree(c, false)
  }

  lemma {:induction false} ComponentsAreComponents(dn: string)
    ensures forall c :: c in Components(dn) ==> IsComponent(c)
  {
    RawPiecesAreWellFormed(dn, false);
    var r := RawPieces(dn, false);
    TrimAllAt(DropEmptyLast(r));
    forall i | 0 <= i < |r|
      ensures IsComponent(Trim(r[i]))
    {
      TrimKeepsCommaFree(r[i]);
      TrimProperties(r[i]);
    }
  }

  /**
   * Each component is its raw piece without exactly the outer whitespace: the piece is the component
   * with whitespace around it, and no other trimmed text is.
   */
  lemma ComponentsAreTrimmedPieces(dn: string)
    ensures var kept, cs := DropEmptyLast(RawPieces(dn, false)), Components(dn);
      && |cs| == |kept|
      && forall i, m :: 0 <= i < |cs| ==> (IsTrimOf(kept[i], m) <==> m == cs[i])
  {
    hide RawPieces, IsTrimOf;
    var kept, cs := DropEmptyLast(RawPieces(dn, false)), Components(dn);
    TrimAllAt(kept);
    forall i, m | 0 <= i < |cs|
      ensures IsTrimOf(kept[i], m) <==> m == cs[i]
    {
      TrimIsTheOnlyCut(kept[i], m);
    }
  }

  // ----- Unescaping -----

  /** `rdn.replace(/\\(.)/g, '$1')`: a backslash before anything but a line terminator is dropped. */
  function UnescapeRdn(rdn: string): (r: string)
    ensures |r| <= |rdn|
    ensures rdn != "" ==> r != "" && Last(r) == Last(rdn)
    decreases |rdn|
  {
    if rdn == "" then ""
    else if |rdn| >= 2 && rdn[0] == '\\' && !IsLineTerminator(rdn[1]) then
      [rdn[1]] + UnescapeRdn(rdn[2..])
    else
      [rdn[0]] + UnescapeRdn(rdn[1..])
  }

  function UnescapeAll(cs: seq<string>): (r: seq<string>)
    ensures |r| == |cs| && forall i :: 0 <= i < |cs| ==> r[i] == UnescapeRdn(cs[i])
  {
    seq(|cs|, i requires 0 <= i < |cs| => UnescapeRdn(cs[i]))
  }

  lemma {:induction false} UnescapePrefixIsShorter(s: string, n: nat)
    requires n <= |s|
    ensures |UnescapeRdn(s[..n])| <= |UnescapeRdn(s)|
    decreases n
  {
    if n == 0 {
    } else if |s| >= 2 && s[0] == '\\' && !IsLineTerminator(s[1]) {
      if n == 1 {
        assert s[..1][1..] == "";
      } else {
        assert s[..n][2..] == s[2..][..n - 2];
        UnescapePrefixIsShorter(s[2..], n - 2);
      }
    } else {
      assert s[..n][1..] == s[1..][..n - 1];
      UnescapePrefixIsShorter(s[1..], n - 1);
    }
  }

  // ----- Printing under any escaping policy -----

  /** A character to print, with the printer's decision whether to put a backslash before it. */
  datatype Mark = Mark(c: char, escaped: bool)

  /** Commas and backslashes must be escaped; a backslash before a line terminator is never undone. */
  predicate LegalMarks(t: seq<Mark>) {
    forall i :: 0 <= i < |t| ==>
      && (t[i].c == ',' || t[i].c == '\\' ==> t[i].escaped)
      && (IsLineTerminator(t[i].c) ==> !t[i].escaped)
  }

  function Plain(t: seq<Mark>): (r: string)
    ensures |r| == |t|
  {
    seq(|t|, i requires 0 <= i < |t| => t[i].c)
  }

  function PrintMark(m: Mark): string {
    if m.escaped then ['\\', m.c] else [m.c]
  }

  function Printed(t: seq<Mark>): (r: string)
    ensures t != [] ==> r != ""
  {
    if t == [] then "" else PrintMark(t[0]) + Printed(t[1..])
  }

  function PlainAll(ts: seq<seq<Mark>>): (r: seq<string>)
    ensures |r| == |ts|
  {
    seq(|ts|, i requires 0 <= i < |ts| => Plain(ts[i]))
  }

  function PrintedAll(ts: seq<seq<Mark>>): (r: seq<string>)
    ensures |r| == |ts|
  {
    seq(|ts|, i requires 0 <= i < |ts| => Printed(ts[i]))
  }

  /** No whitespace where `trim` would reach it: none at the end, none unescaped at the start. */
  predicate SurvivesTrim(t: seq<Mark>) {
    t != [] ==> (t[0].escaped || !IsWhitespace(t[0].c)) && !IsWhitespace(Last(t).c)
  }

  lemma {:induction false} PrintedIsWellFormed(t: seq<Mark>)
    requires LegalMarks(t)
    ensures CommaFree(Printed(t), false) && !EscapedAfter(Printed(t), false)
    decreases |t|
  {
    if t != [] {
      var head := PrintMark(t[0]);
      PrintedIsWellFormed(t[1..]);
      EscapedAfterConcat(head, Printed(t[1..]), false);
      assert t[0].escaped ==> head[1..] == [t[0].c];
    }
  }

  /**
   * How any text at all can be read: line terminators are never escaped, and a backslash that escapes
   * nothing stands at the end or before one of them.
   */
  predicate Readable(t: seq<Mark>) {
    forall i :: 0 <= i < |t| ==>
      && (IsLineTerminator(t[i].c) ==> !t[i].escaped)
      && (t[i] == Mark('\\', false) && i + 1 < |t| ==> IsLineTerminator(t[i + 1].c))
  }

  lemma {:induction false} UnescapeReads(t: seq<Mark>)
    requires Readable(t)
    ensures UnescapeRdn(Printed(t)) == Plain(t)
    ensures t != [] ==> Last(Printed(t)) == Last(t).c
    decreases |t|
  {
    if t != [] {
      var rest := t[1..];
      assert forall i :: 0 <= i < |rest| ==> rest[i] == t[i + 1];
      UnescapeReads(rest);
      assert Plain(t) == [t[0].c] + Plain(rest);
      assert Printed(t) == PrintMark(t[0]) + Printed(rest);
      assert Printed(t)[|PrintMark(t[0])|..] == Printed(rest);
      FirstMark(t);
    }
  }

  lemma FirstMark(t: seq<Mark>)
    requires Readable(t) && t != []
    ensures t[0].escaped ==> !IsLineTerminator(t[0].c)
    ensures t[0] == Mark('\\', false) && |Printed(t)| >= 2 ==> IsLineTerminator(Printed(t)[1])
  {
    if |t| > 1 {
      assert Printed(t[1..])[0] == PrintMark(t[1])[0];
    }
  }

  /** Every text is read in one of these ways, so `UnescapeReads` says what it unescapes to. */
  lemma {:induction false} EveryTextIsReadable(s: string) returns (t: seq<Mark>)
    ensures Readable(t) && Printed(t) == s
    decreases |s|
  {
    if s == "" {
      t := [];
    } else {
      var escaped := |s| >= 2 && s[0] == '\\' && !IsLineTerminator(s[1]);
      var n := if escaped then 2 else 1;
      var head := Mark(s[n - 1], escaped);
      var rest := EveryTextIsReadable(s[n..]);
      t := [head] + rest;
      assert t[1..] == rest;
      assert s == PrintMark(head) + s[n..];
      if rest != [] {
        FirstPrinted(rest);
      }
    }
  }

  lemma FirstPrinted(t: seq<Mark>)
    requires t != []
    ensures Printed(t) != "" && Printed(t)[0] == if t[0].escaped then '\\' else t[0].c
  {
  }

  lemma UnescapeUndoesPrinting(t: seq<Mark>)
    requires LegalMarks(t)
    ensures UnescapeRdn(Printed(t)) == Plain(t)
    ensures t != [] ==> Last(Printed(t)) == Last(t).c
  {
    UnescapeReads(t);
  }

  /** The trimmed text of a component unescapes to its value exactly when `trim` had nothing to cut. */
  lemma {:induction false} ComponentRoundTrip(t: seq<Mark>)
    requires LegalMarks(t)
    ensures UnescapeRdn(Trim(Printed(t))) == Plain(t) <==> SurvivesTrim(t)
  {
    UnescapeUndoesPrinting(t);
    if t != [] {
      var s := Printed(t);
      var r := Trim(s);
      TrimProperties(s);
      if IsWhitespace(Last(t).c) {
        assert Last(Plain(t)) == Last(t).c;
        assert r == "" || Last(UnescapeRdn(r)) == Last(r);
      } else if !t[0].escaped && IsWhitespace(t[0].c) {
        assert s[1..] == Printed(t[1..]);
        TrimNeverLengthens(t[1..]);
      } else {
        assert s[0] == PrintMark(t[0])[0];
      }
    }
  }

  lemma {:induction false} TrimNeverLengthens(t: seq<Mark>)
    requires LegalMarks(t)
    ensures |UnescapeRdn(Trim(Printed(t)))| <= |t|
    decreases |t|
  {
    var s := Printed(t);
    if s != "" && IsWhitespace(s[0]) {
      assert !t[0].escaped;
      assert s[1..] == Printed(t[1..]);
      TrimNeverLengthens(t[1..]);
    } else {
      assert TrimStart(s) == s;
      TrimEndIsPrefix(s);
      UnescapeUndoesPrinting(t);
      UnescapePrefixIsShorter(s, |Trim(s)|);
    }
  }

  /**
   * Print, split, unescape: the values come back exactly when none of them loses whitespace to
   * `trim` and the last one is not empty, whatever else the printer chose to escape.
   */
  lemma {:induction false} PrintParseRoundTrip(ts: seq<seq<Mark>>)
    requires forall i :: 0 <= i < |ts| ==> LegalMarks(ts[i])
    ensures UnescapeAll(Components(Join(PrintedAll(ts)))) == PlainAll(ts) <==>
      (ts != [] ==> Last(ts) != []) && forall i :: 0 <= i < |ts| ==> SurvivesTrim(ts[i])
  {
    if ts == [] {
      assert Join(PrintedAll(ts)) == "";
    } else {
      PrintedPieces(ts);
      var ps := PrintedAll(ts);
      if Last(ts) == [] {
        assert |Components(Join(ps))| == |ts| - 1;
      } else {
        assert DropEmptyLast(ps) == ps;
        PointwiseEqual(ps, PlainAll(ts));
      }
    }
  }

  lemma PointwiseEqual(ps: seq<string>, vs: seq<string>)
    requires |ps| == |vs|
    ensures UnescapeAll(TrimAll(ps)) == vs <==> forall i :: 0 <= i < |vs| ==> UnescapeRdn(Trim(ps[i])) == vs[i]
  {
    var l := UnescapeAll(TrimAll(ps));
    TrimAllAt(ps);
    assert forall i :: 0 <= i < |vs| ==> l[i] == UnescapeRdn(Trim(ps[i]));
  }

  lemma PrintedPieces(ts: seq<seq<Mark>>)
    requires ts != [] && forall i :: 0 <= i < |ts| ==> LegalMarks(ts[i])
    ensures RawPieces(Join(PrintedAll(ts)), false) == PrintedAll(ts)
    ensures forall i :: 0 <= i < |ts| ==>
      (UnescapeRdn(Trim(PrintedAll(ts)[i])) == Plain(ts[i]) <==> SurvivesTrim(ts[i]))
  {
    var ps := PrintedAll(ts);
    forall i | 0 <= i < |ts|
      ensures CommaFree(ps[i], false) && Closed(ps[i])
      ensures UnescapeRdn(Trim(ps[i])) == Plain(ts[i]) <==> SurvivesTrim(ts[i])
    {
      PrintedIsWellFormed(ts[i]);
      EscapedIffOddRun(ps[i]);
      ComponentRoundTrip(ts[i]);
    }
    RawPiecesOfJoin(ps);
  }

  // ----- Whitespace around the printed values -----

  /** A printed value and the whitespace before and after it. */
  datatype Padded = Padded(before: string, marks: seq<Mark>, after: string)

  function PaddedText(x: Padded): string {
    x.before + Printed(x.marks) + x.after
  }

  function PaddedTexts(xs: seq<Padded>): (r: seq<string>)
    ensures |r| == |xs| && forall i :: 0 <= i < |xs| ==> r[i] == PaddedText(xs[i])
  {
    seq(|xs|, i requires 0 <= i < |xs| => PaddedText(xs[i]))
  }

  function PlainValues(xs: seq<Padded>): (r: seq<string>)
    ensures |r| == |xs| && forall i :: 0 <= i < |xs| ==> r[i] == Plain(xs[i].marks)
  {
    seq(|xs|, i requires 0 <= i < |xs| => Plain(xs[i].marks))
  }

  predicate LegalPadded(x: Padded) {
    IsBlank(x.before) && IsBlank(x.after) && LegalMarks(x.marks)
  }

  lemma {:induction false} BlankIsPlain(s: string)
    requires IsBlank(s)
    ensures CommaFree(s, false) && !EscapedAfter(s, false)
    decreases |s|
  {
    if s != "" {
      BlankIsPlain(s[1..]);
    }
  }

  lemma PaddedPiece(x: Padded)
    requires LegalPadded(x)
    ensures CommaFree(PaddedText(x), false) && Closed(PaddedText(x))
    ensures UnescapeRdn(Trim(PaddedText(x))) == Plain(x.marks) <==> SurvivesTrim(x.marks)
  {
    hide CommaFree, EscapedAfter, Closed, Trim, UnescapeRdn, Printed, IsBlank, LegalMarks, SurvivesTrim;
    var text := Printed(x.marks);
    BlankIsPlain(x.before);
    BlankIsPlain(x.after);
    PrintedIsWellFormed(x.marks);
    EscapedAfterConcat(x.before, text, false);
    EscapedAfterConcat(x.before + text, x.after, false);
    EscapedIffOddRun(PaddedText(x));
    TrimIgnoresBlanks(x.before, text, x.after);
    ComponentRoundTrip(x.marks);
  }

  /**
   * Print, pad with any whitespace, join, split, unescape: the values come back exactly when none of
   * them loses whitespace of its own to `trim` and the last padded text is not empty.
   */
  lemma PaddedRoundTrip(xs: seq<Padded>)
    requires forall i :: 0 <= i < |xs| ==> LegalPadded(xs[i])
    ensures UnescapeAll(Components(Join(PaddedTexts(xs)))) == PlainValues(xs) <==>
      (xs != [] ==> PaddedText(Last(xs)) != "") && forall i :: 0 <= i < |xs| ==> SurvivesTrim(xs[i].marks)
  {
    hide LegalPadded, PaddedText, SurvivesTrim, Plain, UnescapeRdn, Trim, CommaFree, Closed, RawPieces;
    var ps := PaddedTexts(xs);
    forall i | 0 <= i < |xs|
      ensures CommaFree(ps[i], false) && Closed(ps[i])
      ensures UnescapeRdn(Trim(ps[i])) == PlainValues(xs)[i] <==> SurvivesTrim(xs[i].marks)
    {
      PaddedPiece(xs[i]);
    }
    if xs == [] {
      NoPieces();
    } else {
      RawPiecesOfJoin(ps);
      if PaddedText(Last(xs)) == "" {
        assert |Components(Join(ps))| == |xs| - 1;
      } else {
        assert DropEmptyLast(ps) == ps;
        PointwiseEqual(ps, PlainValues(xs));
      }
    }
  }

  lemma NoPieces()
    ensures Components("") == []
  {
  }

  // ----- The RFC 4514 printer -----

  /**
   * An RDN of one attribute: with a short name and a text as value, or with a dotted identifier and
   * the encoding of its value.
   */
  datatype Ava = Named(attribute: string, value: string) | Dotted(oid: string, encoding: seq<bv8>)

  predicate IsLetter(c: char) {
    'a' <= c <= 'z' || 'A' <= c <= 'Z'
  }

  predicate IsDigit(c: char) {
    '0' <= c <= '9'
  }

  /** A short name begins with a letter, a dotted identifier consists of digits and dots (section 3). */
  predicate HasType(a: Ava) {
    match a
    case Named(attribute, _) =>
      && attribute != "" && IsLetter(attribute[0])
      && forall i :: 0 <= i < |attribute| ==> IsLetter(attribute[i]) || IsDigit(attribute[i]) || attribute[i] == '-'
    case Dotted(oid, _) =>
      oid != "" && forall i :: 0 <= i < |oid| ==> IsDigit(oid[i]) || oid[i] == '.'
  }

  /** The text of an attribute; the encoding of a dotted one is written after a `#`, two digits a byte. */
  function TextOf(a: Ava): (r: string)
    ensures r != ""
  {
    match a
    case Named(attribute, value) => attribute + "=" + value
    case Dotted(oid, encoding) => oid + "=#" + Hex.Encode(encoding)
  }

  /** Section 2.4 of RFC 4514: which characters of a value get a backslash. */
  predicate Rfc4514Escapes(v: string, i: nat)
    requires i < |v|
  {
    || v[i] in "\"+,;<>\\"
    || (i == 0 && (v[i] == ' ' || v[i] == '#'))
    || (i == |v| - 1 && v[i] == ' ')
  }

  /** One character of a value; the null character is printed as a hexadecimal pair. */
  function CharMarks(v: string, i: nat): (r: seq<Mark>)
    requires i < |v|
    ensures r != []
  {
    if v[i] == '\0' then [Mark('0', true), Mark('0', false)] else [Mark(v[i], Rfc4514Escapes(v, i))]
  }

  /** The first `n` characters of a value. */
  function ValueMarks(v: string, n: nat): seq<Mark>
    requires n <= |v|
  {
    if n == 0 then [] else ValueMarks(v, n - 1) + CharMarks(v, n - 1)
  }

  function Unescaped(s: string): (r: seq<Mark>)
    ensures |r| == |s|
  {
    seq(|s|, i requires 0 <= i < |s| => Mark(s[i], false))
  }

  function Rfc4514Marks(a: Ava): (r: seq<Mark>)
    ensures r != []
  {
    match a
    case Named(attribute, value) => Unescaped(attribute + "=") + ValueMarks(value, |value|)
    case Dotted(_, _) => Unescaped(TextOf(a))
  }

  function Rfc4514Print(name: seq<Ava>): string {
    Join(PrintedAll(MarksOf(name)))
  }

  function MarksOf(name: seq<Ava>): (r: seq<seq<Mark>>)
    ensures |r| == |name| && forall i :: 0 <= i < |name| ==> r[i] == Rfc4514Marks(name[i])
  {
    seq(|name|, i requires 0 <= i < |name| => Rfc4514Marks(name[i]))
  }

  /** The components of a name as text. */
  function Texts(name: seq<Ava>): (r: seq<string>)
    ensures |r| == |name| && forall i :: 0 <= i < |name| ==> r[i] == TextOf(name[i])
  {
    seq(|name|, i requires 0 <= i < |name| => TextOf(name[i]))
  }

  /** What the page reads back: values without null characters and without whitespace at the end. */
  predicate IsReadBack(a: Ava) {
    !HoldsNull(a) && !EndsInWhitespace(a)
  }

  predicate HoldsNull(a: Ava) {
    a.Named? && '\0' in a.value
  }

  predicate EndsInWhitespace(a: Ava) {
    a.Named? && a.value != "" && IsWhitespace(Last(a.value))
  }

  ghost predicate NullFree(t: seq<Mark>) {
    forall i :: 0 <= i < |t| ==> t[i].c != '\0'
  }

  lemma {:induction false} ValueMarksAre(v: string, n: nat)
    requires n <= |v|
    ensures var r := ValueMarks(v, n);
      && LegalMarks(r) && NullFree(r)
      && (n > 0 ==> r != [] && (IsWhitespace(Last(r).c) <==> IsWhitespace(v[n - 1])))
      && ('\0' !in v[..n] ==> Plain(r) == v[..n])
  {
    if n > 0 {
      ValueMarksAre(v, n - 1);
      assert v[..n] == v[..n - 1] + [v[n - 1]];
    }
  }

  lemma NamedMarks(a: Ava)
    requires a.Named? && HasType(a)
    ensures var r := Rfc4514Marks(a);
      && LegalMarks(r) && NullFree(r)
      && ('\0' !in a.value ==> Plain(r) == TextOf(a))
      && (SurvivesTrim(r) <==> a.value == "" || !IsWhitespace(Last(a.value)))
  {
    hide ValueMarks;
    var v, head := a.value, a.attribute + "=";
    var tail := ValueMarks(v, |v|);
    NothingMarked(v);
    ValueMarksAre(v, |v|);
    assert v[..|v|] == v;
    UnescapedIs(head);
    PlainConcat(Unescaped(head), tail);
  }

  lemma NothingMarked(v: string)
    ensures ValueMarks(v, 0) == []
  {
  }

  lemma PlainConcat(a: seq<Mark>, b: seq<Mark>)
    ensures Plain(a + b) == Plain(a) + Plain(b)
  {
  }

  lemma UnescapedIs(s: string)
    ensures Plain(Unescaped(s)) == s
  {
  }

  lemma {:induction false} EncodingIsHex(data: seq<bv8>)
    ensures Hex.AllHex(Hex.Encode(data))
    decreases |data|
  {
    if data != [] {
      EncodingIsHex(Front(data));
      Hex.ByteIsHex(Last(data));
    }
  }

  lemma DottedMarks(a: Ava)
    requires a.Dotted? && HasType(a)
    ensures var r := Rfc4514Marks(a);
      LegalMarks(r) && NullFree(r) && Plain(r) == TextOf(a) && SurvivesTrim(r)
  {
    hide Hex.Encode;
    var t := TextOf(a);
    EncodingIsHex(a.encoding);
    UnescapedIs(t);
    forall i | 0 <= i < |t|
      ensures IsDigit(t[i]) || t[i] in ".=#" || Hex.IsHexDigit(t[i])
    {
      var n := |a.oid| + 2;
      if i >= n {
        assert t[i] == Hex.Encode(a.encoding)[i - n];
      }
    }
  }

  lemma Rfc4514MarksAreLegal(a: Ava)
    requires HasType(a)
    ensures var r := Rfc4514Marks(a);
      && LegalMarks(r) && NullFree(r)
      && (HoldsNull(a) || Plain(r) == TextOf(a))
      && (SurvivesTrim(r) <==> !EndsInWhitespace(a))
  {
    hide LegalMarks, NullFree, SurvivesTrim, Rfc4514Marks, HasType, TextOf;
    if a.Named? {
      NamedMarks(a);
    } else {
      DottedMarks(a);
    }
  }

  lemma {:induction false} PrintedIsNullFree(t: seq<Mark>)
    requires NullFree(t)
    ensures '\0' !in Printed(t)
    decreases |t|
  {
    if t != [] {
      PrintedIsNullFree(t[1..]);
    }
  }

  lemma {:induction false} UnescapeKeepsNullFree(s: string)
    requires '\0' !in s
    ensures '\0' !in UnescapeRdn(s)
    decreases |s|
  {
    if s != "" {
      UnescapeKeepsNullFree(s[1..]);
      if |s| >= 2 {
        UnescapeKeepsNullFree(s[2..]);
      }
    }
  }

  lemma TrimKeepsNullFree(s: string)
    requires '\0' !in s
    ensures '\0' !in Trim(s)
  {
    TrimStartIsSuffix(s);
    TrimEndIsPrefix(TrimStart(s));
  }

  lemma AvaRoundTrip(a: Ava)
    requires HasType(a)
    ensures UnescapeRdn(Trim(Printed(Rfc4514Marks(a)))) == TextOf(a) <==> IsReadBack(a)
  {
    hide Rfc4514Marks, SurvivesTrim, Printed, UnescapeRdn, Trim, HasType, LegalMarks;
    var t := Rfc4514Marks(a);
    Rfc4514MarksAreLegal(a);
    if HoldsNull(a) {
      PrintedIsNullFree(t);
      TrimKeepsNullFree(Printed(t));
      UnescapeKeepsNullFree(Trim(Printed(t)));
      assert '\0' in TextOf(a);
    } else {
      ComponentRoundTrip(t);
    }
  }

  /**
   * A name printed by section 2.4 of RFC 4514 is read back exactly when no value ends in
   * whitespace or holds a null character. (The standard escapes a final space; `trim` removes the
   * space and keeps the backslash. It prints a null character as a hexadecimal pair; unescaping
   * drops the backslash and keeps the digits. Encoded values always come back.)
   */
  lemma Rfc4514RoundTrip(name: seq<Ava>)
    requires forall i :: 0 <= i < |name| ==> HasType(name[i])
    ensures UnescapeAll(Components(Rfc4514Print(name))) == Texts(name)
      <==> forall i :: 0 <= i < |name| ==> IsReadBack(name[i])
  {
    hide Rfc4514Marks, IsReadBack, Printed, UnescapeRdn, Trim, LegalMarks, SurvivesTrim, TextOf, HasType;
    var ts := MarksOf(name);
    forall i | 0 <= i < |name|
      ensures LegalMarks(ts[i])
      ensures UnescapeRdn(Trim(PrintedAll(ts)[i])) == Texts(name)[i] <==> IsReadBack(name[i])
    {
      Rfc4514MarksAreLegal(name[i]);
      AvaRoundTrip(name[i]);
    }
    if name == [] {
      assert Join(PrintedAll(ts)) == "";
    } else {
      PrintedPieces(ts);
      assert DropEmptyLast(PrintedAll(ts)) == PrintedAll(ts);
      PointwiseEqual(PrintedAll(ts), Texts(name));
    }
  }

  /** A null character comes back as the two digits it was printed with. */
  lemma NullIsReadAsDigits()
    ensures UnescapeAll(Components(Rfc4514Print([Named("cn", "\0")]))) == ["cn=00"]
  {
    hide Printed, UnescapeRdn, RawPieces, Trim, Join;
    var a := Named("cn", "\0");
    var t := Rfc4514Marks(a);
    assert ValueMarks("\0", 0) == [] && ValueMarks("\0", 1) == [] + CharMarks("\0", 0);
    assert Plain(t) == "cn=00";
    Rfc4514MarksAreLegal(a);
    assert MarksOf([a]) == [t] && PlainAll([t]) == ["cn=00"];
    PrintParseRoundTrip([t]);
  }

  /** A final space escaped by the printer comes back as a backslash. */
  lemma TrailingSpaceIsLost()
    ensures Components("x\\ ") == ["x\\"]
    ensures UnescapeRdn("x\\") == "x\\"
  {
    var t := "x\\ ";
    RawPiecesOfPrefix(t, "", false);
    assert t + "" == t;
    assert TrimEnd(t) == "x\\";
  }
}
