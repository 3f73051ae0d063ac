/**
 * RDNs that are not safe do clash: for each of them there are entries whose tree shows one id
 * twice, once for a thing below that RDN and once for a thing below a shorter one.
 */
module DnIdClashes {
  import opened Sequences
  import opened JsText
  import opened DnSyntax
  import opened DnPaths
  import opened Tries
  import opened DnTrie
  import opened DnRender
  import opened DnIds
  import opened DnIdSafety
  import opened TreeViewer

  // ----- Every path of components is the path of some entry -----

  predicate AllComponents(p: Path) {
    forall c :: c in p ==> IsComponent(c)
  }

  /** A piece of a name that is trimmed to `c`: a final backslash gets a space to escape. */
  function RawOf(c: string): string {
    if Closed(c) then c else c + " "
  }

  function RawAll(p: Path): (r: seq<string>)
    ensures |r| == |p| && forall i :: 0 <= i < |p| ==> r[i] == RawOf(p[i])
  {
    seq(|p|, i requires 0 <= i < |p| => RawOf(p[i]))
  }

  function NameFor(p: Path): string {
    Join(RawAll(Reverse(BASE_DN + p)))
  }

  lemma RawRestores(c: string)
    requires IsComponent(c)
    ensures CommaFree(RawOf(c), false) && Closed(RawOf(c)) && Trim(RawOf(c)) == c
  {
    if Closed(c) {
      TrimProperties(c);
    } else {
      EscapedAfterConcat(c, " ", false);
      assert TrimStart(c + " ") == c + " ";
      assert (c + " ")[..|c|] == c;
      assert TrimEnd(c + " ") == TrimEnd(c) == c;
    }
  }

  lemma BaseIsPlain()
    ensures AllComponents(BASE_DN) && RawOf(BASE_DN[0]) != ""
  {
    hide IsComponent;
    PlainText(BASE_DN[0]);
    PlainText(BASE_DN[1]);
    PlainText(BASE_DN[2]);
    PlainText(BASE_DN[3]);
  }

  /** Every path of components below the root is reached by a name. */
  lemma NameForHasPath(p: Path)
    requires p != [] && AllComponents(p)
    ensures PathOf(NameFor(p)) == p
  {
    hide IsComponent, Closed, RawOf, CommaFree, Trim, RawPieces;
    BaseIsPlain();
    var full := BASE_DN + p;
    var q := Reverse(full);
    var ps := RawAll(q);
    forall i | 0 <= i < |q|
      ensures CommaFree(ps[i], false) && Closed(ps[i]) && Trim(ps[i]) == q[i]
    {
      assert q[i] == full[|full| - 1 - i] && q[i] in full;
      RawRestores(q[i]);
    }
    RawPiecesOfJoin(ps);
    assert Last(ps) == RawOf(BASE_DN[0]);
    TrimAllAt(ps);
    assert TrimAll(ps) == q;
    ReverseInvolutive(full);
    assert full[|BASE_DN|..] == p;
  }

  // ----- Entries for two things -----

  function Copies(e: LdifEntry, n: nat): (r: seq<LdifEntry>)
    ensures |r| == n && forall i :: 0 <= i < n ==> r[i] == e
  {
    if n == 0 then [] else Copies(e, n - 1) + [e]
  }

  function Attributes(n: nat): (r: seq<LdifAttribute>)
    ensures |r| == n
  {
    if n == 0 then [] else Attributes(n - 1) + [LdifAttribute("", "", false)]
  }

  lemma {:induction false} CopiesAt(e: LdifEntry, n: nat)
    ensures EntriesAt(Locate(Copies(e, n)), PathOf(e.dn)) == Copies(e, n)
    ensures n > 0 ==> IsNode(PathsOf(Locate(Copies(e, n))), PathOf(e.dn))
  {
    hide IsNode, PathOf;
    if n > 0 {
      CopiesAt(e, n - 1);
      var items, x := Locate(Copies(e, n - 1)), Item(PathOf(e.dn), e);
      assert Locate(Copies(e, n)) == items + [x] by {
        assert Front(Copies(e, n)) == Copies(e, n - 1);
      }
      ItemsSnoc(items, x, x.path);
      IsNodeSnoc(PathsOf(items), x.path, x.path);
    }
  }

  lemma ExistsAfterMore(items: seq<Located>, x: Located, a: Address)
    requires Exists(items, a)
    ensures Exists(items + [x], a)
    ensures Exists(items + [x], DnAddr(x.path))
  {
    hide IsNode, PathsOf, EntriesAt;
    ItemsSnoc(items, x, a.path);
    ItemsSnoc(items, x, x.path);
    IsNodeSnoc(PathsOf(items), x.path, a.path);
    IsNodeSnoc(PathsOf(items), x.path, x.path);
  }

  /** Any two of the output's things can be had in one tree, the first of them a node. */
  lemma TreeWith(p: Path, b: Address) returns (es: seq<LdifEntry>)
    requires p != [] && AllComponents(p) && b.path != [] && AllComponents(b.path)
    ensures Exists(Locate(es), DnAddr(p)) && Exists(Locate(es), b)
  {
    hide IsNode, PathOf, NameFor, AllComponents, EntriesAt, PathsOf;
    NameForHasPath(p);
    NameForHasPath(b.path);
    var e := LdifEntry(NameFor(b.path), "", Attributes(if b.AttrAddr? then b.j + 1 else 0), 0);
    var copies := Copies(e, if b.DnAddr? then 1 else b.i + 1);
    var f := LdifEntry(NameFor(p), "", [], 0);
    CopiesAt(e, |copies|);
    es := copies + [f];
    assert Front(es) == copies;
    assert Locate(es) == Locate(copies) + [Item(p, f)];
    ExistsAfterMore(Locate(copies), Item(p, f), b);
  }

  // ----- Clashes -----

  lemma ShortSegments(k: string, l: string)
    ensures Segments([k]) == "-dn-" + k
    ensures Segments([k, l]) == "-dn-" + k + "-dn-" + l
  {
    assert [k][1..] == [] && [k, l][1..] == [l] && [l][1..] == [];
  }

  lemma InnerSeparatorClashes(u: string, v: string)
    ensures IdOf(DnAddr([u + "-dn-" + v])) == IdOf(DnAddr([u, v]))
  {
    hide IdOf, Segments;
    IdParts(DnAddr([u + "-dn-" + v]));
    IdParts(DnAddr([u, v]));
    ShortSegments(u + "-dn-" + v, "");
    ShortSegments(u, v);
    assert "-dn-" + (u + "-dn-" + v) == "-dn-" + u + "-dn-" + v;
  }

  lemma FinalSeparatorClashes(u: string)
    ensures IdOf(DnAddr([u + "-dn", "x"])) == IdOf(DnAddr([u, "dn-x"]))
  {
    hide IdOf, Segments;
    IdParts(DnAddr([u + "-dn", "x"]));
    IdParts(DnAddr([u, "dn-x"]));
    ShortSegments(u + "-dn", "x");
    ShortSegments(u, "dn-x");
    assert "-dn-" + (u + "-dn") + "-dn-" + "x" == "-dn-" + u + "-dn-" + "dn-x";
  }

  lemma EntryEndClashes(u: string, e: Address, b: Address)
    requires b.path == [u] && Suffix(b) == Suffix(e)
    ensures IdOf(DnAddr([u + Suffix(e)])) == IdOf(b)
  {
    hide IdOf, Segments;
    var k := u + Suffix(e);
    IdParts(DnAddr([k]));
    IdParts(b);
    ShortSegments(k, "");
    ShortSegments(u, "");
    assert "-dn-" + (u + Suffix(e)) + "" == "-dn-" + u + Suffix(e);
  }

  /** In the tree of `es`, a thing below the RDN `k` has the id of a thing below a shorter RDN. */
  ghost predicate MisreadIn(es: seq<LdifEntry>, k: string, a: Address, b: Address) {
    && Exists(Locate(es), a) && Exists(Locate(es), b) && IdOf(a) == IdOf(b)
    && a.path != [] && a.path[0] == k && b.path != [] && |b.path[0]| < |k|
  }

  ghost predicate Misread(k: string) {
    exists es, a: Address, b: Address :: MisreadIn(es, k, a, b)
  }

  lemma MisreadBy(k: string, a: Address, b: Address)
    requires a.DnAddr? && a.path != [] && a.path[0] == k && b.path != [] && |b.path[0]| < |k|
    requires AllComponents(a.path) && AllComponents(b.path) && IdOf(a) == IdOf(b)
    ensures Misread(k)
  {
    hide Exists, IdOf, AllComponents;
    var es := TreeWith(a.path, b);
    assert MisreadIn(es, k, a, b);
  }

  lemma PrefixIsComponent(k: string, i: nat)
    requires IsComponent(k) && i <= |k| && CleanBefore(k, i)
    ensures IsComponent(k[..i])
  {
    assert k == k[..i] + k[i..];
    EscapedAfterConcat(k[..i], k[i..], false);
  }

  lemma RestIsComponent(k: string, i: nat)
    requires IsComponent(k) && i + 4 <= |k| && k[i..i + 4] == "-dn-" && CleanAfter(k, i + 4)
    ensures IsComponent(k[i + 4..])
  {
    var head, rest := k[..i + 3], k[i + 4..];
    assert k[i + 2] == k[i..i + 4][2] == 'n' && k[i + 3] == k[i..i + 4][3] == '-';
    assert k == head + ("-" + rest);
    EscapedAfterConcat(head, "-" + rest, false);
    assert ("-" + rest)[1..] == rest;
    assert head[..i + 2] + "n" == head;
    EscapedAfterConcat(head[..i + 2], "n", false);
    assert "n"[1..] == "";
  }

  lemma SeparatorIsMisread(k: string, i: nat)
    requires IsComponent(k) && SeparatorAt(k, i)
    ensures Misread(k)
  {
    hide IdOf, Misread, IsComponent;
    var u := k[..i];
    PrefixIsComponent(k, i);
    if i + 4 <= |k| {
      var v := k[i + 4..];
      assert k[i..i + 4] == "-dn-" by {
        assert (k + "-")[i..i + 4] == k[i..i + 4];
      }
      RestIsComponent(k, i);
      assert k == u + "-dn-" + v;
      InnerSeparatorClashes(u, v);
      MisreadBy(k, DnAddr([k]), DnAddr([u, v]));
    } else {
      assert k == u + "-dn" by {
        assert (k + "-")[i..i + 4][..3] == k[i..];
      }
      PlainText("x");
      PlainText("dn-x");
      FinalSeparatorClashes(u);
      MisreadBy(k, DnAddr([k, "x"]), DnAddr([u, "dn-x"]));
    }
  }

  lemma EntryEndMoves(e: Address, u: string) returns (b: Address)
    requires !e.DnAddr?
    ensures b.path == [u] && !b.DnAddr? && Suffix(b) == Suffix(e)
  {
    b := if e.EntryAddr? then EntryAddr([u], e.i) else AttrAddr([u], e.i, e.j);
  }

  lemma EntryEndIsMisread(k: string)
    requires IsComponent(k) && EndsLikeEntry(k)
    ensures Misread(k)
  {
    hide IdOf, Misread, IsComponent, Suffix;
    var e: Address :| !e.DnAddr? && EndsWith(k, Suffix(e)) && CleanBefore(k, |k| - |Suffix(e)|);
    var n := |k| - |Suffix(e)|;
    var u := k[..n];
    assert k == u + Suffix(e);
    SuffixStart(e);
    PrefixIsComponent(k, n);
    var b := EntryEndMoves(e, u);
    EntryEndClashes(u, e, b);
    MisreadBy(k, DnAddr([k]), b);
  }

  /**
   * The exact condition: an RDN is safe if and only if no tree whatsoever shows a thing below it
   * under the id of a thing below a shorter RDN.
   */
  lemma SafeIffNeverMisread(k: string)
    requires IsComponent(k)
    ensures SafeRdn(k) <==> !Misread(k)
  {
    hide IsComponent, EndsLikeEntry, Misread;
    if !SafeRdn(k) {
      if EndsLikeEntry(k) {
        EntryEndIsMisread(k);
      } else {
        var i: nat :| SeparatorAt(k, i);
        SeparatorIsMisread(k, i);
      }
    } else if Misread(k) {
      SafeIsNotMisread(k);
    }
  }

  lemma SafeIsNotMisread(k: string)
    requires SafeRdn(k)
    ensures !Misread(k)
  {
    hide IdOf, SafeRdn, Exists;
    forall es, a: Address, b: Address
      ensures !MisreadIn(es, k, a, b)
    {
      if MisreadIn(es, k, a, b) {
        MisreadIsUnsafe(es, k, a, b);
      }
    }
  }

  lemma MisreadIsUnsafe(es: seq<LdifEntry>, k: string, a: Address, b: Address)
    requires MisreadIn(es, k, a, b)
    ensures !SafeRdn(k)
  {
    hide IdOf, SafeRdn, Exists, IsNode, Suffix, AllTrimmed, Segments;
    if SafeRdn(k) {
      ExistingIsNode(Locate(es), b);
      PathsAreTrimmed(es, b.path);
      IdParts(a);
      IdParts(b);
      PrefixedDiffer("root", Segments(a.path) + Suffix(a), Segments(b.path) + Suffix(b));
      FirstSegment(a.path, a);
      FirstSegment(b.path, b);
      PrefixedDiffer("-dn-", k + (Segments(a.path[1..]) + Suffix(a)), b.path[0] + (Segments(b.path[1..]) + Suffix(b)));
      TrimmedParts(b.path);
      NoLongerCut(b.path[0], b.path[1..], b, k, a.path[1..], a);
    }
  }

  lemma FirstSegment(p: Path, a: Address)
    requires p != []
    ensures Segments(p) + Suffix(a) == "-dn-" + (p[0] + (Segments(p[1..]) + Suffix(a)))
  {
    hide Suffix;
    Regroup("-dn-", p[0], Segments(p[1..]), Suffix(a));
  }

  lemma TrimmedParts(p: Path)
    requires p != [] && AllTrimmed(p)
    ensures Trimmed(p[0]) && AllTrimmed(p[1..])
  {
    hide Trimmed;
    assert p[0] in p;
    forall k | k in p[1..]
      ensures k in p
    {
    }
  }

  lemma RepeatedId(s: seq<Address>, a: Address, b: Address)
    requires a in s && b in s && a != b && IdOf(a) == IdOf(b)
    ensures !NoDup(IdsOf(s))
  {
    hide IdOf;
    var i :| 0 <= i < |s| && s[i] == a;
    var j :| 0 <= j < |s| && s[j] == b;
    IdsOfAt(s, i);
    IdsOfAt(s, j);
  }

  /** Two different things with one id: the output shows that id twice. */
  lemma ClashIsShown(es: seq<LdifEntry>, a: Address, b: Address)
    requires Exists(Locate(es), a) && Exists(Locate(es), b) && a != b && IdOf(a) == IdOf(b)
    ensures !NoDup(Ids(Render(Locate(es), [], "root")))
  {
    hide Render, Addresses, Exists, IdOf, IdsOf, IsNode, PathsOf, Ids, PathId, NoDup, Locate;
    var items := Locate(es);
    RootIsNode(PathsOf(items));
    EachShownOnce(items, []);
    RenderedIds(items, []);
    RootPathId();
    RepeatedId(Addresses(items, []), a, b);
  }

  /** An RDN that is not safe is misread in some tree, whose output then shows one id twice. */
  lemma UnsafeRdnsClash(k: string)
    requires IsComponent(k) && !SafeRdn(k)
    ensures exists es, a: Address, b: Address ::
      MisreadIn(es, k, a, b) && !NoDup(Ids(Render(Locate(es), [], "root")))
  {
    hide IsComponent, SafeRdn, Exists, IdOf, Render, Ids, Locate;
    SafeIffNeverMisread(k);
    var es, a: Address, b: Address :| MisreadIn(es, k, a, b);
    ClashIsShown(es, a, b);
  }

  /** A concrete case: the names `a-dn-b` and `b,a` get the same id. */
  lemma IdsCanClash(objectClass: string)
    ensures
      var es := [LdifEntry("a-dn-b", objectClass, [], 1), LdifEntry("b,a", objectClass, [], 2)];
      !NoDup(Ids(Render(Locate(es), [], "root")))
  {
    hide Render, PathOf, Exists, IdOf, Ids;
    var e1, e2 := LdifEntry("a-dn-b", objectClass, [], 1), LdifEntry("b,a", objectClass, [], 2);
    var es := [e1, e2];
    ClashingPaths();
    LocateAt(es, 0);
    LocateAt(es, 1);
    var x, y := Item(["a-dn-b"], e1), Item(["a", "b"], e2);
    assert Locate(es) == [x, y];
    TwoItems(x, y);
    InnerSeparatorClashes("a", "b");
    assert "a" + "-dn-" + "b" == "a-dn-b";
    ClashIsShown(es, DnAddr(["a-dn-b"]), DnAddr(["a", "b"]));
  }

  lemma TwoItems(x: Located, y: Located)
    ensures Exists([x, y], DnAddr(x.path)) && Exists([x, y], DnAddr(y.path))
  {
    assert [x, y] == [x] + [y] && [x] == [] + [x];
    ItemsSnoc([], x, []);
    ItemsSnoc([x], y, []);
    IsNodeSnoc([], x.path, x.path);
    IsNodeSnoc([x.path], y.path, x.path);
    IsNodeSnoc([x.path], y.path, y.path);
  }

  lemma ClashingPaths()
    ensures PathOf("a-dn-b") == ["a-dn-b"] && PathOf("b,a") == ["a", "b"]
  {
    hide FullDn, IsComponent, Closed, PathOf, IsWhitespace;
    ClashingNames();
    PlainTexts();
    ShortPathIsRestored(["a-dn-b"]);
    ShortPathIsRestored(["a", "b"]);
  }

  lemma ClashingNames()
    ensures FullDn(["a-dn-b"]) == "a-dn-b" && FullDn(["a", "b"]) == "b,a"
  {
    assert Front(["a", "b"]) == ["a"];
    assert FullDn(["a"]) == "a";
  }

  lemma PlainTexts()
    ensures forall s :: s in ["a-dn-b", "a", "b"] ==> IsComponent(s) && Closed(s)
  {
    hide IsComponent, Closed;
    PlainText("a-dn-b");
    PlainText("a");
    PlainText("b");
  }

  lemma ShortPathIsRestored(p: Path)
    requires 0 < |p| < 4 && p[0] != ""
    requires forall c :: c in p ==> IsComponent(c) && Closed(c)
    ensures PathOf(FullDn(p)) == p
  {
    hide FullDn, Components, IsComponent, Closed;
    assert forall i :: 1 <= i < |p| ==> p[i] in p;
    FullDnReparses(p);
  }

  lemma {:induction false} PlainText(s: string)
    requires forall i :: 0 <= i < |s| ==> !IsWhitespace(s[i]) && s[i] != ',' && s[i] != '\\'
    ensures IsComponent(s) && Closed(s)
  {
    PlainTextIsCommaFree(s);
  }

  lemma {:induction false} PlainTextIsCommaFree(s: string)
    requires forall i :: 0 <= i < |s| ==> s[i] != ',' && s[i] != '\\'
    ensures CommaFree(s, false)
    decreases |s|
  {
    if s != "" {
      PlainTextIsCommaFree(s[1..]);
    }
  }
}
