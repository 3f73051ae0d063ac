/**
 * When the ids of the rendered LDIF tree are distinct. Siblings never clash; across the tree two
 * ids can clash only if some RDN reads like a shorter one with more behind it.
 */
module DnIdSafety {
  import opened Sequences
  import opened JsText
  import opened DnSyntax
  import opened DnPaths
  import opened Tries
  import opened DnTrie
  import opened DnRender
  import opened DnIds
  import opened TreeViewer

  // ----- Siblings -----

  function RootIds(ts: seq<TreeNode>): (r: seq<string>)
    ensures |r| == |ts| && forall i :: 0 <= i < |ts| ==> r[i] == ts[i].id
  {
    seq(|ts|, i requires 0 <= i < |ts| => ts[i].id)
  }

  lemma RootIdOfRender(items: seq<Located>, p: Path, nodeId: string)
    requires IsNode(PathsOf(items), p)
    ensures Render(items, p, nodeId).id == nodeId
  {
    hide PathsOf, IsNode, EntriesAt, ChildKeys;
  }

  lemma {:induction false} KidRootIds(items: seq<Located>, p: Path, keys: seq<string>, nodeId: string)
    requires AreKids(PathsOf(items), p, keys)
    ensures forall i :: 0 <= i < |keys| ==>
      RenderKids(items, p, keys, nodeId)[i].id == ChildId(nodeId, keys[i])
    decreases |keys|
  {
    hide PathsOf, IsNode, Depth, Assemble, ChildId, EntriesAt, ChildKeys;
    if keys != [] {
      assert Last(keys) in keys;
      NodeDepth(PathsOf(items), p + [Last(keys)]);
      RootIdOfRender(items, p + [Last(keys)], ChildId(nodeId, Last(keys)));
      KidRootIds(items, p, Front(keys), nodeId);
    }
  }

  lemma {:induction false} EntryRootIds(nodeId: string, es: seq<LdifEntry>)
    ensures forall i :: 0 <= i < |es| ==> RenderEntries(nodeId, es)[i].id == EntryId(nodeId, i)
    decreases |es|
  {
    if es != [] {
      EntryRootIds(nodeId, Front(es));
    }
  }

  lemma {:induction false} AttributeRootIds(nodeId: string, i: nat, attrs: seq<LdifAttribute>)
    ensures forall j :: 0 <= j < |attrs| ==> RenderAttributes(nodeId, i, attrs)[j].id == AttrId(nodeId, i, j)
    decreases |attrs|
  {
    if attrs != [] {
      AttributeRootIds(nodeId, i, Front(attrs));
    }
  }

  lemma PrefixedDiffer(prefix: string, a: string, b: string)
    requires prefix + a == prefix + b
    ensures a == b
  {
    assert a == (prefix + a)[|prefix|..] == b;
  }

  lemma ChildIdsDiffer(nodeId: string, a: string, b: string)
    requires a != b
    ensures ChildId(nodeId, a) != ChildId(nodeId, b)
  {
    if ChildId(nodeId, a) == ChildId(nodeId, b) {
      PrefixedDiffer(nodeId + "-dn-", a, b);
    }
  }

  lemma EntryIdsDiffer(nodeId: string, i: nat, j: nat)
    requires i != j
    ensures EntryId(nodeId, i) != EntryId(nodeId, j)
  {
    if EntryId(nodeId, i) == EntryId(nodeId, j) {
      PrefixedDiffer(nodeId + "-entry-", Decimal(i), Decimal(j));
      DecimalInjective(i, j);
    }
  }

  lemma AttrIdsDiffer(nodeId: string, i: nat, j: nat, k: nat)
    requires j != k
    ensures AttrId(nodeId, i, j) != AttrId(nodeId, i, k)
  {
    if AttrId(nodeId, i, j) == AttrId(nodeId, i, k) {
      PrefixedDiffer(EntryId(nodeId, i) + "-attr-", Decimal(j), Decimal(k));
      DecimalInjective(j, k);
    }
  }

  lemma ChildIdIsNoEntryId(nodeId: string, k: string, i: nat)
    ensures ChildId(nodeId, k) != EntryId(nodeId, i)
  {
    assert ChildId(nodeId, k)[|nodeId| + 1] == 'd';
    assert EntryId(nodeId, i)[|nodeId| + 1] == 'e';
  }

  /** The children of a rendered node have distinct ids, whatever the RDNs are. */
  lemma SiblingIdsAreDistinct(items: seq<Located>, p: Path, nodeId: string)
    requires IsNode(PathsOf(items), p)
    ensures var children := Render(items, p, nodeId).children;
      children.Nodes? ==> NoDup(RootIds(children.nodes))
  {
    hide PathsOf, IsNode, ChildKeys, EntriesAt, ChildId, EntryId, RenderKids, RenderEntries;
    var ps := PathsOf(items);
    ChildKeysAreNodes(ps, p);
    var keys, es := ChildKeys(ps, p), EntriesAt(items, p);
    var kids, entries := RenderKids(items, p, keys, nodeId), RenderEntries(nodeId, es);
    KidRootIds(items, p, keys, nodeId);
    EntryRootIds(nodeId, es);
    var all: seq<TreeNode> := kids + entries;
    forall i, j | 0 <= i < j < |all|
      ensures all[i].id != all[j].id
    {
      if j < |kids| {
        ChildIdsDiffer(nodeId, keys[i], keys[j]);
      } else if i >= |kids| {
        EntryIdsDiffer(nodeId, i - |kids|, j - |kids|);
      } else {
        ChildIdIsNoEntryId(nodeId, keys[i], j - |kids|);
      }
    }
  }

  /** The same for the attributes of a rendered entry. */
  lemma AttributeIdsAreDistinct(nodeId: string, i: nat, attrs: seq<LdifAttribute>)
    ensures NoDup(RootIds(RenderAttributes(nodeId, i, attrs)))
  {
    AttributeRootIds(nodeId, i, attrs);
    forall j, k | 0 <= j < k < |attrs|
      ensures RenderAttributes(nodeId, i, attrs)[j].id != RenderAttributes(nodeId, i, attrs)[k].id
    {
      AttrIdsDiffer(nodeId, i, j, k);
    }
  }

  // ----- Across the tree -----

  predicate OccursAt(s: string, sub: string, i: nat) {
    i + |sub| <= |s| && s[i..i + |sub|] == sub
  }

  predicate CleanBefore(s: string, i: int) {
    i <= 0 || i > |s| || !IsWhitespace(s[i - 1])
  }

  predicate CleanAfter(s: string, i: nat) {
    i >= |s| || !IsWhitespace(s[i])
  }

  /**
   * A separator at `i` in the RDN with a hyphen behind it. Text that ends or begins in whitespace
   * is never an RDN, so whitespace beside the separator tells it from a true one.
   */
  predicate SeparatorAt(k: string, i: nat) {
    OccursAt(k + "-", "-dn-", i) && CleanBefore(k, i) && CleanAfter(k, i + 4)
  }

  /** The part of an id after "root", read from the top. */
  function Segments(p: Path): string {
    if p == [] then "" else "-dn-" + p[0] + Segments(p[1..])
  }

  lemma {:induction false} SegmentsSnoc(p: Path, k: string)
    ensures Segments(p + [k]) == Segments(p) + "-dn-" + k
    decreases |p|
  {
    if p == [] {
      assert [k][1..] == [];
      assert "-dn-" + k + "" == "-dn-" + k;
    } else {
      assert (p + [k])[1..] == p[1..] + [k];
      SegmentsSnoc(p[1..], k);
    }
  }

  lemma {:induction false} PathIdSegments(p: Path)
    ensures PathId(p) == "root" + Segments(p)
    decreases |p|
  {
    if p != [] {
      PathIdSegments(Front(p));
      assert p == Front(p) + [Last(p)];
      SegmentsSnoc(Front(p), Last(p));
    }
  }

  /** The end of the id of an entry or attribute. */
  function Suffix(a: Address): string {
    match a
    case DnAddr(_) => ""
    case EntryAddr(_, i) => "-entry-" + Decimal(i)
    case AttrAddr(_, i, j) => "-entry-" + (Decimal(i) + ("-attr-" + Decimal(j)))
  }

  /** The RDN ends as the id of an entry or attribute does, and what comes before can be an RDN. */
  ghost predicate EndsLikeEntry(k: string) {
    exists a: Address :: !a.DnAddr? && EndsWith(k, Suffix(a)) && CleanBefore(k, |k| - |Suffix(a)|)
  }

  /** The RDN cannot be read as a shorter one with something behind it. */
  ghost predicate SafeRdn(k: string) {
    !(exists i: nat :: SeparatorAt(k, i)) && !EndsLikeEntry(k)
  }

  lemma UnsafeHasHyphen(k: string)
    requires !SafeRdn(k)
    ensures '-' in k
  {
    hide Suffix;
    if EndsLikeEntry(k) {
      var a: Address :| !a.DnAddr? && EndsWith(k, Suffix(a)) && CleanBefore(k, |k| - |Suffix(a)|);
      SuffixStart(a);
      assert k[|k| - |Suffix(a)|] == Suffix(a)[0];
    } else {
      var i: nat :| SeparatorAt(k, i);
      assert (k + "-")[i..i + 4][0] == k[i];
    }
  }

  lemma SuffixStart(a: Address)
    requires !a.DnAddr?
    ensures Suffix(a) != "" && Suffix(a)[0] == '-'
  {
  }

  lemma HyphenFreeIsSafe(k: string)
    requires '-' !in k
    ensures SafeRdn(k)
  {
    if !SafeRdn(k) {
      UnsafeHasHyphen(k);
    }
  }

  lemma IdParts(a: Address)
    ensures IdOf(a) == "root" + (Segments(a.path) + Suffix(a))
  {
    hide Segments, PathId;
    var s := Segments(a.path);
    PathIdSegments(a.path);
    match a {
      case DnAddr(_) =>
        assert s + "" == s;
      case EntryAddr(_, i) =>
        Regroup("root", s, "-entry-", Decimal(i));
      case AttrAddr(_, i, j) =>
        RegroupAttribute("root", s, "-entry-", Decimal(i), "-attr-", Decimal(j));
    }
  }

  lemma RegroupAttribute(a: string, b: string, c: string, d: string, e: string, f: string)
    ensures a + b + c + d + e + f == a + (b + (c + (d + (e + f))))
  {
  }

  /** What follows an RDN in an id. */
  ghost predicate IsRest(s: string) {
    s == "" || StartsWith(s, "-dn-") || StartsWith(s, "-entry-")
  }

  lemma RestIsRest(p: Path, a: Address)
    ensures IsRest(Segments(p) + Suffix(a))
    ensures p != [] ==> StartsWith(Segments(p) + Suffix(a), "-dn-")
    ensures p == [] ==> Segments(p) + Suffix(a) == Suffix(a) && !StartsWith(Suffix(a), "-dn-")
  {
    if p == [] {
      assert Segments(p) + Suffix(a) == Suffix(a);
      assert Suffix(a) != "" ==> Suffix(a)[1] == 'e';
    }
  }

  /** An RDN that reaches beyond a true separator holds it, but for its last hyphen. */
  lemma ReachesBeyondSeparator(k: string, z: string, k': string, y: string)
    requires k + ("-dn-" + z) == k' + y && |k| < |k'|
    requires Trimmed(k) && CleanAfter(z, 0) && (y == "" || y[0] == '-')
    ensures SeparatorAt(k', |k|)
  {
    hide IsWhitespace;
    var i, s := |k|, k' + y;
    SeparatorPlace(k, z, s);
    if i + 4 > |k'| {
      assert y != "" && s[|k'|] == '-';
    } else if i + 4 < |k'| {
      assert k'[i + 4] == s[i + 4];
    }
    assert |k'| >= i + 3;
    var t := k' + "-";
    assert forall j :: 0 <= j < i + 4 ==> t[j] == s[j];
    assert t[i..i + 4] == "-dn-";
    if i > 0 {
      assert k'[i - 1] == s[i - 1];
    }
  }

  lemma SeparatorPlace(k: string, z: string, s: string)
    requires s == k + ("-dn-" + z)
    ensures var i := |k|;
      && |s| == i + 4 + |z| && s[i] == '-' && s[i + 1] == 'd' && s[i + 2] == 'n' && s[i + 3] == '-'
      && (z != "" ==> s[i + 4] == z[0])
      && (i > 0 ==> s[i - 1] == k[i - 1])
  {
    var x := "-dn-" + z;
    assert s[|k|..] == x;
    assert x[0] == '-' && x[1] == 'd' && x[2] == 'n' && x[3] == '-';
    assert z != "" ==> x[4] == z[0];
  }

  /** After the first, no hyphen in the end of an id begins a separator. */
  lemma SuffixHyphens(a: Address, m: nat)
    requires 0 < m < |Suffix(a)| - 1 && Suffix(a)[m] == '-'
    ensures Suffix(a)[m + 1] != 'd' && Suffix(a)[m + 1] != 'e'
  {
    var i := Decimal(a.i);
    if a.AttrAddr? {
      var j := Decimal(a.j);
      assert Suffix(a) == "-entry-" + i + "-attr-" + j;
    }
  }

  lemma TwoCuts(k: string, x: string, k': string, y: string)
    requires k + x == k' + y && |k| < |k'|
    ensures |k'| - |k| <= |x| && x[|k'| - |k|..] == y
  {
    assert (k + x)[|k'|..] == x[|k'| - |k|..] && (k' + y)[|k'|..] == y;
  }

  /** Within the end of an id, no separator begins after the first character. */
  lemma NoRestInside(a: Address, m: nat)
    requires 0 < m < |Suffix(a)|
    ensures !IsRest(Suffix(a)[m..])
  {
    hide Suffix;
    var y := Suffix(a)[m..];
    if IsRest(y) {
      assert y[0] == '-' && y[1] in "de";
      assert Suffix(a)[m] == y[0] && Suffix(a)[m + 1] == y[1];
      SuffixHyphens(a, m);
    }
  }

  predicate AllTrimmed(p: Path) {
    forall k :: k in p ==> Trimmed(k)
  }

  /** What follows a separator begins with an RDN, so not with whitespace. */
  lemma CleanAfterSeparator(p: Path, a: Address)
    requires p != [] && AllTrimmed(p)
    ensures var z := p[0] + (Segments(p[1..]) + Suffix(a));
      Segments(p) + Suffix(a) == "-dn-" + z && CleanAfter(z, 0)
  {
    hide Suffix, IsRest, Trimmed;
    var rest := Segments(p[1..]) + Suffix(a);
    Regroup("-dn-", p[0], Segments(p[1..]), Suffix(a));
    RestIsRest(p[1..], a);
    RestStart(rest);
    assert Trimmed(p[0]);
    CleanStart(p[0], rest);
  }

  lemma Regroup(a: string, b: string, c: string, d: string)
    ensures a + b + c + d == a + (b + (c + d))
  {
  }

  lemma CleanStart(k: string, rest: string)
    requires Trimmed(k) && (rest == "" || rest[0] == '-')
    ensures CleanAfter(k + rest, 0)
  {
    assert k == "" ==> k + rest == rest;
  }

  /** A safe RDN does not reach beyond another cut of the same id. */
  lemma NoLongerCut(k: string, p: Path, a: Address, k': string, q: Path, b: Address)
    requires k + (Segments(p) + Suffix(a)) == k' + (Segments(q) + Suffix(b))
    requires Trimmed(k) && AllTrimmed(p) && SafeRdn(k')
    ensures |k| >= |k'|
  {
    hide Suffix, Segments, EndsLikeEntry, SeparatorAt, IsRest, AllTrimmed, Trimmed;
    var y := Segments(q) + Suffix(b);
    RestIsRest(q, b);
    if |k| < |k'| {
      if p != [] {
        RestStart(y);
        CleanAfterSeparator(p, a);
        ReachesBeyondSeparator(k, p[0] + (Segments(p[1..]) + Suffix(a)), k', y);
      } else {
        RestIsRest(p, a);
        LongerCutInSuffix(k, a, k', y);
      }
    }
  }

  lemma LongerCutInSuffix(k: string, a: Address, k': string, y: string)
    requires k + Suffix(a) == k' + y && |k| < |k'|
    requires Trimmed(k) && IsRest(y)
    ensures EndsLikeEntry(k')
  {
    hide Suffix, EndsLikeEntry, IsRest, Trimmed;
    TwoCuts(k, Suffix(a), k', y);
    if y == "" {
      assert k' + y == k';
      SuffixEnds(k, k', a);
    } else {
      NoRestInside(a, |k'| - |k|);
    }
  }

  lemma RestStart(y: string)
    requires IsRest(y)
    ensures y == "" || y[0] == '-'
  {
  }

  lemma SuffixEnds(k: string, k': string, a: Address)
    requires k + Suffix(a) == k' && Suffix(a) != "" && Trimmed(k)
    ensures EndsLikeEntry(k')
  {
    hide Suffix;
    DnHasNoSuffix(a);
    assert EndsWith(k', Suffix(a));
    if k != "" {
      assert k'[|k| - 1] == k[|k| - 1];
    }
  }

  lemma DnHasNoSuffix(a: Address)
    ensures a.DnAddr? <==> Suffix(a) == ""
  {
  }

  /** Paths of RDNs that a tree can hold and that are safe. */
  ghost predicate Readable(p: Path) {
    AllTrimmed(p) && forall k :: k in p ==> SafeRdn(k)
  }

  lemma FirstCut(k: string, p: Path, a: Address, k': string, q: Path, b: Address)
    requires k + (Segments(p) + Suffix(a)) == k' + (Segments(q) + Suffix(b))
    requires Trimmed(k) && Trimmed(k') && AllTrimmed(p) && AllTrimmed(q) && SafeRdn(k) && SafeRdn(k')
    ensures k == k' && Segments(p) + Suffix(a) == Segments(q) + Suffix(b)
  {
    hide Suffix, Segments, SafeRdn, AllTrimmed, Trimmed;
    var x, y := Segments(p) + Suffix(a), Segments(q) + Suffix(b);
    NoLongerCut(k, p, a, k', q, b);
    NoLongerCut(k', q, b, k, p, a);
    assert k == (k + x)[..|k|] && k' == (k' + y)[..|k'|];
    assert x == (k + x)[|k|..] && y == (k' + y)[|k'|..];
  }

  lemma {:induction false} SegmentsDecode(p: Path, a: Address, q: Path, b: Address)
    requires Segments(p) + Suffix(a) == Segments(q) + Suffix(b)
    requires Readable(p) && Readable(q)
    ensures p == q && Suffix(a) == Suffix(b)
    decreases |p|
  {
    hide SafeRdn, Suffix, Trimmed;
    RestIsRest(p, a);
    RestIsRest(q, b);
    if p != [] && q != [] {
      var x, y := Segments(p[1..]) + Suffix(a), Segments(q[1..]) + Suffix(b);
      assert Segments(p) + Suffix(a) == "-dn-" + (p[0] + x);
      assert Segments(q) + Suffix(b) == "-dn-" + (q[0] + y);
      PrefixedDiffer("-dn-", p[0] + x, q[0] + y);
      FirstCut(p[0], p[1..], a, q[0], q[1..], b);
      SegmentsDecode(p[1..], a, q[1..], b);
      assert p == [p[0]] + p[1..] && q == [q[0]] + q[1..];
    }
  }

  lemma SuffixDecodes(a: Address, b: Address)
    requires a.path == b.path && Suffix(a) == Suffix(b)
    ensures a == b
  {
    if !a.DnAddr? && !b.DnAddr? {
      var x := if a.EntryAddr? then "" else "-attr-" + Decimal(a.j);
      var y := if b.EntryAddr? then "" else "-attr-" + Decimal(b.j);
      assert Suffix(a) == "-entry-" + (Decimal(a.i) + x);
      assert Suffix(b) == "-entry-" + (Decimal(b.i) + y);
      PrefixedDiffer("-entry-", Decimal(a.i) + x, Decimal(b.i) + y);
      NumberBeforeHyphen(a.i, x, b.i, y);
      if a.AttrAddr? && b.AttrAddr? {
        PrefixedDiffer("-attr-", Decimal(a.j), Decimal(b.j));
        DecimalInjective(a.j, b.j);
      }
    }
  }

  /** With safe RDNs, an id determines what it was made for. */
  lemma IdDecodes(a: Address, b: Address)
    requires IdOf(a) == IdOf(b)
    requires Readable(a.path) && Readable(b.path)
    ensures a == b
  {
    hide IdOf, Segments, Suffix, Readable;
    IdParts(a);
    IdParts(b);
    PrefixedDiffer("root", Segments(a.path) + Suffix(a), Segments(b.path) + Suffix(b));
    SegmentsDecode(a.path, a, b.path, b);
    SuffixDecodes(a, b);
  }

  lemma {:induction false} IdsOfAt(s: seq<Address>, i: nat)
    requires i < |s|
    ensures IdsOf(s)[i] == IdOf(s[i])
    decreases |s|
  {
    if i < |s| - 1 {
      IdsOfAt(Front(s), i);
    }
  }

  /** Two things of one tree with the same id are the same when every RDN of the tree is safe. */
  lemma TreeIdsDecode(es: seq<LdifEntry>, a: Address, b: Address)
    requires forall p, k :: IsNode(PathsOf(Locate(es)), p) && k in p ==> SafeRdn(k)
    requires Exists(Locate(es), a) && Exists(Locate(es), b) && IdOf(a) == IdOf(b)
    ensures a == b
  {
    hide IdOf, SafeRdn, Exists, IsNode, Trimmed, IsComponent;
    ExistingIsNode(Locate(es), a);
    ExistingIsNode(Locate(es), b);
    PathsAreTrimmed(es, a.path);
    PathsAreTrimmed(es, b.path);
    IdDecodes(a, b);
  }

  lemma PathsAreTrimmed(es: seq<LdifEntry>, p: Path)
    requires IsNode(PathsOf(Locate(es)), p)
    ensures AllTrimmed(p)
  {
    hide IsNode, PathsOf, Locate;
    PathsAreParsed(es, p);
  }

  /** When every RDN of the tree is safe, no two ids of the output are equal. */
  lemma AllIdsAreDistinct(es: seq<LdifEntry>)
    requires forall p, k :: IsNode(PathsOf(Locate(es)), p) && k in p ==> SafeRdn(k)
    ensures NoDup(Ids(Render(Locate(es), [], "root")))
  {
    hide Render, Addresses, IdOf, SafeRdn, Exists, IsNode, Locate;
    var items := Locate(es);
    RootIsNode(PathsOf(items));
    var s := Addresses(items, []);
    RenderedIds(items, []);
    assert PathId([]) == "root";
    EachShownOnce(items, []);
    forall i, j | 0 <= i < j < |s|
      ensures IdsOf(s)[i] != IdsOf(s)[j]
    {
      IdsOfAt(s, i);
      IdsOfAt(s, j);
      assert s[i] in s && s[j] in s;
      if IdOf(s[i]) == IdOf(s[j]) {
        TreeIdsDecode(es, s[i], s[j]);
      }
    }
  }

  lemma RootIsNode(ps: seq<Path>)
    ensures IsNode(ps, [])
  {
  }

  lemma ExistingIsNode(items: seq<Located>, a: Address)
    requires Exists(items, a)
    ensures IsNode(PathsOf(items), a.path)
  {
  }
}
