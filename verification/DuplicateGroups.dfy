/** The duplicate certificates of an upload, grouped by country and certificate. */
module DuplicateGroups {
  import opened Sequences
  import opened Grouping

  datatype UploadDuplicate = UploadDuplicate(
    id: int, certificateId: string, fingerprint: string, subjectDn: string, certificateType: string, country: string)

  datatype CertNode = CertNode(
    certificateId: string, fingerprint: string, subjectDn: string, certificateType: string, country: string,
    duplicates: seq<UploadDuplicate>)

  datatype CountryGroup = CountryGroup(countryCode: string, certificates: seq<CertNode>, totalDuplicates: nat)

  /** `localeCompare` is not modelled: any total preorder on the texts will do. */
  type Comparison = (string, string) -> bool

  function CertificateIdOf(d: UploadDuplicate): string {
    d.certificateId
  }

  function CountryOf(c: CertNode): string {
    if c.country == "" then "Unknown" else c.country
  }

  // ----- What the grouping computes -----

  /** The first record of a certificate. */
  function FirstOf(ds: seq<UploadDuplicate>, id: string): UploadDuplicate
    requires id in Keys(ds, CertificateIdOf)
  {
    if id in Keys(Front(ds), CertificateIdOf) then FirstOf(Front(ds), id) else Last(ds)
  }

  function CertFor(ds: seq<UploadDuplicate>, id: string): CertNode
    requires id in Keys(ds, CertificateIdOf)
  {
    var d := FirstOf(ds, id);
    CertNode(d.certificateId, d.fingerprint, d.subjectDn, d.certificateType, d.country,
             WithKey(ds, CertificateIdOf, id))
  }

  predicate AreIds(ds: seq<UploadDuplicate>, ids: seq<string>) {
    forall id :: id in ids ==> id in Keys(ds, CertificateIdOf)
  }

  function CertsFor(ds: seq<UploadDuplicate>, ids: seq<string>): (r: seq<CertNode>)
    requires AreIds(ds, ids)
    ensures |r| == |ids| && forall i :: 0 <= i < |ids| ==> r[i] == CertFor(ds, ids[i])
  {
    seq(|ids|, i requires 0 <= i < |ids| => assert ids[i] in ids; CertFor(ds, ids[i]))
  }

  function Certs(ds: seq<UploadDuplicate>): seq<CertNode> {
    CertsFor(ds, Keys(ds, CertificateIdOf))
  }

  function TotalDuplicates(certs: seq<CertNode>): nat {
    if certs == [] then 0 else TotalDuplicates(Front(certs)) + |Last(certs).duplicates|
  }

  function BySubject(le: Comparison): (CertNode, CertNode) -> bool {
    (a: CertNode, b: CertNode) => le(a.subjectDn, b.subjectDn)
  }

  function MoreDuplicatesFirst(a: CountryGroup, b: CountryGroup): bool {
    a.totalDuplicates >= b.totalDuplicates
  }

  function GroupFor(country: string, certs: seq<CertNode>, le: Comparison): CountryGroup {
    CountryGroup(country, SortBy(certs, BySubject(le)), TotalDuplicates(SortBy(certs, BySubject(le))))
  }

  function GroupsFor(certs: seq<CertNode>, countries: seq<string>, le: Comparison): (r: seq<CountryGroup>)
    ensures |r| == |countries|
  {
    if countries == [] then []
    else
      GroupsFor(certs, Front(countries), le)
      + [GroupFor(Last(countries), WithKey(certs, CountryOf, Last(countries)), le)]
  }

  function CountryGroups(ds: seq<UploadDuplicate>, le: Comparison): seq<CountryGroup> {
    var certs := Certs(ds);
    SortBy(GroupsFor(certs, Keys(certs, CountryOf), le), MoreDuplicatesFirst)
  }

  // ----- The two passes -----

  method CollectCertificates(duplicates: seq<UploadDuplicate>)
    returns (certKeys: seq<string>, certMap: map<string, CertNode>)
    ensures certKeys == Keys(duplicates, CertificateIdOf)
    ensures certMap == map id | id in certKeys :: CertFor(duplicates, id)
  {
    certKeys, certMap := [], map[];
    for i := 0 to |duplicates|
      invariant certKeys == Keys(duplicates[..i], CertificateIdOf)
      invariant forall id :: id in certMap <==> id in certKeys
      invariant forall id :: id in certMap ==> certMap[id] == CertFor(duplicates[..i], id)
    {
      var dup := duplicates[i];
      var key := dup.certificateId;
      ghost var before, now := duplicates[..i], duplicates[..i + 1];
      assert Front(now) == before && Last(now) == dup;
      if key !in certMap {
        WithAbsentKey(before, CertificateIdOf, key);
        certMap := certMap[key := CertNode(dup.certificateId, dup.fingerprint, dup.subjectDn, dup.certificateType,
                                           dup.country, [])];
        certKeys := certKeys + [key];
      }
      var cert := certMap[key];
      certMap := certMap[key := cert.(duplicates := cert.duplicates + [dup])];
      forall id | id in certMap
        ensures certMap[id] == CertFor(now, id)
      {
        assert id != key ==> WithKey(before, CertificateIdOf, id) + [] == WithKey(before, CertificateIdOf, id);
      }
    }
    assert duplicates[..|duplicates|] == duplicates;
  }

  lemma NothingGrouped(key: CertNode -> string)
    ensures Keys([], key) == []
  {
  }

  method CollectCountries(certs: seq<CertNode>)
    returns (countryKeys: seq<string>, countryMap: map<string, seq<CertNode>>)
    ensures countryKeys == Keys(certs, CountryOf)
    ensures countryMap == map c | c in countryKeys :: WithKey(certs, CountryOf, c)
  {
    hide WithKey, Keys;
    NothingGrouped(CountryOf);
    assert certs[..0] == [];
    countryKeys, countryMap := [], map[];
    for i := 0 to |certs|
      invariant countryKeys == Keys(certs[..i], CountryOf)
      invariant forall c :: c in countryMap <==> c in countryKeys
      invariant forall c :: c in countryMap ==> countryMap[c] == WithKey(certs[..i], CountryOf, c)
    {
      var cert := certs[i];
      var country := if cert.country == "" then "Unknown" else cert.country;
      ghost var before, now := certs[..i], certs[..i + 1];
      assert now == before + [cert];
      KeysSnoc(before, cert, CountryOf);
      if country !in countryMap {
        WithAbsentKey(before, CountryOf, country);
        countryMap := countryMap[country := []];
        countryKeys := countryKeys + [country];
      }
      countryMap := countryMap[country := countryMap[country] + [cert]];
      forall c | c in countryMap
        ensures countryMap[c] == WithKey(now, CountryOf, c)
      {
        WithKeySnoc(before, cert, CountryOf, c);
        assert WithKey(before, CountryOf, c) + [] == WithKey(before, CountryOf, c);
      }
    }
    assert certs[..|certs|] == certs;
  }

  method GroupDuplicates(duplicates: seq<UploadDuplicate>, le: Comparison) returns (groups: seq<CountryGroup>)
    ensures groups == CountryGroups(duplicates, le)
  {
    hide CertFor, WithKey, GroupFor, Keys, SortBy;
    var certKeys, certMap := CollectCertificates(duplicates);
    var certs: seq<CertNode> :=
      seq(|certKeys|, i requires 0 <= i < |certKeys| && certKeys[i] in certMap => certMap[certKeys[i]]);
    assert certs == Certs(duplicates);
    var countryKeys, countryMap := CollectCountries(certs);
    groups := [];
    for i := 0 to |countryKeys|
      invariant groups == GroupsFor(certs, countryKeys[..i], le)
    {
      var c := countryKeys[i];
      assert Front(countryKeys[..i + 1]) == countryKeys[..i];
      groups := groups + [GroupFor(c, countryMap[c], le)];
    }
    assert countryKeys[..|countryKeys|] == countryKeys;
    groups := SortBy(groups, MoreDuplicatesFirst);
  }

  // ----- Conservation -----

  function DuplicatesHeld(c: CertNode): multiset<UploadDuplicate> {
    multiset(c.duplicates)
  }

  function Itself<T>(x: T): multiset<T> {
    multiset{x}
  }

  /** The records listed under a group, certificate by certificate. */
  function HeldByGroup(g: CountryGroup): multiset<UploadDuplicate> {
    Gather(g.certificates, DuplicatesHeld)
  }

  function CertsOfGroup(g: CountryGroup): multiset<CertNode> {
    multiset(g.certificates)
  }

  lemma {:induction false} GatherItself<T>(s: seq<T>)
    ensures Gather(s, Itself<T>) == multiset(s)
    decreases |s|
  {
    if s != [] {
      GatherItself(Front(s));
      assert s == Front(s) + [Last(s)];
    }
  }

  /** The certificates hold exactly the records of the ids they were made for. */
  lemma {:induction false} CertsHold(ds: seq<UploadDuplicate>, ids: seq<string>)
    requires AreIds(ds, ids)
    ensures Gather(CertsFor(ds, ids), DuplicatesHeld)
      == GatherByKey(ds, CertificateIdOf, Itself<UploadDuplicate>, ids)
    decreases |ids|
  {
    if ids != [] {
      assert Last(ids) in ids;
      CertsHold(ds, Front(ids));
      assert Front(CertsFor(ds, ids)) == CertsFor(ds, Front(ids));
      GatherItself(WithKey(ds, CertificateIdOf, Last(ids)));
    }
  }

  lemma {:induction false} GroupsHold(certs: seq<CertNode>, countries: seq<string>, le: Comparison)
    ensures Gather(GroupsFor(certs, countries, le), HeldByGroup)
      == GatherByKey(certs, CountryOf, DuplicatesHeld, countries)
    decreases |countries|
  {
    if countries != [] {
      var c := Last(countries);
      var group := WithKey(certs, CountryOf, c);
      GroupsHold(certs, Front(countries), le);
      SortingConserves(group, BySubject(le), DuplicatesHeld);
      assert Front(GroupsFor(certs, countries, le)) == GroupsFor(certs, Front(countries), le);
    }
  }

  lemma {:induction false} GroupsHoldCerts(certs: seq<CertNode>, countries: seq<string>, le: Comparison)
    ensures Gather(GroupsFor(certs, countries, le), CertsOfGroup)
      == GatherByKey(certs, CountryOf, Itself<CertNode>, countries)
    decreases |countries|
  {
    if countries != [] {
      var group := WithKey(certs, CountryOf, Last(countries));
      GroupsHoldCerts(certs, Front(countries), le);
      SortingConserves(group, BySubject(le), Itself<CertNode>);
      GatherItself(group);
      GatherItself(SortBy(group, BySubject(le)));
      assert Front(GroupsFor(certs, countries, le)) == GroupsFor(certs, Front(countries), le);
    }
  }

  /** Flattening the groups gives back the records, and their certificates are one for each id. */
  lemma GroupsConserve(ds: seq<UploadDuplicate>, le: Comparison)
    ensures Gather(CountryGroups(ds, le), HeldByGroup) == multiset(ds)
    ensures Gather(CountryGroups(ds, le), CertsOfGroup) == multiset(Certs(ds))
  {
    var certs := Certs(ds);
    var countries := Keys(certs, CountryOf);
    var groups := GroupsFor(certs, countries, le);
    SortingConserves(groups, MoreDuplicatesFirst, HeldByGroup);
    SortingConserves(groups, MoreDuplicatesFirst, CertsOfGroup);
    GroupsHold(certs, countries, le);
    GroupsHoldCerts(certs, countries, le);
    GroupingConserves(certs, CountryOf, DuplicatesHeld);
    GroupingConserves(certs, CountryOf, Itself<CertNode>);
    CertsHold(ds, Keys(ds, CertificateIdOf));
    GroupingConserves(ds, CertificateIdOf, Itself<UploadDuplicate>);
    GatherItself(ds);
    GatherItself(certs);
  }

  // ----- The displayed totals -----

  function SumOfTotals(groups: seq<CountryGroup>): nat {
    if groups == [] then 0 else SumOfTotals(Front(groups)) + Last(groups).totalDuplicates
  }

  function CountOfCertificates(groups: seq<CountryGroup>): nat {
    if groups == [] then 0 else CountOfCertificates(Front(groups)) + |Last(groups).certificates|
  }

  lemma {:induction false} TotalIsCount(certs: seq<CertNode>)
    ensures TotalDuplicates(certs) == |Gather(certs, DuplicatesHeld)|
    decreases |certs|
  {
    if certs != [] {
      TotalIsCount(Front(certs));
    }
  }

  lemma {:induction false} SumsAreCounts(groups: seq<CountryGroup>)
    requires forall i :: 0 <= i < |groups| ==> groups[i].totalDuplicates == TotalDuplicates(groups[i].certificates)
    ensures SumOfTotals(groups) == |Gather(groups, HeldByGroup)|
    ensures CountOfCertificates(groups) == |Gather(groups, CertsOfGroup)|
    decreases |groups|
  {
    if groups != [] {
      SumsAreCounts(Front(groups));
      assert Last(groups) == groups[|groups| - 1];
      TotalIsCount(Last(groups).certificates);
    }
  }

  /** Every group of the result was made by `GroupFor` from the certificates of its country. */
  lemma {:induction false} GroupsForAre(certs: seq<CertNode>, countries: seq<string>, le: Comparison, i: nat)
    requires i < |countries|
    ensures GroupsFor(certs, countries, le)[i] == GroupFor(countries[i], WithKey(certs, CountryOf, countries[i]), le)
    decreases |countries|
  {
    if i < |countries| - 1 {
      GroupsForAre(certs, Front(countries), le, i);
    }
  }

  lemma MoreDuplicatesIsPreorder()
    ensures TotalPreorder(MoreDuplicatesFirst)
  {
  }

  lemma BySubjectIsPreorder(le: Comparison)
    requires TotalPreorder(le)
    ensures TotalPreorder(BySubject(le))
  {
    var f := BySubject(le);
    forall x: CertNode, y: CertNode
      ensures f(x, y) || f(y, x)
    {
      assert le(x.subjectDn, y.subjectDn) || le(y.subjectDn, x.subjectDn);
    }
    forall x: CertNode, y: CertNode, z: CertNode | f(x, y) && f(y, z)
      ensures f(x, z)
    {
      assert le(x.subjectDn, y.subjectDn) && le(y.subjectDn, z.subjectDn);
    }
  }

  lemma ResultGroup(ds: seq<UploadDuplicate>, le: Comparison, g: CountryGroup)
    requires g in CountryGroups(ds, le)
    ensures g.countryCode in Keys(Certs(ds), CountryOf)
    ensures g == GroupFor(g.countryCode, WithKey(Certs(ds), CountryOf, g.countryCode), le)
  {
    var certs := Certs(ds);
    var countries := Keys(certs, CountryOf);
    var groups := GroupsFor(certs, countries, le);
    MoreDuplicatesIsPreorder();
    SortBySorts(groups, MoreDuplicatesFirst);
    assert g in multiset(CountryGroups(ds, le)) && g in groups;
    var i :| 0 <= i < |groups| && groups[i] == g;
    GroupsForAre(certs, countries, le, i);
  }

  /** The summary line: the totals add up to the number of records, the certificates to the number of ids. */
  lemma SummaryIsRight(ds: seq<UploadDuplicate>, le: Comparison)
    ensures var groups := CountryGroups(ds, le);
      && SumOfTotals(groups) == |ds|
      && CountOfCertificates(groups) == |set i | 0 <= i < |ds| :: ds[i].certificateId|
      && |groups| == |Keys(Certs(ds), CountryOf)|
  {
    var groups := CountryGroups(ds, le);
    forall i | 0 <= i < |groups|
      ensures groups[i].totalDuplicates == TotalDuplicates(groups[i].certificates)
    {
      assert groups[i] in groups;
      ResultGroup(ds, le, groups[i]);
    }
    SumsAreCounts(groups);
    GroupsConserve(ds, le);
    KeysCount(ds);
  }

  lemma KeysCount(ds: seq<UploadDuplicate>)
    ensures |Keys(ds, CertificateIdOf)| == |set i | 0 <= i < |ds| :: ds[i].certificateId|
  {
    var ks := Keys(ds, CertificateIdOf);
    var ids := set i | 0 <= i < |ds| :: ds[i].certificateId;
    KeysAreKeys(ds, CertificateIdOf);
    assert forall i :: 0 <= i < |ds| ==> CertificateIdOf(ds[i]) == ds[i].certificateId;
    forall k
      ensures k in ids <==> k in ks
    {
      if k in ks {
        var i :| 0 <= i < |ds| && CertificateIdOf(ds[i]) == k;
        assert ds[i].certificateId in ids;
      }
    }
    SetOfList(ks);
    assert ids == set k | k in ks;
  }

  lemma {:induction false} SetOfList(s: seq<string>)
    requires NoDup(s)
    ensures |set x | x in s| == |s|
    decreases |s|
  {
    if s != [] {
      SetOfList(Front(s));
      assert s == Front(s) + [Last(s)];
      assert (set x | x in s) == (set x | x in Front(s)) + {Last(s)};
      assert Last(s) !in Front(s);
    }
  }

  /** The total of a group is the number of records listed under it. */
  lemma GroupTotal(ds: seq<UploadDuplicate>, le: Comparison, g: CountryGroup)
    requires g in CountryGroups(ds, le)
    ensures g.totalDuplicates == |HeldByGroup(g)|
  {
    hide CountryGroups, Certs, SortBy;
    ResultGroup(ds, le, g);
    TotalIsCount(g.certificates);
  }

  // ----- Where each certificate is, and in which order -----

  lemma {:induction false} FirstIsFirst(ds: seq<UploadDuplicate>, id: string)
    requires id in Keys(ds, CertificateIdOf)
    ensures WithKey(ds, CertificateIdOf, id) != [] && FirstOf(ds, id) == WithKey(ds, CertificateIdOf, id)[0]
    decreases |ds|
  {
    if id in Keys(Front(ds), CertificateIdOf) {
      FirstIsFirst(Front(ds), id);
    } else {
      WithAbsentKey(Front(ds), CertificateIdOf, id);
    }
  }

  /**
   * A certificate of the result lists exactly the records with its id, in input order, shows the
   * data of the first of them, and lies under its country.
   */
  lemma CertificatePlacement(ds: seq<UploadDuplicate>, le: Comparison, g: CountryGroup, c: CertNode)
    requires TotalPreorder(le)
    requires g in CountryGroups(ds, le) && c in g.certificates
    ensures c.duplicates == WithKey(ds, CertificateIdOf, c.certificateId) && c.duplicates != []
    ensures IsFiltered(ds, HasKey(CertificateIdOf, c.certificateId), c.duplicates)
    ensures var first := c.duplicates[0];
      && c.certificateId == first.certificateId && c.fingerprint == first.fingerprint && c.country == first.country
      && c.subjectDn == first.subjectDn && c.certificateType == first.certificateType
    ensures g.countryCode == if c.duplicates[0].country == "" then "Unknown" else c.duplicates[0].country
  {
    var certs, ids := Certs(ds), Keys(ds, CertificateIdOf);
    hide IsFiltered;
    ResultGroup(ds, le, g);
    WithKeyFilters(ds, CertificateIdOf, c.certificateId);
    var group := WithKey(certs, CountryOf, g.countryCode);
    BySubjectIsPreorder(le);
    SortBySorts(group, BySubject(le));
    assert c in multiset(g.certificates) && c in group;
    WithKeyIs(certs, CountryOf, g.countryCode);
    var i :| 0 <= i < |certs| && certs[i] == c;
    assert c == CertFor(ds, ids[i]);
    FirstIsFirst(ds, ids[i]);
    WithKeyIs(ds, CertificateIdOf, ids[i]);
    assert FirstOf(ds, ids[i]) in WithKey(ds, CertificateIdOf, ids[i]);
  }

  lemma TotalsFall(ds: seq<UploadDuplicate>, le: Comparison)
    ensures var groups := CountryGroups(ds, le);
      forall i, j :: 0 <= i < j < |groups| ==> groups[i].totalDuplicates >= groups[j].totalDuplicates
  {
    hide SortBy, GroupsFor, Keys, TotalPreorder;
    var groups := CountryGroups(ds, le);
    MoreDuplicatesIsPreorder();
    SortBySorts(GroupsFor(Certs(ds), Keys(Certs(ds), CountryOf), le), MoreDuplicatesFirst);
    assert forall i, j :: 0 <= i < j < |groups| ==> MoreDuplicatesFirst(groups[i], groups[j]);
  }

  lemma CertificatesAreSorted(ds: seq<UploadDuplicate>, le: Comparison, g: CountryGroup, c: CertNode)
    requires TotalPreorder(le) && g in CountryGroups(ds, le)
    ensures Sorted(g.certificates, BySubject(le))
    ensures EqualTo(g.certificates, c, BySubject(le))
      == EqualTo(WithKey(Certs(ds), CountryOf, g.countryCode), c, BySubject(le))
  {
    hide SortBy, Sorted, EqualTo, WithKey, Keys, TotalPreorder, BySubject, CountryGroups, Certs;
    var group := WithKey(Certs(ds), CountryOf, g.countryCode);
    ResultGroup(ds, le, g);
    BySubjectIsPreorder(le);
    SortBySorts(group, BySubject(le));
    SortByIsStable(group, c, BySubject(le));
  }

  lemma SubjectsInOrder(certs: seq<CertNode>, le: Comparison, i: nat, j: nat)
    requires Sorted(certs, BySubject(le)) && i < j < |certs|
    ensures le(certs[i].subjectDn, certs[j].subjectDn)
  {
    assert BySubject(le)(certs[i], certs[j]);
  }

  lemma CountriesKeepTheirOrder(ds: seq<UploadDuplicate>, le: Comparison, g: CountryGroup)
    ensures EqualTo(CountryGroups(ds, le), g, MoreDuplicatesFirst)
      == EqualTo(GroupsFor(Certs(ds), Keys(Certs(ds), CountryOf), le), g, MoreDuplicatesFirst)
  {
    hide SortBy, EqualTo, GroupsFor, Keys, TotalPreorder;
    MoreDuplicatesIsPreorder();
    SortByIsStable(GroupsFor(Certs(ds), Keys(Certs(ds), CountryOf), le), g, MoreDuplicatesFirst);
  }

  /**
   * Countries come with the most duplicates first, certificates by subject; countries with equally
   * many duplicates and certificates with equal subjects keep the order of their first appearance.
   */
  lemma GroupsAreSorted(ds: seq<UploadDuplicate>, le: Comparison)
    requires TotalPreorder(le)
    ensures var groups := CountryGroups(ds, le);
      && (forall i, j :: 0 <= i < j < |groups| ==> groups[i].totalDuplicates >= groups[j].totalDuplicates)
      && (forall g, i, j :: g in groups && 0 <= i < j < |g.certificates| ==>
            le(g.certificates[i].subjectDn, g.certificates[j].subjectDn))
      && (forall g, c :: g in groups ==>
            EqualTo(g.certificates, c, BySubject(le))
            == EqualTo(WithKey(Certs(ds), CountryOf, g.countryCode), c, BySubject(le)))
      && (forall g :: EqualTo(groups, g, MoreDuplicatesFirst)
            == EqualTo(GroupsFor(Certs(ds), Keys(Certs(ds), CountryOf), le), g, MoreDuplicatesFirst))
  {
    hide Sorted, EqualTo, WithKey, Keys, TotalPreorder, BySubject, CountryGroups, Certs, GroupsFor;
    var groups := CountryGroups(ds, le);
    TotalsFall(ds, le);
    forall g, c: CertNode | g in groups
      ensures EqualTo(g.certificates, c, BySubject(le))
        == EqualTo(WithKey(Certs(ds), CountryOf, g.countryCode), c, BySubject(le))
    {
      CertificatesAreSorted(ds, le, g, c);
    }
    forall g, i, j | g in groups && 0 <= i < j < |g.certificates|
      ensures le(g.certificates[i].subjectDn, g.certificates[j].subjectDn)
    {
      CertificatesAreSorted(ds, le, g, g.certificates[i]);
      SubjectsInOrder(g.certificates, le, i, j);
    }
    forall g: CountryGroup
      ensures EqualTo(groups, g, MoreDuplicatesFirst)
        == EqualTo(GroupsFor(Certs(ds), Keys(Certs(ds), CountryOf), le), g, MoreDuplicatesFirst)
    {
      CountriesKeepTheirOrder(ds, le, g);
    }
  }

  function CodeOf(g: CountryGroup): multiset<string> {
    multiset{g.countryCode}
  }

  lemma {:induction false} CodesOfGroups(certs: seq<CertNode>, countries: seq<string>, le: Comparison)
    ensures Gather(GroupsFor(certs, countries, le), CodeOf) == multiset(countries)
    decreases |countries|
  {
    hide SortBy, WithKey, TotalDuplicates;
    if countries != [] {
      hide Gather;
      var init, c := Front(countries), Last(countries);
      CodesOfGroups(certs, init, le);
      GatherSnoc(GroupsFor(certs, init, le), GroupFor(c, WithKey(certs, CountryOf, c), le), CodeOf);
      assert countries == init + [c];
    }
  }

  lemma {:induction false} CodesCounted(groups: seq<CountryGroup>, i: nat, j: nat)
    requires i < j < |groups| && groups[i].countryCode == groups[j].countryCode
    ensures Gather(groups, CodeOf)[groups[i].countryCode] >= 2
    decreases |groups|
  {
    if j < |groups| - 1 {
      CodesCounted(Front(groups), i, j);
    } else {
      CodeCounted(Front(groups), i);
    }
  }

  lemma {:induction false} CodeCounted(groups: seq<CountryGroup>, i: nat)
    requires i < |groups|
    ensures Gather(groups, CodeOf)[groups[i].countryCode] >= 1
    decreases |groups|
  {
    if i < |groups| - 1 {
      CodeCounted(Front(groups), i);
    }
  }

  lemma {:induction false} NoDupCounts(s: seq<string>)
    requires NoDup(s)
    ensures forall x :: multiset(s)[x] <= 1
    decreases |s|
  {
    if s != [] {
      NoDupCounts(Front(s));
      assert s == Front(s) + [Last(s)];
      assert Last(s) !in Front(s);
    }
  }

  /** No country is listed twice. */
  lemma CountriesAreDistinct(ds: seq<UploadDuplicate>, le: Comparison, i: nat, j: nat)
    requires i < j < |CountryGroups(ds, le)|
    ensures CountryGroups(ds, le)[i].countryCode != CountryGroups(ds, le)[j].countryCode
  {
    var certs := Certs(ds);
    var countries := Keys(certs, CountryOf);
    CodesOfGroups(certs, countries, le);
    SortingConserves(GroupsFor(certs, countries, le), MoreDuplicatesFirst, CodeOf);
    KeysAreKeys(certs, CountryOf);
    NoDupCounts(countries);
    if CountryGroups(ds, le)[i].countryCode == CountryGroups(ds, le)[j].countryCode {
      CodesCounted(CountryGroups(ds, le), i, j);
    }
  }
}
