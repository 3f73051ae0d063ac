/**
 * From a distinguished name to the path of its node: components in root-first order, without the
 * fixed base name; and back, from a path to the name the node displays.
 */
module DnPaths {
  import opened Sequences
  import opened JsText
  import opened DnSyntax

  type Path = seq<string>

  const BASE_DN: Path := ["dc=int", "dc=icao", "dc=pkd", "dc=download"]

  function StripBase(components: Path): Path {
    if BASE_DN <= components && |components| > |BASE_DN| then components[|BASE_DN|..] else components
  }

  method RemoveBaseDn(components: Path) returns (r: Path)
    ensures r == StripBase(components)
  {
    var hasBaseDn := true;
    var i := 0;
    while i < |BASE_DN|
      invariant 0 <= i <= |BASE_DN|
      invariant hasBaseDn ==> i <= |components| && components[..i] == BASE_DN[..i]
      invariant !hasBaseDn ==> !(BASE_DN <= components)
    {
      if i >= |components| || components[i] != BASE_DN[i] {
        hasBaseDn := false;
        break;
      }
      i := i + 1;
    }
    if hasBaseDn && |components| > |BASE_DN| {
      return components[|BASE_DN|..];
    }
    return components;
  }

  /** Stripping merges a name with its continuation below the base, and nothing else. */
  lemma StripBaseMerges(a: Path, b: Path)
    ensures StripBase(a) == StripBase(b) <==>
      || a == b
      || (StripBase(b) == b && b != [] && a == BASE_DN + b)
      || (StripBase(a) == a && a != [] && b == BASE_DN + a)
  {
    if BASE_DN <= a {
      assert a == BASE_DN + a[4..];
    }
    if BASE_DN <= b {
      assert b == BASE_DN + b[4..];
    }
    assert (BASE_DN + a)[4..] == a && (BASE_DN + b)[4..] == b;
  }

  /** Exactly the paths below the base are stripped; the base itself is not. */
  lemma StripBaseIs(p: Path)
    ensures StripBase(["dc=int", "dc=icao", "dc=pkd", "dc=download"] + p)
      == if p == [] then ["dc=int", "dc=icao", "dc=pkd", "dc=download"] else p
    ensures |p| < 4 || p[..4] != ["dc=int", "dc=icao", "dc=pkd", "dc=download"] ==> StripBase(p) == p
  {
  }

  function PathOf(dn: string): Path {
    StripBase(Reverse(Components(dn)))
  }

  lemma PathsHoldComponents(dn: string)
    ensures forall c :: c in PathOf(dn) ==> IsComponent(c)
  {
    ComponentsAreComponents(dn);
    var cs := Components(dn);
    hide Components;
    forall c | c in Reverse(cs)
      ensures c in cs
    {
      var i :| 0 <= i < |cs| && Reverse(cs)[i] == c;
      assert cs[|cs| - 1 - i] == c;
    }
  }

  // ----- The displayed name of a node -----

  /** One step of `fullDnPath`: no comma is put before an empty name. */
  function Prepend(rdn: string, above: string): string {
    if above != "" then rdn + "," + above else rdn
  }

  function FullDn(p: Path): string {
    if p == [] then "" else Prepend(Last(p), FullDn(Front(p)))
  }

  lemma {:induction false} FullDnIsJoin(p: Path)
    requires p != [] && p[0] != ""
    ensures FullDn(p) == Join(Reverse(p)) && FullDn(p) != ""
    decreases |p|
  {
    if |p| > 1 {
      FullDnIsJoin(Front(p));
      assert Reverse(p)[1..] == Reverse(Front(p));
    } else {
      assert FullDn(Front(p)) == "";
    }
  }

  /** Empty topmost components do not show. */
  lemma {:induction false} FullDnSkipsEmptyTops(tops: Path, p: Path)
    requires forall i :: 0 <= i < |tops| ==> tops[i] == ""
    requires p == [] || p[0] != ""
    ensures FullDn(tops + p) == Join(Reverse(p))
    decreases |p|
  {
    if p == [] {
      assert tops + p == tops;
      NothingShows(tops);
    } else {
      var init, k := Front(p), Last(p);
      assert Front(tops + p) == tops + init;
      FullDnSkipsEmptyTops(tops, init);
      if init != [] {
        FullDnIsJoin(init);
        FullDnIsJoin(p);
        assert p == init + [k];
      } else {
        assert p == [k] && Reverse(p) == [k];
      }
    }
  }

  lemma {:induction false} NothingShows(tops: Path)
    requires forall i :: 0 <= i < |tops| ==> tops[i] == ""
    ensures FullDn(tops) == ""
    decreases |tops|
  {
    if tops != [] {
      NothingShows(Front(tops));
    }
  }

  function Lengths(ps: seq<string>): nat {
    if ps == [] then 0 else |ps[0]| + Lengths(ps[1..])
  }

  lemma {:induction false} LengthsSnoc(ps: seq<string>, p: string)
    ensures Lengths(ps + [p]) == Lengths(ps) + |p|
  {
    if ps == [] {
      assert [p][1..] == [];
    } else {
      assert (ps + [p])[1..] == ps[1..] + [p];
      LengthsSnoc(ps[1..], p);
    }
  }

  lemma {:induction false} JoinLength(ps: seq<string>)
    requires ps != []
    ensures |Join(ps)| == Lengths(ps) + |ps| - 1
  {
    if |ps| > 1 {
      JoinLength(ps[1..]);
    } else {
      assert ps[1..] == [];
    }
  }

  lemma {:induction false} FullDnLength(p: Path)
    requires p != []
    ensures |FullDn(p)| <= Lengths(p) + |p| - 1
    ensures p[0] == "" && |p| > 1 ==> |FullDn(p)| < Lengths(p) + |p| - 1
    ensures p[0] == "" && |p| == 1 ==> FullDn(p) == ""
    decreases |p|
  {
    LengthsSnoc(Front(p), Last(p));
    assert p == Front(p) + [Last(p)];
    if |p| > 1 {
      FullDnLength(Front(p));
    }
  }

  lemma {:induction false} ReverseLengths(p: Path)
    ensures Lengths(Reverse(p)) == Lengths(p)
    decreases |p|
  {
    if p != [] {
      ReverseLengths(Front(p));
      assert p == Front(p) + [Last(p)];
      LengthsSnoc(Front(p), Last(p));
      assert Reverse(p)[1..] == Reverse(Front(p));
    }
  }

  /** Trimming cuts nothing when the total length stays the same. */
  lemma {:induction false} TrimAllLengths(ps: seq<string>)
    ensures Lengths(TrimAll(ps)) <= Lengths(ps)
    ensures Lengths(TrimAll(ps)) == Lengths(ps) ==> TrimAll(ps) == ps
    decreases |ps|
  {
    if ps != [] {
      var f, l := Front(ps), Last(ps);
      assert ps == f + [l];
      TrimProperties(l);
      TrimAllLengths(f);
      LengthsSnoc(f, l);
      LengthsSnoc(TrimAll(f), Trim(l));
    }
  }

  /** The displayed name of `p` parses back to `p`. */
  ghost predicate ReparsesTo(p: Path) {
    Reverse(Components(FullDn(p))) == p
  }

  /**
   * The displayed name of a node parses back to the node's path exactly when the topmost component
   * is not empty and no lower component ends inside an escape.
   */
  lemma FullDnReparses(p: Path)
    requires forall c :: c in p ==> IsComponent(c)
    ensures ReparsesTo(p) <==>
      (p != [] ==> p[0] != "") && forall i :: 1 <= i < |p| ==> Closed(p[i])
  {
    if p == [] {
      assert Components("") == [];
    } else if p[0] != "" && forall i :: 1 <= i < |p| ==> Closed(p[i]) {
      FullDnReparsesIf(p);
    } else if ReparsesTo(p) {
      FullDnReparsesOnlyIf(p);
    }
  }

  lemma {:induction false} FullDnReparsesIf(p: Path)
    requires p != [] && p[0] != "" && forall c :: c in p ==> IsComponent(c)
    requires forall i :: 1 <= i < |p| ==> Closed(p[i])
    ensures ReparsesTo(p)
  {
    var q := Reverse(p);
    FullDnIsJoin(p);
    assert forall i :: 0 <= i < |q| ==> q[i] in p && IsComponent(q[i]);
    RawPiecesOfJoin(q);
    assert Last(q) == p[0];
    forall i | 0 <= i < |q|
      ensures Trim(q[i]) == q[i]
    {
      TrimProperties(q[i]);
    }
    TrimAllAt(q);
    assert TrimAll(q) == q;
    ReverseInvolutive(p);
  }

  lemma {:induction false} FullDnReparsesOnlyIf(p: Path)
    requires p != [] && ReparsesTo(p)
    ensures p[0] != "" && forall i :: 1 <= i < |p| ==> Closed(p[i])
  {
    var q := Reverse(p);
    ReverseInvolutive(Components(FullDn(p)));
    NothingWasCut(p);
    SplitIsTheOnlyCut(FullDn(p), q);
    forall i | 1 <= i < |p|
      ensures Closed(p[i])
    {
      assert p[i] == q[|p| - 1 - i];
    }
  }

  /** By their lengths: the pieces of the displayed name are the components themselves. */
  lemma NothingWasCut(p: Path)
    requires p != [] && Components(FullDn(p)) == Reverse(p)
    ensures p[0] != "" && RawPieces(FullDn(p), false) == Reverse(p)
  {
    hide RawPieces, FullDn, Join, TrimAll, Reverse;
    var raw := RawPieces(FullDn(p), false);
    var kept := DropEmptyLast(raw);
    JoinRawPieces(FullDn(p), false);
    JoinLength(raw);
    LengthsSnoc(Front(raw), Last(raw));
    assert raw == Front(raw) + [Last(raw)];
    TrimAllLengths(kept);
    FullDnLength(p);
    ReverseLengths(p);
  }

  // ----- Names whose displayed name does not parse back -----

  lemma TwoPieces(x: string, y: string)
    requires WellFormedPieces([x, y]) && y != ""
    ensures PathOf(x + "," + y) == [Trim(y), Trim(x)]
  {
    hide WellFormedPieces, RawPieces, Trim;
    var ps := [x, y];
    assert ps[1..] == [y];
    assert Join(ps) == x + "," + y;
    RawPiecesOfJoin(ps);
    assert Front(ps) == [x];
    assert TrimAll(ps) == [Trim(x), Trim(y)] by {
      TrimAllAt(ps);
    }
    assert Reverse([Trim(x), Trim(y)]) == [Trim(y), Trim(x)];
  }

  lemma ShownPair(top: string, low: string)
    ensures FullDn([top, low]) == Prepend(low, top)
  {
    assert Front([top, low]) == [top] && Front([top]) == [];
    assert FullDn([top]) == top;
  }

  /** A blank topmost component displays as nothing: the node of `a, ` is shown as `a`. */
  lemma EmptyTopIsNotShown()
    ensures PathOf("a, ") == ["", "a"] && FullDn(["", "a"]) == "a" && !ReparsesTo(["", "a"])
  {
    hide PathOf, FullDn, ReparsesTo, Trim;
    assert "a" + "," + " " == "a, ";
    BlankPieces();
    TwoPieces("a", " ");
    ShownPair("", "a");
    var p := ["", "a"];
    assert IsComponent(p[0]) && IsComponent(p[1]);
    FullDnReparses(p);
  }

  lemma BlankPieces()
    ensures Trim("a") == "a" && Trim(" ") == ""
    ensures WellFormedPieces(["a", " "])
  {
  }

  /** A component cut inside an escape takes the next comma in: the node of `a\\ ,b` is shown as one component. */
  lemma CutEscapeIsMerged()
    ensures PathOf("a\\ ,b") == ["b", "a\\"] && FullDn(["b", "a\\"]) == "a\\,b" && !ReparsesTo(["b", "a\\"])
  {
    hide PathOf, FullDn, ReparsesTo, Trim, Closed;
    assert "a\\ " + "," + "b" == "a\\ ,b" && "a\\" + "," + "b" == "a\\,b";
    CutPieces();
    TwoPieces("a\\ ", "b");
    ShownPair("b", "a\\");
    var p := ["b", "a\\"];
    assert IsComponent(p[0]) && IsComponent(p[1]);
    FullDnReparses(p);
  }

  lemma CutPieces()
    ensures Trim("a\\ ") == "a\\" && Trim("b") == "b"
    ensures WellFormedPieces(["a\\ ", "b"])
    ensures !Closed("a\\")
  {
    var s := "a\\ ";
    assert s[..2] == "a\\";
    assert TrimEnd(s) == TrimEnd("a\\");
  }
}
