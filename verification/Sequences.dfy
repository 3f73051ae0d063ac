/** Sequence helpers shared by the other modules. */
module Sequences {

  function Last<T>(s: seq<T>): T
    requires s != []
  {
    s[|s| - 1]
  }

  function Front<T>(s: seq<T>): seq<T>
    requires s != []
  {
    s[..|s| - 1]
  }

  function Reverse<T>(s: seq<T>): (r: seq<T>)
    ensures |r| == |s|
    ensures forall i :: 0 <= i < |s| ==> r[i] == s[|s| - 1 - i]
  {
    if s == [] then [] else [Last(s)] + Reverse(Front(s))
  }

  lemma ReverseInvolutive<T>(s: seq<T>)
    ensures Reverse(Reverse(s)) == s
  {
    var r := Reverse(s);
    assert forall i :: 0 <= i < |s| ==> Reverse(r)[i] == r[|s| - 1 - i] == s[i];
  }

  /** The items of `h` at the given positions. */
  function Pick<T>(h: seq<T>, at: seq<nat>): (r: seq<T>)
    requires forall i :: 0 <= i < |at| ==> at[i] < |h|
    ensures |r| == |at|
    ensures forall i :: 0 <= i < |at| ==> r[i] == h[at[i]]
  {
    seq(|at|, i requires 0 <= i < |at| => h[at[i]])
  }

  ghost predicate Increasing(at: seq<nat>, bound: int) {
    && (forall i, j :: 0 <= i < j < |at| ==> at[i] < at[j])
    && (forall i :: 0 <= i < |at| ==> at[i] < bound)
  }

  /** `at` lists, in order, exactly the positions of `s` at which `p` holds. */
  ghost predicate Selects<T>(s: seq<T>, at: seq<nat>, p: T -> bool) {
    Increasing(at, |s|) && forall i :: 0 <= i < |s| ==> (p(s[i]) <==> i in at)
  }

  /** `r` is `s` without the elements that fail `p`, in the same order. */
  ghost predicate IsFiltered<T>(s: seq<T>, p: T -> bool, r: seq<T>) {
    exists at: seq<nat> :: Selects(s, at, p) && r == Pick(s, at)
  }

  lemma NothingIsFiltered<T>(p: T -> bool)
    ensures IsFiltered([], p, [])
  {
    assert Selects([], [], p) && Pick<T>([], []) == [];
  }

  lemma SelectsNot<T>(s: seq<T>, x: T, p: T -> bool, at: seq<nat>)
    requires Selects(s, at, p) && !p(x)
    ensures Selects(s + [x], at, p)
  {
    assert |s| !in at;
    forall i | 0 <= i < |s| + 1
      ensures p((s + [x])[i]) <==> i in at
    {
      if i < |s| {
        assert (s + [x])[i] == s[i];
      }
    }
  }

  lemma SelectsAlso<T>(s: seq<T>, x: T, p: T -> bool, at: seq<nat>)
    requires Selects(s, at, p) && p(x)
    ensures Selects(s + [x], at + [|s|], p)
  {
    var more := at + [|s|];
    assert more[|at|] == |s|;
    forall i | 0 <= i < |s| + 1
      ensures p((s + [x])[i]) <==> i in more
    {
      if i < |s| {
        assert (s + [x])[i] == s[i];
        assert i in more <==> i in at;
      }
    }
  }

  lemma PickFromLonger<T>(s: seq<T>, x: T, at: seq<nat>)
    requires Increasing(at, |s|)
    ensures Pick(s + [x], at) == Pick(s, at) && Pick(s + [x], at + [|s|]) == Pick(s, at) + [x]
  {
  }

  lemma FilteredSnoc<T>(s: seq<T>, x: T, p: T -> bool, r: seq<T>)
    requires IsFiltered(s, p, r)
    ensures IsFiltered(s + [x], p, r + if p(x) then [x] else [])
  {
    var at: seq<nat> :| Selects(s, at, p) && r == Pick(s, at);
    hide Selects;
    PickFromLonger(s, x, at);
    if p(x) {
      SelectsAlso(s, x, p, at);
    } else {
      SelectsNot(s, x, p, at);
      assert r + [] == r;
    }
  }

  ghost predicate NoDup<T(!new)>(s: seq<T>) {
    forall i, j :: 0 <= i < j < |s| ==> s[i] != s[j]
  }

  lemma NoDupSnoc<T(!new)>(s: seq<T>, x: T)
    requires NoDup(s)
    ensures x !in s ==> NoDup(s + [x])
  {
  }

  lemma NoDupConcat<T(!new)>(a: seq<T>, b: seq<T>)
    requires NoDup(a) && NoDup(b)
    requires forall x :: x in a ==> x !in b
    ensures NoDup(a + b)
  {
    forall i, j | 0 <= i < j < |a + b|
      ensures (a + b)[i] != (a + b)[j]
    {
      if i < |a| && |a| <= j {
        assert a[i] in a && b[j - |a|] in b;
      }
    }
  }
}
