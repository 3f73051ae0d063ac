/**
 * Delivering a growing history through messages that each carry only its most recent items and its
 * length, when messages may be lost, repeated or arrive late.
 */
module Delivery {
  import opened Sequences

  /** The last `w` items: a bounded deque's content, and `slice(-w)`. */
  function Recent<T>(s: seq<T>, w: nat): (r: seq<T>)
    ensures |r| == if |s| <= w then |s| else w
  {
    if |s| <= w then s else s[|s| - w..]
  }

  /** What a receiver that has counted `last` items takes from a message. */
  function Take<T>(recent: seq<T>, count: int, last: int): seq<T> {
    if count > last then Recent(recent, count - last) else []
  }

  /** `log` holds items of `h[..last]`, each position at most once, in the order of the history. */
  ghost predicate InOrderOnce<T>(h: seq<T>, last: int, log: seq<T>) {
    0 <= last <= |h| && exists at: seq<nat> :: Increasing(at, last) && log == Pick(h, at)
  }

  /** A message sent when the history was `h[..n]`. */
  ghost predicate IsSnapshot<T>(h: seq<T>, w: nat, recent: seq<T>, n: int) {
    0 <= n <= |h| && recent == Recent(h[..n], w)
  }

  lemma TakeFromSnapshot<T>(h: seq<T>, w: nat, recent: seq<T>, n: int, last: int)
    requires IsSnapshot(h, w, recent, n) && 0 <= last
    ensures Take(recent, n, last) ==
      if n <= last then [] else if n - last <= w then h[last..n] else h[n - w..n]
  {
  }

  lemma ExtendPick<T>(h: seq<T>, at: seq<nat>, from: nat, to: nat)
    requires from <= to <= |h| && Increasing(at, from)
    ensures var at' := at + seq(to - from, i requires 0 <= i < to - from => from + i);
      Increasing(at', to) && Pick(h, at') == Pick(h, at) + h[from..to]
  {
  }

  /** Taking a message keeps the log in order and free of repetitions. */
  lemma TakeKeepsOrder<T>(h: seq<T>, w: nat, recent: seq<T>, n: int, last: int, log: seq<T>)
    requires InOrderOnce(h, last, log) && IsSnapshot(h, w, recent, n)
    ensures InOrderOnce(h, if n > last then n else last, log + Take(recent, n, last))
  {
    TakeFromSnapshot(h, w, recent, n, last);
    if n > last {
      var from := if n - last <= w then last else n - w;
      var at :| Increasing(at, last) && log == Pick(h, at);
      ExtendPick(h, at, from, n);
    } else {
      assert log + [] == log;
    }
  }

  lemma GrowthKeepsOrder<T>(h: seq<T>, x: T, last: int, log: seq<T>)
    requires InOrderOnce(h, last, log)
    ensures InOrderOnce(h + [x], last, log)
  {
    var at :| Increasing(at, last) && log == Pick(h, at);
    assert Pick(h + [x], at) == log;
  }

  lemma NothingIsInOrder<T>(h: seq<T>)
    ensures InOrderOnce(h, 0, [])
  {
    assert Increasing([], 0) && Pick(h, []) == [];
  }

  /** The log is the whole history counted so far exactly when no taken message left a gap behind. */
  ghost predicate CompleteIff<T>(h: seq<T>, last: int, log: seq<T>, noGap: bool) {
    && 0 <= last <= |h|
    && (noGap ==> log == h[..last])
    && (!noGap ==> |log| < last)
  }

  lemma TakeKeepsComplete<T>(h: seq<T>, w: nat, recent: seq<T>, n: int, last: int, log: seq<T>, noGap: bool)
    requires CompleteIff(h, last, log, noGap) && IsSnapshot(h, w, recent, n)
    ensures CompleteIff(h, if n > last then n else last, log + Take(recent, n, last),
                        noGap && (n > last ==> n - last <= w))
  {
    TakeFromSnapshot(h, w, recent, n, last);
  }

  lemma CompleteMeansPrefix<T>(h: seq<T>, last: int, log: seq<T>, noGap: bool)
    requires CompleteIff(h, last, log, noGap)
    ensures log == h[..last] <==> noGap
  {
  }
}
