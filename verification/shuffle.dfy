/**
 * The Fisher-Yates shuffle that both scripts use (the same function appears in each).
 * The random source is replaced by the sequence of values it returned: `draws[i]` is
 * the value of `random.randint(0, i)` when the loop is at index `i`.
 */
module Shuffle {

  /** The values a call of randint(0, i) can return, for every loop index of a deck of n. */
  predicate ValidDraws(draws: seq<nat>, n: nat)
  {
    |draws| == n && forall i :: 0 <= i < n ==> draws[i] <= i
  }

  /** The list after `deck[i], deck[j] = deck[j], deck[i]`. */
  function Swap<T>(s: seq<T>, i: nat, j: nat): (r: seq<T>)
    requires i < |s| && j < |s|
    ensures |r| == |s| && r[i] == s[j] && r[j] == s[i]
    ensures forall k :: 0 <= k < |s| && k != i && k != j ==> r[k] == s[k]
    ensures multiset(r) == multiset(s)
  {
    s[i := s[j]][j := s[i]]
  }

  /** The deck after the loop has run for indices m - 1 down to 1. */
  function ShuffleDown<T>(s: seq<T>, draws: seq<nat>, m: nat): (r: seq<T>)
    requires m <= |s| && ValidDraws(draws, |s|)
    ensures |r| == |s|
    decreases m
  {
    if m <= 1 then s else ShuffleDown(Swap(s, m - 1, draws[m - 1]), draws, m - 1)
  }

  /** The deck after the whole loop, indices |s| - 1 down to 1. */
  function Shuffled<T>(s: seq<T>, draws: seq<nat>): (r: seq<T>)
    requires ValidDraws(draws, |s|)
    ensures |r| == |s|
  {
    ShuffleDown(s, draws, |s|)
  }

  lemma {:induction false} ShuffleDownPermutes<T>(s: seq<T>, draws: seq<nat>, m: nat)
    requires m <= |s| && ValidDraws(draws, |s|)
    ensures |ShuffleDown(s, draws, m)| == |s|
    ensures multiset(ShuffleDown(s, draws, m)) == multiset(s)
    ensures forall k :: m <= k < |s| ==> ShuffleDown(s, draws, m)[k] == s[k]
    decreases m
  {
    if m > 1 {
      ShuffleDownPermutes(Swap(s, m - 1, draws[m - 1]), draws, m - 1);
    }
  }

  /** Only the order changes: same length, same multiset of cards. */
  lemma ShuffledIsPermutation<T>(s: seq<T>, draws: seq<nat>)
    requires ValidDraws(draws, |s|)
    ensures |Shuffled(s, draws)| == |s|
    ensures multiset(Shuffled(s, draws)) == multiset(s)
    ensures forall x :: x in Shuffled(s, draws) <==> x in s
  {
    ShuffleDownPermutes(s, draws, |s|);
    var t := Shuffled(s, draws);
    forall x ensures x in t <==> x in s {
      assert x in t <==> x in multiset(t);
      assert x in s <==> x in multiset(s);
    }
  }

  /** Bringing the card meant for position m - 1 there, from inside the unshuffled prefix. */
  lemma PlaceLast<T>(s: seq<T>, t: seq<T>, m: nat, j: nat)
    requires |t| == |s| && 1 < m <= |s| && j < m && s[j] == t[m - 1]
    requires s[m..] == t[m..] && multiset(s[..m]) == multiset(t[..m])
    ensures Swap(s, m - 1, j)[m - 1..] == t[m - 1..]
    ensures multiset(Swap(s, m - 1, j)[..m - 1]) == multiset(t[..m - 1])
  {
    var s1 := Swap(s, m - 1, j);
    assert s1[m - 1..] == [t[m - 1]] + s1[m..];
    assert t[m - 1..] == [t[m - 1]] + t[m..];
    PrefixAfterSwap(s, t, m, j);
  }

  lemma PrefixAfterSwap<T>(s: seq<T>, t: seq<T>, m: nat, j: nat)
    requires |t| == |s| && 1 < m <= |s| && j < m && s[j] == t[m - 1]
    requires multiset(s[..m]) == multiset(t[..m])
    ensures multiset(Swap(s, m - 1, j)[..m - 1]) == multiset(t[..m - 1])
  {
    var s1, x := Swap(s, m - 1, j), t[m - 1];
    assert s1[..m] == Swap(s[..m], m - 1, j);
    assert s1[..m] == s1[..m - 1] + [x];
    assert t[..m] == t[..m - 1] + [x];
    calc {
      multiset(s1[..m - 1]);
      multiset(s1[..m]) - multiset{x};
      multiset(t[..m]) - multiset{x};
      multiset(t[..m - 1]);
    }
  }

  /** With at most one card left to place, the deck is already the target. */
  lemma AlreadyInPlace<T>(s: seq<T>, t: seq<T>, m: nat)
    requires |t| == |s| && m <= 1 && m <= |s|
    requires s[m..] == t[m..] && multiset(s[..m]) == multiset(t[..m])
    ensures s == t
  {
    if m == 1 {
      assert s[0] in multiset(t[..1]);
      assert s[..1] == t[..1];
    }
    assert s == s[..m] + s[m..];
    assert t == t[..m] + t[m..];
  }

  /**
   * Every reordering of the deck is produced by some sequence of draws. Stated for the
   * loop from index m - 1 down, with the part of the deck from m on already in place;
   * the draws at indices m and above are kept.
   */
  lemma {:induction false} ReachableFrom<T>(s: seq<T>, t: seq<T>, m: nat, d: seq<nat>) returns (d': seq<nat>)
    requires ValidDraws(d, |s|) && |t| == |s| && m <= |s|
    requires s[m..] == t[m..] && multiset(s[..m]) == multiset(t[..m])
    ensures ValidDraws(d', |s|) && ShuffleDown(s, d', m) == t
    ensures forall k :: m <= k < |s| ==> d'[k] == d[k]
    decreases m
  {
    if m <= 1 {
      d' := d;
      AlreadyInPlace(s, t, m);
    } else {
      assert t[m - 1] in multiset(t[..m]);
      assert t[m - 1] in s[..m];
      var j :| 0 <= j < m && s[j] == t[m - 1];
      PlaceLast(s, t, m, j);
      d' := ReachableFrom(Swap(s, m - 1, j), t, m - 1, d[m - 1 := j]);
    }
  }

  /** The shuffle can produce every permutation of the deck. */
  lemma EveryPermutationReachable<T>(s: seq<T>, t: seq<T>)
    requires multiset(s) == multiset(t)
    ensures exists draws :: ValidDraws(draws, |s|) && Shuffled(s, draws) == t
  {
    assert |s| == |multiset(s)| == |t|;
    var zeros := seq(|s|, i => 0);
    assert s[|s|..] == t[|s|..] && s[..|s|] == s && t[..|t|] == t;
    var draws := ReachableFrom(s, t, |s|, zeros);
  }

  ghost predicate Distinct<T>(s: seq<T>)
  {
    forall a, b :: 0 <= a < b < |s| ==> s[a] != s[b]
  }

  lemma SwapDistinct<T>(s: seq<T>, i: nat, j: nat)
    requires i < |s| && j < |s| && Distinct(s)
    ensures Distinct(Swap(s, i, j))
  {
    var r := Swap(s, i, j);
    forall a, b | 0 <= a < b < |r| ensures r[a] != r[b] {
      var a' := if a == i then j else if a == j then i else a;
      var b' := if b == i then j else if b == j then i else b;
      assert r[a] == s[a'] && r[b] == s[b'] && a' != b';
    }
  }

  lemma DistinctAt<T>(s: seq<T>, a: nat, b: nat)
    requires Distinct(s) && a < |s| && b < |s| && s[a] == s[b]
    ensures a == b
  {
  }

  /**
   * Position m - 1 ends up holding the card that the draw at m - 1 selected, and the
   * rest of the loop works on the deck after that one swap.
   */
  lemma LastDrawDetermined<T>(s: seq<T>, d: seq<nat>, m: nat)
    requires ValidDraws(d, |s|) && 1 < m <= |s|
    ensures ShuffleDown(s, d, m)[m - 1] == s[d[m - 1]]
    ensures ShuffleDown(s, d, m) == ShuffleDown(Swap(s, m - 1, d[m - 1]), d, m - 1)
  {
    ShuffleDownPermutes(Swap(s, m - 1, d[m - 1]), d, m - 1);
  }

  /**
   * On a deck of distinct cards, different draws give different orders: together with
   * `ReachableFrom`, the draw sequences (n! of them) and the orderings correspond one to one.
   */
  lemma {:induction false} DrawsDetermined<T>(s: seq<T>, d1: seq<nat>, d2: seq<nat>, m: nat)
    requires ValidDraws(d1, |s|) && ValidDraws(d2, |s|) && m <= |s| && Distinct(s)
    requires ShuffleDown(s, d1, m) == ShuffleDown(s, d2, m)
    ensures forall k :: 0 <= k < m ==> d1[k] == d2[k]
    decreases m
  {
    if m == 1 {
      assert d1[0] == 0 == d2[0];
    } else if m > 1 {
      var j := d1[m - 1];
      LastDrawDetermined(s, d1, m);
      LastDrawDetermined(s, d2, m);
      DistinctAt(s, j, d2[m - 1]);
      SwapDistinct(s, m - 1, j);
      DrawsDetermined(Swap(s, m - 1, j), d1, d2, m - 1);
      assert forall k :: 0 <= k < m - 1 ==> d1[k] == d2[k];
      assert d1[m - 1] == d2[m - 1];
    }
  }

  /** A deck of zero or one cards is left as it is: the loop body never runs. */
  lemma ShortDeckUnchanged<T>(s: seq<T>, draws: seq<nat>)
    requires ValidDraws(draws, |s|) && |s| <= 1
    ensures Shuffled(s, draws) == s
  {
  }

  /** In-place shuffle of `deck`, swapping index i with draws[i] for i = n-1 down to 1. */
  method FisherYatesShuffle<T>(deck: array<T>, draws: seq<nat>)
    requires ValidDraws(draws, deck.Length)
    modifies deck
    ensures deck[..] == Shuffled(old(deck[..]), draws)
  {
    var i := deck.Length - 1;
    while i > 0
      invariant -1 <= i < deck.Length
      invariant deck.Length > 0 ==> 0 <= i
      invariant ShuffleDown(deck[..], draws, i + 1) == Shuffled(old(deck[..]), draws)
      decreases i
    {
      var j := draws[i];
      deck[i], deck[j] := deck[j], deck[i];
      i := i - 1;
    }
  }
}
