/**
 * The giver -> recipient rule of a draw: the participant at position i of the
 * shuffled list gives a present to the participant at position (i + 1) mod n.
 * Everything here is generic in the identity type, so it is proved once for
 * every shuffled order a draw may produce.
 */
module Rotation {
  import opened Wrappers

  /** No value occurs twice in `s`. */
  predicate Distinct<T(==)>(s: seq<T>) {
    forall i, j :: 0 <= i < j < |s| ==> s[i] != s[j]
  }

  /** The (giver, recipient) pairs of a draw over the shuffled order `s`. */
  function Ring<T>(s: seq<T>): seq<(T, T)> {
    seq(|s|, i requires 0 <= i < |s| => (s[i], s[(i + 1) % |s|]))
  }

  function Givers<T>(pairs: seq<(T, T)>): seq<T> {
    seq(|pairs|, i requires 0 <= i < |pairs| => pairs[i].0)
  }

  function Recipients<T>(pairs: seq<(T, T)>): seq<T> {
    seq(|pairs|, i requires 0 <= i < |pairs| => pairs[i].1)
  }

  /**
   * The recipient of `giver`: the second component of the first pair whose
   * first component is `giver` (the lookup a participant uses to learn whom
   * they give to).
   */
  function Next<T(==)>(pairs: seq<(T, T)>, giver: T): (r: Option<T>)
    ensures r.Some? <==> giver in Givers(pairs)
  {
    if pairs == [] then None
    else if pairs[0].0 == giver then
      assert Givers(pairs)[0] == giver;
      Some(pairs[0].1)
    else
      assert Givers(pairs) == [pairs[0].0] + Givers(pairs[1..]);
      Next(pairs[1..], giver)
  }

  /** Where `k` steps of `Next` lead from `x`, or None once a step finds no pair. */
  function Follow<T(==)>(pairs: seq<(T, T)>, x: T, k: nat): Option<T> {
    if k == 0 then Some(x)
    else match Follow(pairs, x, k - 1)
      case None => None
      case Some(y) => Next(pairs, y)
  }

  /** Every pair hands the present to somebody else. */
  predicate NoSelfAssignment<T(==)>(pairs: seq<(T, T)>) {
    forall i :: 0 <= i < |pairs| ==> pairs[i].0 != pairs[i].1
  }

  /** Every member is giver exactly once and recipient exactly once, and nobody else is either. */
  predicate OneToOne<T(==)>(pairs: seq<(T, T)>, members: seq<T>) {
    multiset(Givers(pairs)) == multiset(members) && multiset(Recipients(pairs)) == multiset(members)
  }

  /**
   * Following recipients from any member returns to it after exactly |members|
   * steps and not before, and visits every member on the way: one cycle
   * through everybody.
   */
  ghost predicate SingleCycle<T>(pairs: seq<(T, T)>, members: seq<T>) {
    && (forall x :: x in members ==> Follow(pairs, x, |members|) == Some(x))
    && (forall x, k :: x in members && 0 < k < |members| ==> Follow(pairs, x, k) != Some(x))
    && (forall x, y :: x in members && y in members ==>
          exists k :: 0 <= k < |members| && Follow(pairs, x, k) == Some(y))
  }

  lemma SuccMod(j: nat, n: nat)
    requires j < n
    ensures (j + 1) % n == if j + 1 < n then j + 1 else 0
  {
  }

  lemma {:induction false} DistinctCountsAtMostOne<T>(s: seq<T>, x: T)
    requires Distinct(s)
    ensures multiset(s)[x] <= 1
  {
    if s != [] {
      assert s == [s[0]] + s[1..];
      assert Distinct(s[1..]);
      DistinctCountsAtMostOne(s[1..], x);
      if x == s[0] {
        assert x !in s[1..];
      }
    }
  }

  lemma TwiceCountsTwice<T>(s: seq<T>, i: nat, j: nat)
    requires i < j < |s| && s[i] == s[j]
    ensures multiset(s)[s[i]] >= 2
  {
    assert s == s[..i] + [s[i]] + s[i + 1..j] + [s[j]] + s[j + 1..];
  }

  /** A reordering of a list without repetitions has no repetitions either. */
  lemma DistinctByMultiset<T>(a: seq<T>, b: seq<T>)
    requires multiset(a) == multiset(b) && Distinct(b)
    ensures Distinct(a)
  {
    forall i, j | 0 <= i < j < |a|
      ensures a[i] != a[j]
    {
      if a[i] == a[j] {
        TwiceCountsTwice(a, i, j);
        DistinctCountsAtMostOne(b, a[i]);
      }
    }
  }

  lemma {:induction false} NextAt<T>(pairs: seq<(T, T)>, i: nat, x: T)
    requires i < |pairs| && pairs[i].0 == x
    requires forall j :: 0 <= j < i ==> pairs[j].0 != x
    ensures Next(pairs, x) == Some(pairs[i].1)
  {
    if i > 0 {
      NextAt(pairs[1..], i - 1, x);
    }
  }

  /** In the ring over a list without repetitions, position i gives to position (i + 1) mod n. */
  lemma RingNext<T>(s: seq<T>, i: nat)
    requires Distinct(s) && i < |s|
    ensures Next(Ring(s), s[i]) == Some(s[(i + 1) % |s|])
  {
    NextAt(Ring(s), i, s[i]);
  }

  /** k steps from position i of the ring, for k up to n, lead to position (i + k) mod n. */
  lemma {:induction false} FollowRing<T>(s: seq<T>, i: nat, k: nat)
    requires Distinct(s) && i < |s| && k <= |s|
    ensures Follow(Ring(s), s[i], k) == Some(s[if i + k < |s| then i + k else i + k - |s|])
  {
    if k > 0 {
      FollowRing(s, i, k - 1);
      var j := if i + k - 1 < |s| then i + k - 1 else i + k - 1 - |s|;
      assert Follow(Ring(s), s[i], k) == Next(Ring(s), s[j]);
      RingNext(s, j);
      SuccMod(j, |s|);
    }
  }

  /** The recipients of the ring are the order rotated left by one. */
  lemma RingRecipients<T>(order: seq<T>)
    requires |order| >= 1
    ensures Recipients(Ring(order)) == order[1..] + [order[0]]
  {
    var n := |order|;
    forall i | 0 <= i < n ensures Recipients(Ring(order))[i] == (order[1..] + [order[0]])[i] {
      SuccMod(i, n);
    }
  }

  /** Every position of the ring gives exactly once and receives exactly once. */
  lemma RingOneToOne<T>(order: seq<T>)
    requires |order| >= 1
    ensures OneToOne(Ring(order), order)
  {
    assert Givers(Ring(order)) == order;
    RingRecipients(order);
    assert order == [order[0]] + order[1..];
    assert multiset(order[1..] + [order[0]]) == multiset(order);
  }

  /** In the ring over n >= 2 distinct values nobody is their own recipient. */
  lemma RingNoSelfAssignment<T>(order: seq<T>)
    requires Distinct(order) && |order| >= 2
    ensures NoSelfAssignment(Ring(order))
  {
    var n := |order|;
    forall i | 0 <= i < n ensures Ring(order)[i].0 != Ring(order)[i].1 {
      SuccMod(i, n);
    }
  }

  /** From any position of the ring, n steps lead back to it and fewer steps do not. */
  lemma RingReturnsAfterN<T>(order: seq<T>, i: nat)
    requires Distinct(order) && i < |order|
    ensures Follow(Ring(order), order[i], |order|) == Some(order[i])
    ensures forall k :: 0 < k < |order| ==> Follow(Ring(order), order[i], k) != Some(order[i])
  {
    FollowRing(order, i, |order|);
    forall k | 0 < k < |order| ensures Follow(Ring(order), order[i], k) != Some(order[i]) {
      FollowRing(order, i, k);
    }
  }

  /** From position i of the ring, position j is reached in fewer than n steps. */
  lemma RingReaches<T>(order: seq<T>, i: nat, j: nat)
    requires Distinct(order) && i < |order| && j < |order|
    ensures exists k :: 0 <= k < |order| && Follow(Ring(order), order[i], k) == Some(order[j])
  {
    var k := if j >= i then j - i else j - i + |order|;
    FollowRing(order, i, k);
  }

  /** A member of a list is found at some position of any reordering of it. */
  lemma PositionOf<T>(order: seq<T>, members: seq<T>, x: T) returns (i: nat)
    requires multiset(order) == multiset(members) && x in members
    ensures i < |order| && order[i] == x
  {
    assert x in multiset(members);
    i :| 0 <= i < |order| && order[i] == x;
  }

  lemma RingCycleOverMembers<T>(order: seq<T>, members: seq<T>)
    requires Distinct(order) && multiset(order) == multiset(members) && |order| == |members|
    ensures SingleCycle(Ring(order), members)
  {
    forall x | x in members
      ensures Follow(Ring(order), x, |members|) == Some(x)
      ensures forall k :: 0 < k < |members| ==> Follow(Ring(order), x, k) != Some(x)
    {
      var i := PositionOf(order, members, x);
      RingReturnsAfterN(order, i);
    }
    forall x, y | x in members && y in members
      ensures exists k :: 0 <= k < |members| && Follow(Ring(order), x, k) == Some(y)
    {
      var i := PositionOf(order, members, x);
      var j := PositionOf(order, members, y);
      RingReaches(order, i, j);
    }
  }

  /**
   * The draw's rule over any shuffled order of distinct members with at least
   * two of them: the pairs are one-to-one, nobody draws themselves, and the
   * pairs form a single cycle of length n.
   */
  lemma RingOfPermutation<T>(order: seq<T>, members: seq<T>)
    requires Distinct(members) && multiset(order) == multiset(members) && |members| >= 2
    ensures |Ring(order)| == |members|
    ensures OneToOne(Ring(order), members)
    ensures NoSelfAssignment(Ring(order))
    ensures SingleCycle(Ring(order), members)
  {
    assert |order| == |multiset(order)| == |members|;
    DistinctByMultiset(order, members);
    RingOneToOne(order);
    RingNoSelfAssignment(order);
    RingCycleOverMembers(order, members);
  }
}
