/** `createPairings`: the greedy single pass that pairs every member with the
    first remaining member they have never been paired with, falling back to
    the first other remaining member when no such member is left.

    The source shuffles its input with a random sort comparator before the
    pass; the model takes the shuffled order as the parameter `shuffled`, so
    every contract below holds for every order the shuffle can produce. */
module PairingEngine {
  import opened Sequences
  import opened Ids
  import opened PairingHistory

  datatype Pairings = Pairings(pairs: seq<Pair>, unpaired: seq<UserId>)

  /** The members of `pairs`, two per pair, in order. */
  function Members(pairs: seq<Pair>): (r: seq<UserId>)
    ensures |r| == 2 * |pairs|
  {
    if |pairs| == 0 then []
    else Members(pairs[..|pairs| - 1]) + [pairs[|pairs| - 1].0, pairs[|pairs| - 1].1]
  }

  /** The partner `p` is the one the scan picks for `u` when `remaining` holds
      the members not yet paired, in set iteration order: every member before
      `p` other than `u` is a past partner of `u`, and `p` is itself a past
      partner only when every remaining member other than `u` is one, in
      which case `p` is the first member other than `u`. */
  ghost predicate GreedyChoice(h: History, g: GuildId, u: UserId, p: UserId, remaining: seq<UserId>)
  {
    && u in remaining
    && p != u
    && exists i :: 0 <= i < |remaining| && remaining[i] == p
         && (forall j :: 0 <= j < i && remaining[j] != u ==> HasPairedBefore(h, g, u, remaining[j]))
         && (HasPairedBefore(h, g, u, p) ==>
               && (forall j :: 0 <= j < |remaining| && remaining[j] != u ==> HasPairedBefore(h, g, u, remaining[j]))
               && (forall j :: 0 <= j < i ==> remaining[j] == u))
  }

  /** The greedy choice is unique: the scan has exactly one answer for `u`. */
  lemma GreedyChoiceUnique(h: History, g: GuildId, u: UserId, p: UserId, q: UserId, remaining: seq<UserId>)
    requires GreedyChoice(h, g, u, p, remaining) && GreedyChoice(h, g, u, q, remaining)
    ensures p == q
  {
    var i :| 0 <= i < |remaining| && remaining[i] == p
      && (forall j :: 0 <= j < i && remaining[j] != u ==> HasPairedBefore(h, g, u, remaining[j]))
      && (HasPairedBefore(h, g, u, p) ==> forall j :: 0 <= j < i ==> remaining[j] == u);
    var k :| 0 <= k < |remaining| && remaining[k] == q
      && (forall j :: 0 <= j < k && remaining[j] != u ==> HasPairedBefore(h, g, u, remaining[j]))
      && (HasPairedBefore(h, g, u, q) ==> forall j :: 0 <= j < k ==> remaining[j] == u);
    assert i == k;
  }

  /** The members still unpaired after `pairs` were formed from `start`. */
  function RemainingAfter(start: seq<UserId>, pairs: seq<Pair>): seq<UserId>
  {
    Keep(start, Members(pairs))
  }

  /** The `k`-th pair of `pairs` was the greedy choice when it was formed. */
  ghost predicate ChoiceAt(h: History, g: GuildId, start: seq<UserId>, pairs: seq<Pair>, k: nat)
    requires k < |pairs|
  {
    GreedyChoice(h, g, pairs[k].0, pairs[k].1, RemainingAfter(start, pairs[..k]))
  }

  /** The `k`-th pair starts with the member whose turn formed it: the first
      member still unpaired, in set order, when the pair was formed. */
  ghost predicate VisitedFirst(start: seq<UserId>, pairs: seq<Pair>, k: nat)
    requires k < |pairs|
  {
    var rem := RemainingAfter(start, pairs[..k]);
    |rem| > 0 && pairs[k].0 == rem[0]
  }

  /** The bookkeeping of the pass after `pairs` were formed from the set
      order `start`: `remaining` is what is left, in order, and every pair was
      the greedy choice when it was formed. */
  ghost predicate PassState(h: History, g: GuildId, start: seq<UserId>, pairs: seq<Pair>, remaining: seq<UserId>)
  {
    && remaining == RemainingAfter(start, pairs)
    && Distinct(remaining)
    && multiset(Members(pairs)) + multiset(remaining) == multiset(start)
    && forall k :: 0 <= k < |pairs| ==> ChoiceAt(h, g, start, pairs, k)
  }

  method CreatePairings(h: History, g: GuildId, shuffled: seq<UserId>) returns (r: Pairings)
    // the output partitions the input: every id exactly once across pairs and unpaired
    ensures Distinct(Members(r.pairs) + r.unpaired)
    ensures forall x :: x in Members(r.pairs) + r.unpaired <==> x in shuffled
    ensures forall k :: 0 <= k < |r.pairs| ==> r.pairs[k].0 != r.pairs[k].1
    // nobody is left over but an odd one out
    ensures |r.unpaired| <= 1
    // each pair is the greedy choice at the moment it was formed
    ensures forall k :: 0 <= k < |r.pairs| ==> ChoiceAt(h, g, Dedup(shuffled), r.pairs, k)
    // and it starts with the first member still unpaired, in set order
    ensures forall k :: 0 <= k < |r.pairs| ==> VisitedFirst(Dedup(shuffled), r.pairs, k)
    ensures r.unpaired == RemainingAfter(Dedup(shuffled), r.pairs)
  {
    var start := Dedup(shuffled);
    var remaining := start;
    var pairs: seq<Pair> := [];
    KeepAbsent(start, []);
    var i := 0;
    while i < |shuffled|
      invariant 0 <= i <= |shuffled|
      invariant PassState(h, g, start, pairs, remaining)
      invariant forall k :: 0 <= k < |pairs| ==> VisitedFirst(start, pairs, k)
      invariant |remaining| >= 2 ==> forall j :: 0 <= j < i ==> shuffled[j] !in remaining
    {
      ghost var before := remaining;
      if shuffled[i] in remaining && |remaining| >= 2 {
        FirstUnvisited(shuffled, Members(pairs), i);
      }
      pairs, remaining := Visit(h, g, start, pairs, remaining, shuffled[i]);
      if |remaining| >= 2 {
        forall j | 0 <= j < i + 1
          ensures shuffled[j] !in remaining
        {
          if j < i {
            assert shuffled[j] !in before;
          }
        }
      }
      i := i + 1;
    }
    PassEnd(h, g, shuffled, pairs, remaining);
    r := Pairings(pairs, remaining);
  }

  /** What the finished pass promises, from the loop's invariants at its exit. */
  lemma PassEnd(h: History, g: GuildId, shuffled: seq<UserId>, pairs: seq<Pair>, remaining: seq<UserId>)
    requires forall x :: x in remaining ==> x in shuffled
    requires multiset(Members(pairs)) + multiset(remaining) == multiset(Dedup(shuffled))
    requires forall k :: 0 <= k < |pairs| ==> ChoiceAt(h, g, Dedup(shuffled), pairs, k)
    requires |remaining| >= 2 ==> forall j :: 0 <= j < |shuffled| ==> shuffled[j] !in remaining
    ensures Distinct(Members(pairs) + remaining)
    ensures forall x :: x in Members(pairs) + remaining <==> x in shuffled
    ensures forall k :: 0 <= k < |pairs| ==> pairs[k].0 != pairs[k].1
    ensures |remaining| <= 1
  {
    AtMostOneLeft(shuffled, remaining);
    PassPartition(shuffled, Dedup(shuffled), Members(pairs), remaining);
    ChoicesIrreflexive(h, g, Dedup(shuffled), pairs);
  }

  /** For distinct ids, a partition with at most one member left over has
      `n / 2` pairs and `n % 2` unpaired members: every pair is full. */
  lemma PairCounts(shuffled: seq<UserId>, r: Pairings)
    requires Distinct(shuffled)
    requires Distinct(Members(r.pairs) + r.unpaired)
    requires forall x :: x in Members(r.pairs) + r.unpaired <==> x in shuffled
    requires |r.unpaired| <= 1
    ensures |r.unpaired| == |shuffled| % 2 && |r.pairs| == |shuffled| / 2
  {
    DistinctSameLength(Members(r.pairs) + r.unpaired, shuffled);
    HalveWithRemainder(|shuffled|, |r.pairs|, |r.unpaired|);
  }

  /** A greedy choice never pairs a member with itself. */
  lemma ChoicesIrreflexive(h: History, g: GuildId, start: seq<UserId>, pairs: seq<Pair>)
    requires forall k :: 0 <= k < |pairs| ==> ChoiceAt(h, g, start, pairs, k)
    ensures forall k :: 0 <= k < |pairs| ==> pairs[k].0 != pairs[k].1
  {
    forall k | 0 <= k < |pairs|
      ensures pairs[k].0 != pairs[k].1
    {
      assert ChoiceAt(h, g, start, pairs, k);
    }
  }

  /** Once every member has had its turn, at most one can be left: a member
      whose turn found two or more remaining was paired. */
  lemma AtMostOneLeft(shuffled: seq<UserId>, remaining: seq<UserId>)
    requires forall x :: x in remaining ==> x in shuffled
    requires |remaining| >= 2 ==> forall j :: 0 <= j < |shuffled| ==> shuffled[j] !in remaining
    ensures |remaining| <= 1
  {
    if |remaining| > 0 {
      var x := remaining[0];
      assert x in shuffled;
    }
  }

  /** Paired and remaining members together hold each input id exactly once. */
  lemma PassPartition(shuffled: seq<UserId>, start: seq<UserId>, paired: seq<UserId>, remaining: seq<UserId>)
    requires start == Dedup(shuffled)
    requires multiset(paired) + multiset(remaining) == multiset(start)
    ensures Distinct(paired + remaining)
    ensures forall x :: x in paired + remaining <==> x in shuffled
  {
    var all := paired + remaining;
    assert multiset(all) == multiset(start);
    forall x
      ensures multiset(all)[x] <= 1
      ensures x in all <==> x in shuffled
    {
      DistinctMultiset(start, x);
    }
    MultisetDistinct(all);
  }

  /** `n == 2q + r` with `r` at most one: `q` and `r` are the quotient and remainder by two. */
  lemma HalveWithRemainder(n: nat, q: nat, r: nat)
    requires n == 2 * q + r && r <= 1
    ensures r == n % 2 && q == n / 2
  {
  }

  /** One turn of the outer loop, for the member `userId` of the shuffled order. */
  method Visit(h: History, g: GuildId, ghost start: seq<UserId>, pairs: seq<Pair>, remaining: seq<UserId>, userId: UserId)
    returns (pairs': seq<Pair>, remaining': seq<UserId>)
    requires PassState(h, g, start, pairs, remaining)
    requires forall k :: 0 <= k < |pairs| ==> VisitedFirst(start, pairs, k)
    requires userId in remaining && |remaining| >= 2 ==> remaining[0] == userId
    ensures PassState(h, g, start, pairs', remaining')
    ensures forall k :: 0 <= k < |pairs'| ==> VisitedFirst(start, pairs', k)
    ensures forall x :: x in remaining' ==> x in remaining
    ensures |remaining'| <= |remaining|
    ensures |remaining'| >= 2 ==> userId !in remaining'
  {
    pairs', remaining' := pairs, remaining;
    if userId in remaining {
      var found := FindFreshPartner(h, g, userId, remaining);
      if found < |remaining| {
        assert remaining[found] != userId && |remaining| >= 2;
        FreshIsGreedy(h, g, userId, remaining, found);
        pairs', remaining' := Push(h, g, start, pairs, remaining, userId, remaining[found]);
      } else if |remaining| >= 2 {
        // no fresh partner left: pair with the first other remaining member
        var others := Remove(remaining, userId);
        FallbackIsGreedy(h, g, userId, remaining);
        if |others| > 0 {
          pairs', remaining' := Push(h, g, start, pairs, remaining, userId, others[0]);
        }
      }
    }
  }

  /** `pairs.push([u, p]); remaining.delete(u); remaining.delete(p)` for the greedy choice `p`. */
  method Push(h: History, g: GuildId, ghost start: seq<UserId>, pairs: seq<Pair>, remaining: seq<UserId>, u: UserId, p: UserId)
    returns (pairs': seq<Pair>, remaining': seq<UserId>)
    requires PassState(h, g, start, pairs, remaining)
    requires GreedyChoice(h, g, u, p, remaining)
    requires forall k :: 0 <= k < |pairs| ==> VisitedFirst(start, pairs, k)
    requires |remaining| > 0 && remaining[0] == u
    ensures PassState(h, g, start, pairs', remaining')
    ensures forall k :: 0 <= k < |pairs'| ==> VisitedFirst(start, pairs', k)
    ensures pairs' == pairs + [(u, p)]
    ensures forall x :: x in remaining' <==> x in remaining && x != u && x != p
    ensures |remaining'| <= |remaining|
  {
    PushPreserves(h, g, start, pairs, remaining, u, p);
    PushVisitedFirst(start, pairs, u, p);
    pairs' := pairs + [(u, p)];
    remaining' := Remove(Remove(remaining, u), p);
  }

  /** The inner `for (const partnerId of remaining)` scan: the index of the
      first member other than `u` never paired with `u`, or `|remaining|`
      when every other member is a past partner. */
  method FindFreshPartner(h: History, g: GuildId, u: UserId, remaining: seq<UserId>) returns (found: nat)
    ensures found <= |remaining|
    ensures found < |remaining| ==> remaining[found] != u && !HasPairedBefore(h, g, u, remaining[found])
    ensures forall j :: 0 <= j < found && j < |remaining| && remaining[j] != u ==> HasPairedBefore(h, g, u, remaining[j])
  {
    found := 0;
    while found < |remaining|
      invariant found <= |remaining|
      invariant forall j :: 0 <= j < found && remaining[j] != u ==> HasPairedBefore(h, g, u, remaining[j])
    {
      if remaining[found] != u && !HasPairedBefore(h, g, u, remaining[found]) {
        return;
      }
      found := found + 1;
    }
  }

  /** The first remaining member, other than `u`, never paired with `u` is the greedy choice. */
  lemma FreshIsGreedy(h: History, g: GuildId, u: UserId, remaining: seq<UserId>, i: nat)
    requires u in remaining && i < |remaining|
    requires remaining[i] != u && !HasPairedBefore(h, g, u, remaining[i])
    requires forall j :: 0 <= j < i && remaining[j] != u ==> HasPairedBefore(h, g, u, remaining[j])
    ensures GreedyChoice(h, g, u, remaining[i], remaining)
  {
  }

  /** When every other remaining member is a past partner of `u`, the first
      member other than `u` exists and is the greedy choice. */
  lemma FallbackIsGreedy(h: History, g: GuildId, u: UserId, remaining: seq<UserId>)
    requires Distinct(remaining) && u in remaining && |remaining| >= 2
    requires forall j :: 0 <= j < |remaining| && remaining[j] != u ==> HasPairedBefore(h, g, u, remaining[j])
    ensures |Remove(remaining, u)| > 0
    ensures GreedyChoice(h, g, u, Remove(remaining, u)[0], remaining)
  {
    var others := Remove(remaining, u);
    if remaining[0] != u {
      assert others == [remaining[0]] + Keep(remaining[1..], [u]);
    } else {
      var rest := remaining[1..];
      assert rest[0] == remaining[1] != u;
      assert others == Keep(rest, [u]) == [rest[0]] + Keep(rest[1..], [u]);
      assert forall j :: 0 <= j < 1 ==> remaining[j] == u;
    }
  }

  /** `pairs.push([u, p]); remaining.delete(u); remaining.delete(p)` keeps the
      bookkeeping of the pass: the remaining members are still the start
      order minus the paired ones, and every pair is still a greedy choice. */
  lemma PushPreserves(h: History, g: GuildId, start: seq<UserId>, pairs: seq<Pair>, remaining: seq<UserId>, u: UserId, p: UserId)
    requires PassState(h, g, start, pairs, remaining)
    requires GreedyChoice(h, g, u, p, remaining)
    ensures PassState(h, g, start, pairs + [(u, p)], Remove(Remove(remaining, u), p))
    ensures forall x :: x in Remove(Remove(remaining, u), p) <==> x in remaining && x != u && x != p
  {
    assert u in remaining && p in remaining && u != p by {
      var i :| 0 <= i < |remaining| && remaining[i] == p;
    }
    PushMembers(pairs, u, p);
    PushRemaining(start, pairs, u, p);
    PushMultiset(start, pairs, remaining, u, p);
    PushChoices(h, g, start, pairs, u, p);
  }

  lemma PushMembers(pairs: seq<Pair>, u: UserId, p: UserId)
    ensures Members(pairs + [(u, p)]) == Members(pairs) + [u, p]
  {
    assert (pairs + [(u, p)])[..|pairs|] == pairs;
  }

  lemma PushRemaining(start: seq<UserId>, pairs: seq<Pair>, u: UserId, p: UserId)
    ensures Remove(Remove(RemainingAfter(start, pairs), u), p) == RemainingAfter(start, pairs + [(u, p)])
  {
    var m := Members(pairs);
    PushMembers(pairs, u, p);
    KeepKeep(start, m, [u]);
    KeepKeep(start, m + [u], [p]);
    assert m + [u] + [p] == m + [u, p];
  }

  lemma PushMultiset(start: seq<UserId>, pairs: seq<Pair>, remaining: seq<UserId>, u: UserId, p: UserId)
    requires Distinct(remaining) && u in remaining && p in remaining && u != p
    requires multiset(Members(pairs)) + multiset(remaining) == multiset(start)
    ensures multiset(Members(pairs + [(u, p)])) + multiset(Remove(Remove(remaining, u), p)) == multiset(start)
  {
    PushMembers(pairs, u, p);
    var r1 := Remove(remaining, u);
    var r2 := Remove(r1, p);
    assert p in r1;
    assert multiset(remaining) == multiset(r1) + multiset{u};
    assert multiset(r1) == multiset(r2) + multiset{p};
    assert multiset(Members(pairs) + [u, p]) == multiset(Members(pairs)) + multiset{u, p};
  }

  lemma PushChoices(h: History, g: GuildId, start: seq<UserId>, pairs: seq<Pair>, u: UserId, p: UserId)
    requires forall k :: 0 <= k < |pairs| ==> ChoiceAt(h, g, start, pairs, k)
    requires GreedyChoice(h, g, u, p, RemainingAfter(start, pairs))
    ensures forall k :: 0 <= k < |pairs| + 1 ==> ChoiceAt(h, g, start, pairs + [(u, p)], k)
  {
    var pairs' := pairs + [(u, p)];
    forall k | 0 <= k < |pairs'|
      ensures ChoiceAt(h, g, start, pairs', k)
    {
      if k < |pairs| {
        assert ChoiceAt(h, g, start, pairs, k);
        assert pairs'[..k] == pairs[..k];
        assert pairs'[k] == pairs[k];
      } else {
        assert pairs'[..k] == pairs;
      }
    }
  }

  lemma PushVisitedFirst(start: seq<UserId>, pairs: seq<Pair>, u: UserId, p: UserId)
    requires forall k :: 0 <= k < |pairs| ==> VisitedFirst(start, pairs, k)
    requires |RemainingAfter(start, pairs)| > 0 && RemainingAfter(start, pairs)[0] == u
    ensures forall k :: 0 <= k < |pairs| + 1 ==> VisitedFirst(start, pairs + [(u, p)], k)
  {
    var pairs' := pairs + [(u, p)];
    forall k | 0 <= k < |pairs'|
      ensures VisitedFirst(start, pairs', k)
    {
      if k < |pairs| {
        assert VisitedFirst(start, pairs, k);
        assert pairs'[..k] == pairs[..k];
      } else {
        assert pairs'[..k] == pairs;
      }
    }
  }

  /** When every member before position `i` of the shuffled order has left
      the set and `shuffled[i]` has not, `shuffled[i]` is the first member of
      the set: the outer loop visits members in set order. */
  lemma FirstUnvisited(shuffled: seq<UserId>, gone: seq<UserId>, i: nat)
    requires i < |shuffled|
    requires shuffled[i] in Keep(Dedup(shuffled), gone)
    requires forall j :: 0 <= j < i ==> shuffled[j] !in Keep(Dedup(shuffled), gone)
    ensures Keep(Dedup(shuffled), gone)[0] == shuffled[i]
  {
    var t := Dedup(shuffled);
    var rem := Keep(t, gone);
    var b :| 0 <= b < |t| && t[b] == shuffled[i];
    KeepHead(t, gone);
    var a :| 0 <= a <= b && t[a] == rem[0];
    DedupOrder(shuffled, i);
    assert rem[0] !in shuffled[..i];
    assert a == b;
  }

  /** What a finished pass promises about its output, for the set order `start`. */
  ghost predicate IsPass(h: History, g: GuildId, start: seq<UserId>, r: Pairings)
  {
    && |r.unpaired| <= 1
    && r.unpaired == RemainingAfter(start, r.pairs)
    && forall k :: 0 <= k < |r.pairs| ==> ChoiceAt(h, g, start, r.pairs, k) && VisitedFirst(start, r.pairs, k)
  }

  /** The contract of `CreatePairings` determines its result: for a given
      shuffled order, only one output meets it. */
  lemma PassDetermined(h: History, g: GuildId, start: seq<UserId>, r1: Pairings, r2: Pairings)
    requires IsPass(h, g, start, r1) && IsPass(h, g, start, r2)
    ensures r1 == r2
  {
    var n := if |r1.pairs| <= |r2.pairs| then |r1.pairs| else |r2.pairs|;
    SamePrefix(h, g, start, r1.pairs, r2.pairs, n);
    PairsLeaveTwo(h, g, start, r1.pairs);
    PairsLeaveTwo(h, g, start, r2.pairs);
    assert r1.pairs[..|r1.pairs|] == r1.pairs && r2.pairs[..|r2.pairs|] == r2.pairs;
    assert |r1.pairs| == |r2.pairs|;
  }

  /** Two passes from the same order agree on every pair both have formed. */
  lemma {:induction false} SamePrefix(h: History, g: GuildId, start: seq<UserId>, p1: seq<Pair>, p2: seq<Pair>, n: nat)
    requires n <= |p1| && n <= |p2|
    requires forall k :: 0 <= k < |p1| ==> ChoiceAt(h, g, start, p1, k) && VisitedFirst(start, p1, k)
    requires forall k :: 0 <= k < |p2| ==> ChoiceAt(h, g, start, p2, k) && VisitedFirst(start, p2, k)
    ensures p1[..n] == p2[..n]
    decreases n
  {
    if n > 0 {
      var k := n - 1;
      SamePrefix(h, g, start, p1, p2, k);
      assert ChoiceAt(h, g, start, p1, k) && VisitedFirst(start, p1, k);
      assert ChoiceAt(h, g, start, p2, k) && VisitedFirst(start, p2, k);
      GreedyChoiceUnique(h, g, p1[k].0, p1[k].1, p2[k].1, RemainingAfter(start, p1[..k]));
      assert p1[..n] == p1[..k] + [p1[k]];
      assert p2[..n] == p2[..k] + [p2[k]];
    }
  }

  /** Every pair was formed while at least two members were still unpaired. */
  lemma PairsLeaveTwo(h: History, g: GuildId, start: seq<UserId>, pairs: seq<Pair>)
    requires forall k :: 0 <= k < |pairs| ==> ChoiceAt(h, g, start, pairs, k)
    ensures forall k :: 0 <= k < |pairs| ==> |RemainingAfter(start, pairs[..k])| >= 2
  {
    forall k | 0 <= k < |pairs|
      ensures |RemainingAfter(start, pairs[..k])| >= 2
    {
      assert ChoiceAt(h, g, start, pairs, k);
      var rem := RemainingAfter(start, pairs[..k]);
      var i :| 0 <= i < |rem| && rem[i] == pairs[k].1;
      assert rem[i] != pairs[k].0 && pairs[k].0 in rem;
    }
  }
}
