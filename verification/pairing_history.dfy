/** The all-time pairing history of `PairingManager`: per guild, each user's
    list of the users they have ever been paired with. The JSON file that
    mirrors it is not modelled; the store is an immutable value and every
    update returns the new store. */
module PairingHistory {
  import opened Sequences
  import opened Ids

  /** A user's list of past partners, in the order they were first recorded. */
  type GuildHistory = map<UserId, seq<UserId>>
  type History = map<GuildId, GuildHistory>

  type Pair = (UserId, UserId)

  /** `hasPairedBefore`: `u2` is in `u1`'s list in guild `g`. */
  function HasPairedBefore(h: History, g: GuildId, u1: UserId, u2: UserId): (b: bool)
    ensures g !in h ==> !b
    ensures g in h && u1 !in h[g] ==> !b
    ensures g in h && u1 in h[g] ==> (b <==> u2 in h[g][u1])
  {
    g in h && u1 in h[g] && u2 in h[g][u1]
  }

  /** `list.includes(x) || list.push(x)`. */
  function AddIfAbsent(list: seq<UserId>, x: UserId): (r: seq<UserId>)
    ensures forall y :: y in r <==> y in list || y == x
    ensures Distinct(list) ==> Distinct(r)
    ensures x in list ==> r == list
  {
    if x in list then list else list + [x]
  }

  /** Every user's list is free of duplicates. */
  ghost predicate NoDuplicates(h: History)
  {
    forall g, u :: g in h && u in h[g] ==> Distinct(h[g][u])
  }

  /** `b` is in `a`'s list exactly when `a` is in `b`'s list. */
  ghost predicate Symmetric(h: History)
  {
    forall g, a, b :: HasPairedBefore(h, g, a, b) <==> HasPairedBefore(h, g, b, a)
  }

  /** `recordPairing`: creates the guild and both users' lists when missing,
      then adds each user to the other's list unless already there. When
      `u1 == u2` both steps touch the same list, as they do in the source. */
  function RecordPairing(h: History, g: GuildId, u1: UserId, u2: UserId): (r: History)
    ensures forall g', a, b :: HasPairedBefore(r, g', a, b) <==>
      HasPairedBefore(h, g', a, b) || (g' == g && ((a == u1 && b == u2) || (a == u2 && b == u1)))
    ensures forall g' :: g' != g ==> (g' in r <==> g' in h) && (g' in h ==> r[g'] == h[g'])
    ensures g in r && forall u :: u in r[g] <==> (g in h && u in h[g]) || u == u1 || u == u2
    ensures forall u :: u in r[g] && u != u1 && u != u2 ==> r[g][u] == h[g][u]
    ensures NoDuplicates(h) ==> NoDuplicates(r)
  {
    var gh := if g in h then h[g] else map[];
    // creating u2's list before or after u1 gains u2 ends in the same map
    h[g := AddPartner(AddPartner(gh, u1, u2), u2, u1)]
  }

  /** Creates `a`'s list when missing and adds `b` to it unless already there. */
  function AddPartner(gh: GuildHistory, a: UserId, b: UserId): (r: GuildHistory)
    ensures forall u :: u in r <==> u in gh || u == a
    ensures forall u :: u in r && u != a ==> r[u] == gh[u]
    ensures forall x :: x in r[a] <==> (a in gh && x in gh[a]) || x == b
    ensures (forall u :: u in gh ==> Distinct(gh[u])) ==> forall u :: u in r ==> Distinct(r[u])
  {
    gh[a := AddIfAbsent(if a in gh then gh[a] else [], b)]
  }

  /** `savePairings`: `recordPairing` for each pair, in order. */
  function SavePairings(h: History, g: GuildId, pairs: seq<Pair>): (r: History)
    ensures forall g', a, b :: HasPairedBefore(r, g', a, b) <==>
      HasPairedBefore(h, g', a, b) || (g' == g && Listed(pairs, a, b))
    ensures forall g' :: g' != g ==> (g' in r <==> g' in h) && (g' in h ==> r[g'] == h[g'])
    ensures NoDuplicates(h) ==> NoDuplicates(r)
    decreases |pairs|
  {
    if |pairs| == 0 then h
    else
      ListedFirstOrRest(pairs);
      SavePairings(RecordPairing(h, g, pairs[0].0, pairs[0].1), g, pairs[1..])
  }

  /** A pair is listed when it is the first pair or is listed among the rest. */
  lemma ListedFirstOrRest(pairs: seq<Pair>)
    requires |pairs| > 0
    ensures forall a, b :: Listed(pairs, a, b) <==>
      ((pairs[0].0 == a && pairs[0].1 == b) || (pairs[0].0 == b && pairs[0].1 == a)) || Listed(pairs[1..], a, b)
  {
    forall a, b | Listed(pairs[1..], a, b)
      ensures Listed(pairs, a, b)
    {
      var k :| 0 <= k < |pairs[1..]| && ((pairs[1..][k].0 == a && pairs[1..][k].1 == b) || (pairs[1..][k].0 == b && pairs[1..][k].1 == a));
      assert pairs[k + 1] == pairs[1..][k];
    }
  }

  /** `{a, b}` is one of `pairs`, in either order. */
  predicate Listed(pairs: seq<Pair>, a: UserId, b: UserId)
  {
    exists k :: 0 <= k < |pairs| && ((pairs[k].0 == a && pairs[k].1 == b) || (pairs[k].0 == b && pairs[k].1 == a))
  }

  /** After `recordPairing(g, a, b)` both directions are known. */
  lemma RecordPairingBothWays(h: History, g: GuildId, a: UserId, b: UserId)
    ensures HasPairedBefore(RecordPairing(h, g, a, b), g, a, b)
    ensures HasPairedBefore(RecordPairing(h, g, a, b), g, b, a)
  {
  }

  /** Recording a pair that is already known in both directions changes nothing. */
  lemma RecordPairingNoOp(h: History, g: GuildId, a: UserId, b: UserId)
    requires HasPairedBefore(h, g, a, b) && HasPairedBefore(h, g, b, a)
    ensures RecordPairing(h, g, a, b) == h
  {
    var r := RecordPairing(h, g, a, b);
    assert r[g] == h[g];
  }

  /** `recordPairing` is idempotent. */
  lemma RecordPairingIdempotent(h: History, g: GuildId, a: UserId, b: UserId)
    ensures RecordPairing(RecordPairing(h, g, a, b), g, a, b) == RecordPairing(h, g, a, b)
  {
    RecordPairingNoOp(RecordPairing(h, g, a, b), g, a, b);
  }

  /** `recordPairing` keeps the history symmetric. */
  lemma RecordPairingSymmetric(h: History, g: GuildId, a: UserId, b: UserId)
    requires Symmetric(h)
    ensures Symmetric(RecordPairing(h, g, a, b))
  {
  }

  /** The order of the two users does not matter to `recordPairing`. */
  lemma RecordPairingCommutes(h: History, g: GuildId, a: UserId, b: UserId)
    ensures RecordPairing(h, g, a, b) == RecordPairing(h, g, b, a)
  {
    var r1 := RecordPairing(h, g, a, b);
    var r2 := RecordPairing(h, g, b, a);
    assert r1[g] == r2[g];
  }

  /** After `savePairings(g, pairs)` every pair is recorded in both directions,
      and the history stays symmetric. */
  lemma SavePairingsRecordsAll(h: History, g: GuildId, pairs: seq<Pair>)
    requires Symmetric(h)
    ensures forall k :: 0 <= k < |pairs| ==>
      HasPairedBefore(SavePairings(h, g, pairs), g, pairs[k].0, pairs[k].1) &&
      HasPairedBefore(SavePairings(h, g, pairs), g, pairs[k].1, pairs[k].0)
    ensures Symmetric(SavePairings(h, g, pairs))
  {
    var r := SavePairings(h, g, pairs);
    forall k | 0 <= k < |pairs|
      ensures HasPairedBefore(r, g, pairs[k].0, pairs[k].1) && HasPairedBefore(r, g, pairs[k].1, pairs[k].0)
    {
      assert Listed(pairs, pairs[k].0, pairs[k].1);
      assert Listed(pairs, pairs[k].1, pairs[k].0);
    }
  }
}
