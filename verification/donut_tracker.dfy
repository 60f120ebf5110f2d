/** `DonutTracker`: the append-only log of donut completions per guild and
    the two queries over it. The JSON file that mirrors the log is not
    modelled. Where the source reads the clock, the operations take the
    current week key (see module WeekId) and the current timestamp as
    parameters. */
module DonutTracker {
  import opened Sequences
  import opened Ids

  /** One completion record; `timestamp` and `messageId` are opaque. */
  datatype Completion = Completion(userId1: UserId, userId2: UserId, timestamp: int, weekId: string, messageId: string)

  type Data = map<GuildId, seq<Completion>>

  /** The guild's completions, or none for an unknown guild. */
  function Log(d: Data, g: GuildId): seq<Completion>
  {
    if g in d then d[g] else []
  }

  // ---------------------------------------------------------------------------
  // The unordered pair of a completion: `[a, b].sort()`

  /** The default order of `Array.prototype.sort` on strings: lexicographic by character. */
  predicate StrLe(a: string, b: string)
  {
    |a| == 0 || (|b| > 0 && (a[0] < b[0] || (a[0] == b[0] && StrLe(a[1..], b[1..]))))
  }

  lemma {:induction false} StrLeTotal(a: string, b: string)
    ensures StrLe(a, b) || StrLe(b, a)
    decreases |a|
  {
    if |a| > 0 && |b| > 0 && a[0] == b[0] {
      StrLeTotal(a[1..], b[1..]);
    }
  }

  lemma {:induction false} StrLeAntisymmetric(a: string, b: string)
    requires StrLe(a, b) && StrLe(b, a)
    ensures a == b
    decreases |a|
  {
    if |a| > 0 {
      StrLeAntisymmetric(a[1..], b[1..]);
      assert a == [a[0]] + a[1..] && b == [b[0]] + b[1..];
    }
  }

  /** `[a, b].sort()`. */
  function SortPair(a: UserId, b: UserId): (r: (UserId, UserId))
    ensures r == (a, b) || r == (b, a)
    ensures StrLe(r.0, r.1)
  {
    if StrLe(a, b) then (a, b) else StrLeTotal(a, b); (b, a)
  }

  /** Two sorted pairs are equal exactly when the pairs are equal as unordered pairs. */
  lemma SortPairEqual(a: UserId, b: UserId, c: UserId, e: UserId)
    ensures SortPair(a, b) == SortPair(c, e) <==> (a == c && b == e) || (a == e && b == c)
  {
    StrLeTotal(a, b);
    StrLeTotal(c, e);
    if StrLe(a, b) && StrLe(b, a) { StrLeAntisymmetric(a, b); }
    if StrLe(c, e) && StrLe(e, c) { StrLeAntisymmetric(c, e); }
  }

  /** `c`'s sorted pair equals the sorted pair of `a` and `b`. */
  predicate SamePair(c: Completion, a: UserId, b: UserId)
  {
    SortPair(c.userId1, c.userId2) == SortPair(a, b)
  }

  // ---------------------------------------------------------------------------
  // Recording

  /** `hasCompletedThisWeek`: some completion of the guild is stamped with the
      current week and is between the same two users. */
  function HasCompletedThisWeek(d: Data, g: GuildId, u1: UserId, u2: UserId, currentWeek: string): (b: bool)
    ensures g !in d ==> !b
    ensures b <==> exists i :: 0 <= i < |Log(d, g)| && Log(d, g)[i].weekId == currentWeek && Between(Log(d, g)[i], u1, u2)
  {
    SamePairMeansUnordered(Log(d, g), u1, u2);
    g in d && exists i :: 0 <= i < |d[g]| && d[g][i].weekId == currentWeek && SamePair(d[g][i], u1, u2)
  }

  /** The completion `c` is between `a` and `b`, in either order. */
  predicate Between(c: Completion, a: UserId, b: UserId)
  {
    (c.userId1 == a && c.userId2 == b) || (c.userId1 == b && c.userId2 == a)
  }

  /** Comparing sorted pairs is comparing unordered pairs. */
  lemma SamePairMeansUnordered(cs: seq<Completion>, a: UserId, b: UserId)
    ensures forall i :: 0 <= i < |cs| ==> (SamePair(cs[i], a, b) <==> Between(cs[i], a, b))
  {
    forall i | 0 <= i < |cs|
      ensures SamePair(cs[i], a, b) <==> Between(cs[i], a, b)
    {
      SortPairEqual(cs[i].userId1, cs[i].userId2, a, b);
    }
  }

  /** `hasCompletedThisWeek` does not depend on the order of the two users. */
  lemma HasCompletedThisWeekSymmetric(d: Data, g: GuildId, a: UserId, b: UserId, currentWeek: string)
    ensures HasCompletedThisWeek(d, g, a, b, currentWeek) == HasCompletedThisWeek(d, g, b, a, currentWeek)
  {
  }

  datatype Recorded = Recorded(recorded: bool, data: Data)

  /** `recordCompletion`: refuses a second completion of the same unordered
      pair in the current week; otherwise appends one record stamped with the
      current week and time. */
  function RecordCompletion(d: Data, g: GuildId, u1: UserId, u2: UserId, messageId: string, now: int, currentWeek: string): (r: Recorded)
    ensures HasCompletedThisWeek(d, g, u1, u2, currentWeek) ==> !r.recorded && r.data == d
    ensures !HasCompletedThisWeek(d, g, u1, u2, currentWeek) ==> r.recorded
    ensures r.recorded ==>
      && g in r.data
      && |r.data[g]| == |Log(d, g)| + 1
      && r.data[g][..|Log(d, g)|] == Log(d, g)
      && r.data[g][|Log(d, g)|] == Completion(u1, u2, now, currentWeek, messageId)
    ensures forall g' :: g' != g ==> (g' in r.data <==> g' in d) && (g' in d ==> r.data[g'] == d[g'])
    ensures HasCompletedThisWeek(r.data, g, u1, u2, currentWeek)
  {
    if HasCompletedThisWeek(d, g, u1, u2, currentWeek) then Recorded(false, d)
    else
      var log := Log(d, g) + [Completion(u1, u2, now, currentWeek, messageId)];
      assert log[|log| - 1].weekId == currentWeek;
      Recorded(true, d[g := log])
  }

  /** No two completions of `cs` in the same week are between the same pair. */
  ghost predicate OncePerWeekLog(cs: seq<Completion>)
  {
    forall i, j :: 0 <= i < j < |cs| && cs[i].weekId == cs[j].weekId ==>
      !SamePair(cs[i], cs[j].userId1, cs[j].userId2)
  }

  /** The tracker's invariant: per guild and week, at most one completion per unordered pair. */
  ghost predicate OncePerWeek(d: Data)
  {
    forall g :: g in d ==> OncePerWeekLog(d[g])
  }

  lemma AppendOncePerWeek(cs: seq<Completion>, c: Completion)
    requires OncePerWeekLog(cs)
    requires forall i :: 0 <= i < |cs| && cs[i].weekId == c.weekId ==> !SamePair(cs[i], c.userId1, c.userId2)
    ensures OncePerWeekLog(cs + [c])
  {
    var log := cs + [c];
    forall i, j | 0 <= i < j < |log| && log[i].weekId == log[j].weekId
      ensures !SamePair(log[i], log[j].userId1, log[j].userId2)
    {
      assert log[i] == cs[i];
      if j < |cs| {
        assert log[j] == cs[j];
      }
    }
  }

  /** `recordCompletion` keeps at most one completion per pair and week. */
  lemma RecordCompletionOncePerWeek(d: Data, g: GuildId, u1: UserId, u2: UserId, messageId: string, now: int, currentWeek: string)
    requires OncePerWeek(d)
    ensures OncePerWeek(RecordCompletion(d, g, u1, u2, messageId, now, currentWeek).data)
  {
    var r := RecordCompletion(d, g, u1, u2, messageId, now, currentWeek);
    if r.recorded {
      var c := Completion(u1, u2, now, currentWeek, messageId);
      assert r.data[g] == Log(d, g) + [c];
      AppendOncePerWeek(Log(d, g), c);
    }
  }

  /** A pair recorded in one week can be recorded again in a week it has no completion in yet. */
  lemma RecordCompletionNextWeek(d: Data, g: GuildId, u1: UserId, u2: UserId, m1: string, m2: string, t1: int, t2: int, w1: string, w2: string)
    requires w1 != w2
    requires !HasCompletedThisWeek(d, g, u1, u2, w2)
    ensures var d1 := RecordCompletion(d, g, u1, u2, m1, t1, w1).data;
      RecordCompletion(d1, g, u1, u2, m2, t2, w2).recorded
  {
    var r := RecordCompletion(d, g, u1, u2, m1, t1, w1);
    if r.recorded {
      var log := r.data[g];
      forall i | 0 <= i < |log| && log[i].weekId == w2
        ensures !SamePair(log[i], u1, u2)
      {
        assert i < |Log(d, g)|;
        assert log[i] == Log(d, g)[i];
      }
    }
  }

  // ---------------------------------------------------------------------------
  // Leaderboard

  datatype Entry = Entry(userId: UserId, count: nat)

  /** How many participant slots of `cs` hold `u`: a self-pair record counts twice. */
  function Participations(cs: seq<Completion>, u: UserId): nat
  {
    if |cs| == 0 then 0
    else
      var c := cs[|cs| - 1];
      Participations(cs[..|cs| - 1], u) + (if c.userId1 == u then 1 else 0) + (if c.userId2 == u then 1 else 0)
  }

  /** No user has two entries. */
  predicate DistinctUsers(es: seq<Entry>)
  {
    forall i, j :: 0 <= i < j < |es| ==> es[i].userId != es[j].userId
  }

  /** The count `es` holds for `u`, or 0 when it has no entry. */
  function CountOf(es: seq<Entry>, u: UserId): nat
  {
    if |es| == 0 then 0 else if es[0].userId == u then es[0].count else CountOf(es[1..], u)
  }

  function Total(es: seq<Entry>): nat
  {
    if |es| == 0 then 0 else es[0].count + Total(es[1..])
  }

  /** `counts.set(u, (counts.get(u) || 0) + 1)` on a `Map`, which keeps the
      position of a known key and appends a new one. */
  function Bump(es: seq<Entry>, u: UserId): (r: seq<Entry>)
    ensures forall v :: CountOf(r, v) == CountOf(es, v) + (if v == u then 1 else 0)
    ensures Total(r) == Total(es) + 1
  {
    if |es| == 0 then [Entry(u, 1)]
    else if es[0].userId == u then [Entry(u, es[0].count + 1)] + es[1..]
    else
      var r := [es[0]] + Bump(es[1..], u);
      assert r[1..] == Bump(es[1..], u);
      r
  }

  /** `Bump` adds no user other than `u` and keeps every count positive. */
  lemma {:induction false} BumpEntries(es: seq<Entry>, u: UserId)
    ensures forall e :: e in Bump(es, u) ==> (e in es && e.userId != u) || e.userId == u
    ensures (forall e :: e in es ==> e.count >= 1) ==> forall e :: e in Bump(es, u) ==> e.count >= 1
  {
    if |es| > 0 && es[0].userId != u {
      BumpEntries(es[1..], u);
      assert Bump(es, u) == [es[0]] + Bump(es[1..], u);
    } else if |es| > 0 {
      assert Bump(es, u)[1..] == es[1..];
    }
  }

  /** `Bump` never gives a user a second entry. */
  lemma {:induction false} BumpDistinct(es: seq<Entry>, u: UserId)
    requires DistinctUsers(es)
    ensures DistinctUsers(Bump(es, u))
  {
    if |es| > 0 && es[0].userId != u {
      assert DistinctUsers(es[1..]);
      BumpDistinct(es[1..], u);
      BumpEntries(es[1..], u);
      var rest := Bump(es[1..], u);
      assert Bump(es, u) == [es[0]] + rest;
      forall e | e in rest
        ensures e.userId != es[0].userId
      {
        if e.userId != u {
          var j :| 0 <= j < |es[1..]| && es[1..][j] == e;
          assert es[j + 1] == e;
        }
      }
    } else if |es| > 0 {
      assert Bump(es, u)[1..] == es[1..];
      forall e | e in es[1..]
        ensures e.userId != u
      {
        var j :| 0 <= j < |es[1..]| && es[1..][j] == e;
        assert es[j + 1] == e;
      }
    }
  }

  /** The `counts` map after the loop over `cs`, in insertion order. */
  function Tally(cs: seq<Completion>): (r: seq<Entry>)
    ensures DistinctUsers(r)
    ensures forall u :: CountOf(r, u) == Participations(cs, u)
    ensures forall e :: e in r ==> e.count >= 1
    ensures Total(r) == 2 * |cs|
  {
    if |cs| == 0 then []
    else
      var c := cs[|cs| - 1];
      var t := Tally(cs[..|cs| - 1]);
      BumpEntries(t, c.userId1);
      BumpEntries(Bump(t, c.userId1), c.userId2);
      BumpDistinct(t, c.userId1);
      BumpDistinct(Bump(t, c.userId1), c.userId2);
      Bump(Bump(t, c.userId1), c.userId2)
  }

  /** In a list without repeated users, an entry's count is the user's count. */
  lemma {:induction false} CountOfEntries(es: seq<Entry>)
    requires DistinctUsers(es)
    ensures forall e :: e in es ==> CountOf(es, e.userId) == e.count
    ensures forall u :: CountOf(es, u) >= 1 ==> Entry(u, CountOf(es, u)) in es
  {
    if |es| > 0 {
      assert DistinctUsers(es[1..]);
      CountOfEntries(es[1..]);
      forall e | e in es[1..]
        ensures e.userId != es[0].userId
      {
        var j :| 0 <= j < |es[1..]| && es[1..][j] == e;
        assert es[j + 1] == e;
      }
    }
  }

  /** Entries sorted by count, largest first. */
  predicate SortedDesc(es: seq<Entry>)
  {
    forall i, j :: 0 <= i < j < |es| ==> es[i].count >= es[j].count
  }

  /** The entries of `es` with count `c`, in order. */
  function WithCount(es: seq<Entry>, c: nat): seq<Entry>
  {
    if |es| == 0 then []
    else (if es[0].count == c then [es[0]] else []) + WithCount(es[1..], c)
  }

  /** Inserts `e` into the sorted `s` after every entry whose count is not smaller. */
  function InsertDesc(s: seq<Entry>, e: Entry): (r: seq<Entry>)
    requires SortedDesc(s)
    ensures SortedDesc(r)
    ensures multiset(r) == multiset(s) + multiset{e}
  {
    if |s| == 0 then [e]
    else if s[0].count >= e.count then
      var rest := InsertDesc(s[1..], e);
      assert s == [s[0]] + s[1..];
      HeadStaysFirst(s, e, rest);
      [s[0]] + rest
    else
      [e] + s
  }

  /** The head of the sorted `s`, when not below `e`, still leads once `e` is inserted behind it. */
  lemma HeadStaysFirst(s: seq<Entry>, e: Entry, rest: seq<Entry>)
    requires SortedDesc(s) && |s| > 0 && s[0].count >= e.count
    requires SortedDesc(rest) && multiset(rest) == multiset(s[1..]) + multiset{e}
    ensures SortedDesc([s[0]] + rest)
  {
    forall j | 0 <= j < |rest|
      ensures s[0].count >= rest[j].count
    {
      assert rest[j] in multiset(rest);
      if rest[j] != e {
        assert rest[j] in s[1..];
      }
    }
  }

  /** Inserting adds the entry's count to the total. */
  lemma {:induction false} InsertDescTotal(s: seq<Entry>, e: Entry)
    requires SortedDesc(s)
    ensures Total(InsertDesc(s, e)) == Total(s) + e.count
  {
    if |s| > 0 && s[0].count >= e.count {
      InsertDescTotal(s[1..], e);
      assert InsertDesc(s, e)[1..] == InsertDesc(s[1..], e);
    }
  }

  /** Inserting puts the entry after every entry with the same count. */
  lemma {:induction false} InsertDescWithCount(s: seq<Entry>, e: Entry, c: nat)
    requires SortedDesc(s)
    ensures WithCount(InsertDesc(s, e), c) == WithCount(s, c) + (if e.count == c then [e] else [])
  {
    if |s| > 0 {
      var r := InsertDesc(s, e);
      if s[0].count >= e.count {
        var rest := InsertDesc(s[1..], e);
        InsertDescWithCount(s[1..], e, c);
        assert r == [s[0]] + rest;
        assert r[1..] == rest;
        assert WithCount(r, c) == (if s[0].count == c then [s[0]] else []) + WithCount(rest, c);
      } else {
        assert r == [e] + s;
        assert r[1..] == s;
        if e.count == c {
          NoneWithCount(s, c);
        }
      }
    }
  }

  /** A sorted list whose first count is below `c` has no entry with count `c`. */
  lemma {:induction false} NoneWithCount(s: seq<Entry>, c: nat)
    requires SortedDesc(s) && |s| > 0 && s[0].count < c
    ensures WithCount(s, c) == []
  {
    if |s| > 1 {
      NoneWithCount(s[1..], c);
    }
  }

  /** Stable insertion sort by count, largest first, as the source's
      `sort((a, b) => b.count - a.count)` on a stable `Array.prototype.sort`. */
  function SortDesc(es: seq<Entry>): (r: seq<Entry>)
    ensures SortedDesc(r)
    ensures multiset(r) == multiset(es)
    ensures Total(r) == Total(es)
    // stable: entries with equal counts keep their relative order
    ensures forall c :: WithCount(r, c) == WithCount(es, c)
  {
    if |es| == 0 then []
    else
      var init, last := es[..|es| - 1], es[|es| - 1];
      assert es == init + [last];
      TotalAppend(init, last);
      WithCountAppend(init, last);
      InsertDescTotal(SortDesc(init), last);
      forall c ensures WithCount(InsertDesc(SortDesc(init), last), c) == WithCount(es, c) {
        InsertDescWithCount(SortDesc(init), last, c);
      }
      InsertDesc(SortDesc(init), last)
  }

  lemma {:induction false} TotalAppend(es: seq<Entry>, e: Entry)
    ensures Total(es + [e]) == Total(es) + e.count
  {
    if |es| > 0 {
      assert (es + [e])[1..] == es[1..] + [e];
      TotalAppend(es[1..], e);
    }
  }

  lemma {:induction false} WithCountAppend(es: seq<Entry>, e: Entry)
    ensures forall c :: WithCount(es + [e], c) == WithCount(es, c) + (if e.count == c then [e] else [])
  {
    if |es| > 0 {
      assert (es + [e])[1..] == es[1..] + [e];
      WithCountAppend(es[1..], e);
    }
  }

  /** `getLeaderboard`: every participant with their number of completions,
      most first. A self-pair record counts twice for its user. */
  function GetLeaderboard(d: Data, g: GuildId): (r: seq<Entry>)
    ensures g !in d ==> r == []
    ensures SortedDesc(r)
    ensures DistinctUsers(r)
    ensures forall e :: e in r ==> e.count >= 1 && e.count == Participations(Log(d, g), e.userId)
    ensures forall u :: Participations(Log(d, g), u) >= 1 ==> Entry(u, Participations(Log(d, g), u)) in r
    ensures Total(r) == 2 * |Log(d, g)|
  {
    if g !in d then []
    else
      var t := Tally(d[g]);
      var r := SortDesc(t);
      CountOfEntries(t);
      SortKeepsDistinctUsers(t, r);
      assert forall e :: e in r ==> e in multiset(t);
      forall u | CountOf(t, u) >= 1
        ensures Entry(u, CountOf(t, u)) in r
      {
        assert Entry(u, CountOf(t, u)) in multiset(r);
      }
      r
  }

  /** A permutation of entries, each of which is its user's only entry, keeps users distinct. */
  lemma SortKeepsDistinctUsers(t: seq<Entry>, r: seq<Entry>)
    requires DistinctUsers(t)
    requires multiset(r) == multiset(t)
    requires forall e :: e in t ==> CountOf(t, e.userId) == e.count
    ensures DistinctUsers(r)
  {
    forall i, j | 0 <= i < j < |r|
      ensures r[i].userId != r[j].userId
    {
      if r[i].userId == r[j].userId {
        assert r[i] in multiset(t) && r[j] in multiset(t);
        assert r[i] == r[j];
        CountBoth(r, i, j);
        DistinctEntriesOnce(t, r[i]);
        assert false;
      }
    }
  }

  lemma {:induction false} DistinctEntriesOnce(t: seq<Entry>, e: Entry)
    requires DistinctUsers(t)
    ensures multiset(t)[e] <= 1
  {
    if |t| > 0 {
      assert t == [t[0]] + t[1..];
      assert DistinctUsers(t[1..]);
      DistinctEntriesOnce(t[1..], e);
      if t[0] == e {
        assert e !in t[1..];
      }
    }
  }

  // ---------------------------------------------------------------------------
  // Per-user statistics

  datatype Stats = Stats(total: nat, thisWeek: nat)

  /** The number of completions of `cs` that name `u` at least once. */
  function Involving(cs: seq<Completion>, u: UserId): nat
  {
    if |cs| == 0 then 0
    else
      var c := cs[|cs| - 1];
      Involving(cs[..|cs| - 1], u) + (if c.userId1 == u || c.userId2 == u then 1 else 0)
  }

  /** The number of completions of `cs` in week `w` that name `u` at least once. */
  function InvolvingInWeek(cs: seq<Completion>, u: UserId, w: string): nat
  {
    if |cs| == 0 then 0
    else
      var c := cs[|cs| - 1];
      InvolvingInWeek(cs[..|cs| - 1], u, w) + (if (c.userId1 == u || c.userId2 == u) && c.weekId == w then 1 else 0)
  }

  /** `getUserStats`: the user's completions in all weeks and in the current week. */
  method GetUserStats(d: Data, g: GuildId, u: UserId, currentWeek: string) returns (s: Stats)
    ensures g !in d ==> s == Stats(0, 0)
    ensures s.total == Involving(Log(d, g), u)
    ensures s.thisWeek == InvolvingInWeek(Log(d, g), u, currentWeek)
    ensures s.thisWeek <= s.total
  {
    if g !in d {
      return Stats(0, 0);
    }
    var cs := d[g];
    var total, thisWeek := 0, 0;
    for i := 0 to |cs|
      invariant total == Involving(cs[..i], u)
      invariant thisWeek == InvolvingInWeek(cs[..i], u, currentWeek)
      invariant thisWeek <= total
    {
      assert cs[..i + 1][..i] == cs[..i];
      var c := cs[i];
      if c.userId1 == u || c.userId2 == u {
        total := total + 1;
        if c.weekId == currentWeek {
          thisWeek := thisWeek + 1;
        }
      }
    }
    assert cs[..|cs|] == cs;
    s := Stats(total, thisWeek);
  }

  /** The number of self-pair records of `u` in `cs`. */
  function SelfPairs(cs: seq<Completion>, u: UserId): nat
  {
    if |cs| == 0 then 0
    else
      var c := cs[|cs| - 1];
      SelfPairs(cs[..|cs| - 1], u) + (if c.userId1 == u && c.userId2 == u then 1 else 0)
  }

  /** The leaderboard count is the stats total plus the user's self-pair
      records, so the two agree when the user never completed with themselves. */
  lemma {:induction false} ParticipationsVersusInvolving(cs: seq<Completion>, u: UserId)
    ensures Participations(cs, u) == Involving(cs, u) + SelfPairs(cs, u)
  {
    if |cs| > 0 {
      ParticipationsVersusInvolving(cs[..|cs| - 1], u);
    }
  }

  /** For a user with no self-pair record, the leaderboard count equals
      `getUserStats(...).total`, and a user with a completion is listed. */
  lemma LeaderboardMatchesStats(d: Data, g: GuildId, u: UserId)
    requires SelfPairs(Log(d, g), u) == 0
    ensures forall e :: e in GetLeaderboard(d, g) && e.userId == u ==> e.count == Involving(Log(d, g), u)
    ensures Involving(Log(d, g), u) >= 1 ==> Entry(u, Involving(Log(d, g), u)) in GetLeaderboard(d, g)
  {
    ParticipationsVersusInvolving(Log(d, g), u);
  }

  /** A single self-pair record counts 2 in the leaderboard but 1 in the stats. */
  lemma SelfPairCountsTwice(u: UserId, t: int, w: string, m: string)
    ensures var cs := [Completion(u, u, t, w, m)];
      Participations(cs, u) == 2 && Involving(cs, u) == 1
  {
    var cs := [Completion(u, u, t, w, m)];
    assert cs[..0] == [];
  }
}
