/** Sequence helpers shared by the pairing model.

    A JavaScript `Set` iterates in insertion order and `delete` keeps the order
    of the other elements; a duplicate-free `seq` with `Keep` as deletion models
    exactly that, so "first candidate" keeps its meaning. */
module Sequences {

  /** No element occurs twice in `s`. */
  predicate Distinct<T(==)>(s: seq<T>)
  {
    forall i, j :: 0 <= i < j < |s| ==> s[i] != s[j]
  }

  /** The elements of `s` that do not occur in `gone`, in their original order. */
  function Keep<T(==,!new)>(s: seq<T>, gone: seq<T>): (r: seq<T>)
    ensures forall x :: x in r <==> x in s && x !in gone
    ensures |r| <= |s|
    ensures Distinct(s) ==> Distinct(r)
  {
    if |s| == 0 then []
    else
      var rest := Keep(s[1..], gone);
      assert Distinct(s) ==> s[0] !in s[1..];
      if s[0] in gone then rest else [s[0]] + rest
  }

  /** `Set.prototype.delete`: the same sequence without `x`. */
  function Remove<T(==,!new)>(s: seq<T>, x: T): (r: seq<T>)
    ensures forall y :: y in r <==> y in s && y != x
    ensures |r| <= |s|
    ensures Distinct(s) ==> Distinct(r)
    ensures Distinct(s) && x in s ==> multiset(s) == multiset(r) + multiset{x}
  {
    if Distinct(s) && x in s then KeepOneMultiset(s, x); Keep(s, [x]) else Keep(s, [x])
  }

  /** The iteration order of `new Set(s)`: every element once, at its first occurrence. */
  function Dedup<T(==,!new)>(s: seq<T>): (r: seq<T>)
    ensures Distinct(r)
    ensures forall x :: x in r <==> x in s
  {
    if |s| == 0 then []
    else
      var d := Dedup(s[..|s| - 1]);
      var x := s[|s| - 1];
      assert forall y :: y in s <==> y in s[..|s| - 1] || y == x;
      if x in d then d else d + [x]
  }

  /** Removing elements in two rounds is removing them in one. */
  lemma {:induction false} KeepKeep<T(!new)>(s: seq<T>, a: seq<T>, b: seq<T>)
    ensures Keep(Keep(s, a), b) == Keep(s, a + b)
    decreases |s|
  {
    if |s| > 0 {
      KeepKeep(s[1..], a, b);
      var k := Keep(s, a);
      if s[0] !in a {
        assert k == [s[0]] + Keep(s[1..], a);
        assert k[1..] == Keep(s[1..], a);
      }
    }
  }

  /** Deleting one element of a duplicate-free sequence takes exactly that element out of its multiset. */
  lemma {:induction false} KeepOneMultiset<T(!new)>(s: seq<T>, x: T)
    requires Distinct(s) && x in s
    ensures multiset(s) == multiset(Keep(s, [x])) + multiset{x}
    decreases |s|
  {
    assert s == [s[0]] + s[1..];
    if s[0] == x {
      assert x !in s[1..];
      KeepAbsent(s[1..], [x]);
    } else {
      KeepOneMultiset(s[1..], x);
    }
  }

  /** Deleting what is not there changes nothing. */
  lemma {:induction false} KeepAbsent<T(!new)>(s: seq<T>, gone: seq<T>)
    requires forall x :: x in s ==> x !in gone
    ensures Keep(s, gone) == s
    decreases |s|
  {
    if |s| > 0 {
      KeepAbsent(s[1..], gone);
    }
  }

  /** A duplicate-free sequence holds each of its elements exactly once. */
  lemma {:induction false} DistinctMultiset<T>(s: seq<T>, x: T)
    requires Distinct(s)
    ensures multiset(s)[x] == if x in s then 1 else 0
    decreases |s|
  {
    if |s| > 0 {
      assert s == [s[0]] + s[1..];
      assert s[0] !in s[1..];
      DistinctMultiset(s[1..], x);
    }
  }

  /** `new Set(s)` keeps a duplicate-free `s` as it is. */
  lemma {:induction false} DedupDistinct<T(!new)>(s: seq<T>)
    requires Distinct(s)
    ensures Dedup(s) == s
    decreases |s|
  {
    if |s| > 0 {
      var p := s[..|s| - 1];
      DedupDistinct(p);
      assert s[|s| - 1] !in p;
      assert p + [s[|s| - 1]] == s;
    }
  }

  /** A sequence that holds no element twice is duplicate-free. */
  lemma MultisetDistinct<T>(s: seq<T>)
    requires forall x :: multiset(s)[x] <= 1
    ensures Distinct(s)
  {
    forall i, j | 0 <= i < j < |s|
      ensures s[i] != s[j]
    {
      CountBoth(s, i, j);
    }
  }

  /** The elements at two positions are both counted by the multiset. */
  lemma CountBoth<T>(s: seq<T>, i: nat, j: nat)
    requires i < j < |s|
    ensures multiset(s)[s[i]] >= 1 + (if s[i] == s[j] then 1 else 0)
  {
    assert s == s[..i] + [s[i]] + s[i + 1..j] + [s[j]] + s[j + 1..];
  }

  /** Two duplicate-free sequences with the same elements have the same length. */
  lemma DistinctSameLength<T>(a: seq<T>, b: seq<T>)
    requires Distinct(a) && Distinct(b)
    requires forall x :: x in a <==> x in b
    ensures |a| == |b|
  {
    forall x
      ensures multiset(a)[x] == multiset(b)[x]
    {
      DistinctMultiset(a, x);
      DistinctMultiset(b, x);
    }
    assert multiset(a) == multiset(b);
    assert |multiset(a)| == |multiset(b)|;
  }

  /** The first element kept by `Keep` comes no later than any element it keeps. */
  lemma {:induction false} KeepHead<T(!new)>(s: seq<T>, gone: seq<T>)
    ensures forall c :: 0 <= c < |s| && s[c] !in gone ==> |Keep(s, gone)| > 0 && Keep(s, gone)[0] in s[..c + 1]
    decreases |s|
  {
    if |s| > 0 {
      KeepHead(s[1..], gone);
      forall c | 0 <= c < |s| && s[c] !in gone
        ensures |Keep(s, gone)| > 0 && Keep(s, gone)[0] in s[..c + 1]
      {
        if s[0] in gone {
          assert s[1..][c - 1] == s[c];
          assert s[1..][..c] == s[1..c + 1];
        }
      }
    }
  }

  /** `new Set(s)` orders its elements by first occurrence: whatever the set
      holds before `s[i]` occurs in `s` before position `i`. */
  lemma {:induction false} DedupOrder<T(!new)>(s: seq<T>, i: nat)
    requires i < |s|
    ensures forall a, b :: 0 <= a < b < |Dedup(s)| && Dedup(s)[b] == s[i] ==> Dedup(s)[a] in s[..i]
  {
    forall a, b | 0 <= a < b < |Dedup(s)| && Dedup(s)[b] == s[i]
      ensures Dedup(s)[a] in s[..i]
    {
      DedupBefore(s, i, a, b);
    }
  }

  lemma {:induction false} DedupBefore<T(!new)>(s: seq<T>, i: nat, a: nat, b: nat)
    requires i < |s| && a < b < |Dedup(s)| && Dedup(s)[b] == s[i]
    ensures Dedup(s)[a] in s[..i]
    decreases |s|
  {
    var p := s[..|s| - 1];
    var z := s[|s| - 1];
    var d := Dedup(p);
    if i < |s| - 1 {
      assert s[i] == p[i] && s[i] in d;
      assert b < |d| && Dedup(s)[a] == d[a] && d[b] == p[i];
      DedupBefore(p, i, a, b);
      assert p[..i] == s[..i];
    } else if z in d {
      var j :| 0 <= j < |p| && p[j] == z;
      DedupBefore(p, j, a, b);
      assert p[..j] == s[..j];
    } else {
      assert Dedup(s)[a] == d[a] && d[a] in p;
      assert s[..i] == p;
    }
  }
}
