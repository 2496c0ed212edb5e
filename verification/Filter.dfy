/** Filtering sequences: what the in-place walks of src/gnupg/key-filter.c and src/builtin/channel-list.c leave. */
module Filters {

  /** The elements that satisfy a predicate, in order. */
  function Filter<T>(s: seq<T>, p: T -> bool): (r: seq<T>)
    ensures |r| <= |s|
    ensures forall x | x in r :: p(x)
  {
    if s == [] then [] else (if p(s[0]) then [s[0]] else []) + Filter(s[1..], p)
  }

  /** Filtering keeps each element that satisfies the predicate as often as it was there. */
  lemma {:induction false} FilterKeeps<T>(s: seq<T>, p: T -> bool, x: T)
    ensures multiset(Filter(s, p))[x] == if p(x) then multiset(s)[x] else 0
  {
    if s != [] {
      assert s == [s[0]] + s[1..];
      FilterKeeps(s[1..], p, x);
    }
  }

  /** Filtering in two stages is filtering by both predicates at once. */
  lemma {:induction false} FilterTwice<T>(s: seq<T>, p: T -> bool, q: T -> bool, both: T -> bool)
    requires forall x | x in s :: both(x) == (p(x) && q(x))
    ensures Filter(Filter(s, p), q) == Filter(s, both)
  {
    if s != [] {
      FilterTwice(s[1..], p, q, both);
      var r := Filter(s[1..], p);
      if p(s[0]) {
        assert ([s[0]] + r)[1..] == r;
      } else {
        assert [] + r == r;
      }
    }
  }

  lemma {:induction false} FilterSnoc<T>(s: seq<T>, x: T, p: T -> bool)
    ensures Filter(s + [x], p) == Filter(s, p) + (if p(x) then [x] else [])
  {
    if s == [] {
      assert s + [x] == [x] && [x][1..] == [];
    } else {
      var t, front, last := s + [x], if p(s[0]) then [s[0]] else [], if p(x) then [x] else [];
      assert t[0] == s[0] && t[1..] == s[1..] + [x];
      FilterSnoc(s[1..], x, p);
      Assoc(front, Filter(s[1..], p), last);
    }
  }

  lemma Assoc<T>(a: seq<T>, b: seq<T>, c: seq<T>)
    ensures a + b + c == a + (b + c)
  {
  }

  lemma {:induction false} FilterSame<T>(s: seq<T>, p: T -> bool, q: T -> bool)
    requires forall x | x in s :: p(x) == q(x)
    ensures Filter(s, p) == Filter(s, q)
  {
    if s != [] {
      FilterSame(s[1..], p, q);
    }
  }

  lemma {:induction false} FilterNone<T>(s: seq<T>, p: T -> bool)
    requires forall x | x in s :: !p(x)
    ensures Filter(s, p) == []
  {
    if s != [] {
      FilterNone(s[1..], p);
    }
  }

  /** Where the elements that satisfy a predicate are. */
  function Positions<T>(s: seq<T>, p: T -> bool): set<nat> {
    set i: nat | i < |s| && p(s[i])
  }

  /** As many elements are left as there are positions with the predicate. */
  lemma {:induction false} FilterCount<T>(s: seq<T>, p: T -> bool)
    ensures |Filter(s, p)| == |Positions(s, p)|
  {
    if s == [] {
      assert Positions(s, p) == {};
    } else {
      hide Filter, Positions;
      var front, x := s[..|s| - 1], s[|s| - 1];
      assert s == front + [x];
      FilterSnoc(front, x, p);
      FilterCount(front, p);
      PositionsSnoc(front, x, p);
    }
  }

  lemma PositionsSnoc<T>(s: seq<T>, x: T, p: T -> bool)
    ensures |Positions(s + [x], p)| == |Positions(s, p)| + if p(x) then 1 else 0
  {
    var all, before := Positions(s + [x], p), Positions(s, p);
    forall i: nat
      ensures i in all <==> i in before || (i == |s| && p(x))
    {
      assert i < |s| ==> (s + [x])[i] == s[i];
    }
    if p(x) {
      assert all == before + {|s|};
    } else {
      assert all == before;
    }
  }

  ghost predicate OneHas<T>(s: seq<T>, p: T -> bool) {
    exists i | 0 <= i < |s| :: p(s[i])
  }

  /** A predicate that holds for one element at most adds one at most. */
  lemma {:induction false} CountGrows<T>(s: seq<T>, p: T -> bool, q: T -> bool, either: T -> bool, only: T -> bool)
    requires forall x | x in s :: either(x) == (p(x) || q(x)) && only(x) == (q(x) && !p(x))
    requires forall i, j | 0 <= i < j < |s| :: !(q(s[i]) && q(s[j]))
    ensures |Filter(s, either)| == |Filter(s, p)| + if OneHas(s, only) then 1 else 0
  {
    if s != [] {
      var t := s[1..];
      assert s == [s[0]] + t;
      CountGrows(t, p, q, either, only);
      if OneHas(t, only) {
        var i :| 0 <= i < |t| && only(t[i]);
        assert t[i] in s && s[i + 1] == t[i] && only(s[i + 1]);
      }
      if OneHas(s, only) && !only(s[0]) {
        var i :| 0 <= i < |s| && only(s[i]);
        assert t[i - 1] == s[i];
      }
    }
  }

  lemma {:induction false} TwoAtLeast<T>(s: seq<T>, p: T -> bool, i: nat, j: nat)
    requires i < j < |s| && p(s[i]) && p(s[j])
    ensures |Filter(s, p)| >= 2
  {
    var t := s[1..];
    assert t[j - 1] == s[j];
    if i == 0 {
      OneAtLeast(t, p, j - 1);
    } else {
      assert t[i - 1] == s[i];
      TwoAtLeast(t, p, i - 1, j - 1);
    }
  }

  lemma {:induction false} OneAtLeast<T>(s: seq<T>, p: T -> bool, i: nat)
    requires i < |s| && p(s[i])
    ensures |Filter(s, p)| >= 1
  {
    if i > 0 {
      assert s[1..][i - 1] == s[i];
      OneAtLeast(s[1..], p, i - 1);
    }
  }

  // ---------- walking over a list while taking elements out of it ----------

  /** Of the first `k` elements those with `p` have been kept, and the others are still to be looked at. */
  ghost predicate Walked<T>(now: seq<T>, was: seq<T>, kept: seq<T>, k: nat, p: T -> bool) {
    k <= |was| && |kept| <= k && now == kept + was[k..] && kept == Filter(was[..k], p)
  }

  lemma WalkStart<T>(was: seq<T>, p: T -> bool)
    ensures Walked(was, was, [], 0, p)
  {
  }

  lemma WalkStep<T>(now: seq<T>, was: seq<T>, kept: seq<T>, k: nat, p: T -> bool)
    requires Walked(now, was, kept, k, p) && |kept| < |now|
    ensures k < |was| && now[|kept|] == was[k] && was[..k + 1] == was[..k] + [was[k]]
    ensures if p(was[k]) then Walked(now, was, kept + [was[k]], k + 1, p)
            else Walked(now[..|kept|] + now[|kept| + 1..], was, kept, k + 1, p)
  {
    hide Filter;
    assert was[..k + 1] == was[..k] + [was[k]];
    FilterSnoc(was[..k], was[k], p);
    assert now == kept + [was[k]] + was[k + 1..];
    assert now[..|kept|] == kept && now[|kept| + 1..] == was[k + 1..];
    assert Filter(was[..k], p) + [] == Filter(was[..k], p);
  }

  lemma WalkEnd<T>(now: seq<T>, was: seq<T>, kept: seq<T>, k: nat, p: T -> bool)
    requires Walked(now, was, kept, k, p) && |kept| >= |now|
    ensures now == kept == Filter(was, p) && was[..k] == was
  {
    assert was[..k] == was;
  }
}
