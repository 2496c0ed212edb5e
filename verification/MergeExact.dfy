/**
  When one call of `merge_env` (src/run-command.c) is right: exactly if, for every key that both lists have,
  the entries in front of it in the two sorted lists agree.
 */
module MergeExact {
  import opened MergeEnvs

  /** The entry in front of position `i` has a key that continues the one at `i` below the equals sign. */
  predicate LowBefore(s: seq<string>, i: nat) {
    0 < i < |s| && Continues(Key(s[i]), Key(s[i - 1]))
  }

  /** Neither list has such an entry in front of the common key, or both have the same key there. */
  predicate Agree(ps: seq<string>, cs: seq<string>, i: nat, j: nat)
    requires i < |ps| && j < |cs|
  {
    LowBefore(ps, i) || LowBefore(cs, j) ==> i > 0 && j > 0 && Key(ps[i - 1]) == Key(cs[j - 1])
  }

  ghost predicate Proper(s: seq<string>) {
    Sorted(s) && DistinctKeys(s)
  }

  /** The walk of the merge comes from positions `p` and `c` to positions `i` and `j`. */
  predicate Reaches(ps: seq<string>, cs: seq<string>, p: nat, c: nat, i: nat, j: nat)
    requires p <= |ps| && c <= |cs|
    decreases |ps| - p + |cs| - c
  {
    (p == i && c == j) ||
    (p < |ps| && c < |cs| &&
     if Less(Key(ps[p]), Key(cs[c])) then Reaches(ps, cs, p + 1, c, i, j)
     else if Key(ps[p]) == Key(cs[c]) then Reaches(ps, cs, p + 1, c + 1, i, j)
     else Reaches(ps, cs, p, c + 1, i, j))
  }

  // ---------- sorted lists ----------

  lemma InOrder(s: seq<string>, x: nat, i: nat)
    requires Proper(s) && x < i < |s|
    ensures Less(s[x], s[i])
  {
    LessTotal(s[x], s[i]);
  }

  /** An entry whose key is higher than that of a later one continues that key below the equals sign. */
  lemma HigherContinues(s: seq<string>, x: nat, i: nat)
    requires Proper(s) && x < i < |s| && !Less(Key(s[x]), Key(s[i]))
    ensures Continues(Key(s[i]), Key(s[x]))
  {
    InOrder(s, x, i);
    if !Continues(Key(s[i]), Key(s[x])) {
      OrderOfKeys(s[x], s[i]);
    }
  }

  /** What stands between two strings with a common prefix has that prefix. */
  lemma {:induction false} Convex(k: string, a: string, e: string, b: string)
    requires Less(a, e) && Less(e, b) && k <= a && k <= b
    ensures k <= e
  {
    if k != "" {
      assert a[0] == b[0] == k[0] && e[0] == k[0];
      Convex(k[1..], a[1..], e[1..], b[1..]);
      assert e == [e[0]] + e[1..] && k == [k[0]] + k[1..];
    }
  }

  lemma {:induction false} LessBehind(k: string, a: string, b: string)
    requires k <= a && k <= b
    ensures Less(a, b) == Less(a[|k|..], b[|k|..])
  {
    if k != "" {
      LessBehind(k[1..], a[1..], b[1..]);
      assert a[1..][|k| - 1..] == a[|k|..] && b[1..][|k| - 1..] == b[|k|..];
    } else {
      assert a[0..] == a && b[0..] == b;
    }
  }

  lemma {:induction false} KeyBehind(k: string, e: string)
    requires '=' !in k && k <= e
    ensures Key(e) == k + Key(e[|k|..])
  {
    if k != "" {
      KeyBehind(k[1..], e[1..]);
      assert e[1..][|k| - 1..] == e[|k|..];
    } else {
      assert e[0..] == e;
    }
  }

  /** An entry with another key that starts with `k` and comes before an entry for `k` continues `k` low. */
  lemma BeforeKey(k: string, e: string, b: string)
    requires k <= e && Less(e, b) && Key(b) == k && Key(e) != k
    ensures Continues(k, Key(e))
  {
    var e', b' := e[|k|..], b[|k|..];
    LessBehind(k, e, b);
    KeyBehind(k, e);
    KeyBehind(k, b);
    assert Key(b') == "" && b' != "" && b'[0] == '=';
    assert e' != "" && e'[0] != '=' by {
      assert k + "" == k;
    }
    assert Key(e)[|k|] == e'[0];
  }

  /** The entries that continue a key low stand right in front of it. */
  lemma LowBlock(s: seq<string>, x: nat, i: nat)
    requires Proper(s) && x < i < |s| && Continues(Key(s[i]), Key(s[x]))
    ensures LowBefore(s, i)
  {
    var k := Key(s[i]);
    if x < i - 1 {
      InOrder(s, x, i - 1);
      InOrder(s, i - 1, i);
      Convex(k, s[x], s[i - 1], s[i]);
      BeforeKey(k, s[i - 1], s[i]);
    }
  }

  /** If no entry continues the key low, all earlier keys are lower. */
  lemma LowerBefore(s: seq<string>, x: nat, i: nat)
    requires Proper(s) && x < i < |s| && !LowBefore(s, i)
    ensures Less(Key(s[x]), Key(s[i]))
  {
    if !Less(Key(s[x]), Key(s[i])) {
      HigherContinues(s, x, i);
      LowBlock(s, x, i);
    }
  }

  // ---------- the walk ----------

  lemma {:induction false} NeverBack(ps: seq<string>, cs: seq<string>, p: nat, c: nat, i: nat, j: nat)
    requires p <= |ps| && c <= |cs| && Reaches(ps, cs, p, c, i, j)
    ensures p <= i && c <= j
    decreases |ps| - p + |cs| - c
  {
    if !(p == i && c == j) {
      if Less(Key(ps[p]), Key(cs[c])) {
        NeverBack(ps, cs, p + 1, c, i, j);
      } else if Key(ps[p]) == Key(cs[c]) {
        NeverBack(ps, cs, p + 1, c + 1, i, j);
      } else {
        NeverBack(ps, cs, p, c + 1, i, j);
      }
    }
  }

  /** Past lower keys in both lists the walk comes to the common key. */
  lemma {:induction false} WalkUp(ps: seq<string>, cs: seq<string>, p: nat, c: nat, i: nat, j: nat)
    requires p <= i < |ps| && c <= j < |cs| && Key(ps[i]) == Key(cs[j])
    requires forall x | p <= x < i :: Less(Key(ps[x]), Key(ps[i]))
    requires forall y | c <= y < j :: Less(Key(cs[y]), Key(ps[i]))
    ensures Reaches(ps, cs, p, c, i, j)
    decreases |ps| - p + |cs| - c
  {
    if !(p == i && c == j) {
      LessTotal(Key(ps[p]), Key(cs[c]));
      if Less(Key(ps[p]), Key(cs[c])) {
        WalkUp(ps, cs, p + 1, c, i, j);
      } else if Key(ps[p]) == Key(cs[c]) {
        LessTotal(Key(ps[i]), Key(ps[i]));
        WalkUp(ps, cs, p + 1, c + 1, i, j);
      } else {
        WalkUp(ps, cs, p, c + 1, i, j);
      }
    }
  }

  /** From a common key the walk goes on behind it in both lists. */
  lemma {:induction false} BothOn(ps: seq<string>, cs: seq<string>, p: nat, c: nat, i: nat, j: nat)
    requires p <= i < |ps| && c <= j < |cs| && Key(ps[i]) == Key(cs[j]) && Reaches(ps, cs, p, c, i, j)
    ensures Reaches(ps, cs, p, c, i + 1, j + 1)
    decreases |ps| - p + |cs| - c
  {
    if p == i && c == j {
      LessTotal(Key(ps[i]), Key(cs[j]));
      assert Reaches(ps, cs, p + 1, c + 1, i + 1, j + 1);
    } else if Less(Key(ps[p]), Key(cs[c])) {
      NeverBack(ps, cs, p + 1, c, i, j);
      BothOn(ps, cs, p + 1, c, i, j);
    } else if Key(ps[p]) == Key(cs[c]) {
      NeverBack(ps, cs, p + 1, c + 1, i, j);
      BothOn(ps, cs, p + 1, c + 1, i, j);
    } else {
      NeverBack(ps, cs, p, c + 1, i, j);
      BothOn(ps, cs, p, c + 1, i, j);
    }
  }

  ghost predicate AllAgree(ps: seq<string>, cs: seq<string>) {
    forall i, j | 0 <= i < |ps| && 0 <= j < |cs| && Key(ps[i]) == Key(cs[j]) :: Agree(ps, cs, i, j)
  }

  /** Where all common keys agree, the walk comes to each of them in both lists at once. */
  lemma {:induction false} ReachIf(ps: seq<string>, cs: seq<string>, i: nat, j: nat)
    requires Proper(ps) && Proper(cs) && AllAgree(ps, cs)
    requires i < |ps| && j < |cs| && Key(ps[i]) == Key(cs[j])
    ensures Reaches(ps, cs, 0, 0, i, j)
    decreases i + j
  {
    assert Agree(ps, cs, i, j);
    if LowBefore(ps, i) || LowBefore(cs, j) {
      ReachIf(ps, cs, i - 1, j - 1);
      BothOn(ps, cs, 0, 0, i - 1, j - 1);
    } else {
      forall x | 0 <= x < i
        ensures Less(Key(ps[x]), Key(ps[i]))
      {
        LowerBefore(ps, x, i);
      }
      forall y | 0 <= y < j
        ensures Less(Key(cs[y]), Key(ps[i]))
      {
        LowerBefore(cs, y, j);
      }
      WalkUp(ps, cs, 0, 0, i, j);
    }
  }

  /** A key above the common one, in front of it in its list, stands in a block of low continuations. */
  lemma AboveIsLow(s: seq<string>, x: nat, i: nat, low: string)
    requires Proper(s) && x < i < |s|
    requires Continues(Key(s[i]), low) && (low == Key(s[x]) || Less(low, Key(s[x])))
    ensures LowBefore(s, i)
  {
    var k := Key(s[i]);
    LessPrefix(k, low);
    LessTotal(k, Key(s[x]));
    if Less(low, Key(s[x])) {
      LessTransitive(k, low, Key(s[x]));
    }
    HigherContinues(s, x, i);
    LowBlock(s, x, i);
  }

  lemma {:induction false} LessPrefix(j: string, k: string)
    requires j < k
    ensures Less(j, k)
  {
    if j != "" {
      assert j[1..] < k[1..];
      LessPrefix(j[1..], k[1..]);
    }
  }

  /** If the walk comes to a common key in both lists at once, the entries in front of it agree. */
  lemma {:induction false} ReachOnlyIf(ps: seq<string>, cs: seq<string>, p: nat, c: nat, i: nat, j: nat)
    requires Proper(ps) && Proper(cs) && i < |ps| && j < |cs| && Key(ps[i]) == Key(cs[j])
    requires p <= i && c <= j && Reaches(ps, cs, p, c, i, j)
    ensures (p < i && LowBefore(ps, i)) || (c < j && LowBefore(cs, j)) ==>
              p < i && c < j && Key(ps[i - 1]) == Key(cs[j - 1])
    decreases |ps| - p + |cs| - c
  {
    hide Less, Key;
    var k := Key(ps[i]);
    if !(p == i && c == j) {
      if Less(Key(ps[p]), Key(cs[c])) {
        NeverBack(ps, cs, p + 1, c, i, j);
        ReachOnlyIf(ps, cs, p + 1, c, i, j);
        if p + 1 == i && LowBefore(ps, i) {
          LastTaken(ps, cs, p, c, i, j);
        }
      } else if Key(ps[p]) == Key(cs[c]) {
        NeverBack(ps, cs, p + 1, c + 1, i, j);
        ReachOnlyIf(ps, cs, p + 1, c + 1, i, j);
        if p + 1 == i && c + 1 < j && LowBefore(ps, i) {
          AboveIsLow(cs, c, j, Key(ps[p]));
        }
        if c + 1 == j && p + 1 < i && LowBefore(cs, j) {
          AboveIsLow(ps, p, i, Key(cs[c]));
        }
      } else {
        NeverBack(ps, cs, p, c + 1, i, j);
        ReachOnlyIf(ps, cs, p, c + 1, i, j);
        if c + 1 == j && LowBefore(cs, j) {
          LessTotal(Key(ps[p]), Key(cs[c]));
          LessPrefix(k, Key(cs[c]));
          LessTotal(k, Key(cs[c]));
          if p < i {
            AboveIsLow(ps, p, i, Key(cs[c]));
          }
        }
      }
    }
  }

  lemma LastTaken(ps: seq<string>, cs: seq<string>, p: nat, c: nat, i: nat, j: nat)
    requires Proper(ps) && Proper(cs) && i < |ps| && c <= j < |cs| && Key(ps[i]) == Key(cs[j])
    requires p + 1 == i && LowBefore(ps, i) && Less(Key(ps[p]), Key(cs[c]))
    ensures c < j && LowBefore(cs, j)
  {
    var k := Key(ps[i]);
    LessPrefix(k, Key(ps[p]));
    LessTotal(k, Key(ps[p]));
    if c < j {
      AboveIsLow(cs, c, j, Key(ps[p]));
    }
  }

  // ---------- what is taken ----------

  ghost function Times(s: seq<string>, e: string): nat {
    multiset(s)[e]
  }

  lemma {:induction false} OnceFrom(s: seq<string>, p: nat, i: nat)
    requires DistinctKeys(s) && i < |s| && p <= |s|
    ensures Times(s[p..], s[i]) == if p <= i then 1 else 0
    decreases |s| - p
  {
    if p < |s| {
      assert s[p..] == [s[p]] + s[p + 1..];
      OnceFrom(s, p + 1, i);
    }
  }

  /** How often an entry is taken by the walk from positions `p` and `c` on. */
  ghost function Taken(ps: seq<string>, cs: seq<string>, p: nat, c: nat, e: string): nat
    requires p <= |ps| && c <= |cs|
  {
    var t := Take(ps[p..], cs[c..]);
    Times(t.front, e) + Times(t.back, e)
  }

  lemma TakenStep(ps: seq<string>, cs: seq<string>, p: nat, c: nat, e: string)
    requires p < |ps| && c < |cs|
    ensures Taken(ps, cs, p, c, e) ==
            if Less(Key(ps[p]), Key(cs[c])) then (if ps[p] == e then 1 else 0) + Taken(ps, cs, p + 1, c, e)
            else if Key(ps[p]) == Key(cs[c]) then Taken(ps, cs, p + 1, c + 1, e)
            else Taken(ps, cs, p, c + 1, e)
  {
    hide Less, Key;
    assert ps[p..][1..] == ps[p + 1..] && cs[c..][1..] == cs[c + 1..];
    var t := Take(ps[p + 1..], cs[c..]);
    assert Times([ps[p]] + t.front, e) == (if ps[p] == e then 1 else 0) + Times(t.front, e);
  }

  /** At most what is left of the parent list is taken, and all of it when the child list has come to its end. */
  lemma TakenBounds(ps: seq<string>, cs: seq<string>, p: nat, c: nat, e: string)
    requires p <= |ps| && c <= |cs|
    ensures Taken(ps, cs, p, c, e) <= Times(ps[p..], e)
    ensures c == |cs| ==> Taken(ps, cs, p, c, e) == Times(ps[p..], e)
  {
    TakeOnly(ps[p..], cs[c..], e);
  }

  /** A parent entry whose key the child has is taken exactly if the walk does not come to both at once. */
  lemma {:induction false} TakenIff(ps: seq<string>, cs: seq<string>, p: nat, c: nat, i: nat, j: nat)
    requires DistinctKeys(ps) && DistinctKeys(cs) && p <= i < |ps| && j < |cs| && c <= |cs|
    requires Key(ps[i]) == Key(cs[j])
    ensures Taken(ps, cs, p, c, ps[i]) == if Reaches(ps, cs, p, c, i, j) then 0 else 1
    decreases |ps| - p + |cs| - c
  {
    hide Taken, Less, Key, Times;
    OnceFrom(ps, p, i);
    OnceFrom(ps, p + 1, i);
    TakenBounds(ps, cs, p, c, ps[i]);
    if c < |cs| {
      TakenStep(ps, cs, p, c, ps[i]);
      LessTotal(Key(ps[p]), Key(cs[c]));
      if Less(Key(ps[p]), Key(cs[c])) {
        TakenBounds(ps, cs, p + 1, c, ps[i]);
        if p < i {
          TakenIff(ps, cs, p + 1, c, i, j);
        } else if Reaches(ps, cs, p + 1, c, i, j) {
          NeverBack(ps, cs, p + 1, c, i, j);
        }
      } else if Key(ps[p]) == Key(cs[c]) {
        TakenBounds(ps, cs, p + 1, c + 1, ps[i]);
        if p < i {
          TakenIff(ps, cs, p + 1, c + 1, i, j);
        }
      } else {
        TakenIff(ps, cs, p, c + 1, i, j);
      }
    }
  }

  /** Being right is a matter of how often each entry is taken. */
  lemma RightIsTaken(delta: seq<string>, parent: seq<string>)
    ensures var ps, cs := Sort(parent), Sort(delta);
            Right(delta, parent) <==>
            forall e: string :: Taken(ps, cs, 0, 0, e) == if Key(e) in Keys(cs) then 0 else Times(ps, e)
  {
    hide Sort, Take, Key, Keys;
    var ps, cs := Sort(parent), Sort(delta);
    SortSorts(parent);
    SortSorts(delta);
    KeysOfSorted(delta);
    assert ps[0..] == ps && cs[0..] == cs;
    MergedMultiset(ps, cs);
    var m, n := multiset(MergeEnv(delta, parent)), multiset(delta) + multiset(Unset(parent, delta));
    forall e: string
      ensures m[e] == n[e] <==> Taken(ps, cs, 0, 0, e) == if Key(e) in Keys(cs) then 0 else Times(ps, e)
    {
      UnsetCount(parent, delta, e);
    }
    if forall e: string :: Taken(ps, cs, 0, 0, e) == if Key(e) in Keys(cs) then 0 else Times(ps, e) {
      assert forall e: string :: m[e] == n[e];
    }
  }

  /** For lists with distinct keys, the merge is right exactly if all common keys agree in the sorted lists. */
  lemma MergeRightExactly(delta: seq<string>, parent: seq<string>)
    requires DistinctKeys(delta) && DistinctKeys(parent)
    ensures Right(delta, parent) <==> AllAgree(Sort(parent), Sort(delta))
  {
    hide Right, Taken, Agree, Key, Sort;
    var ps, cs := Sort(parent), Sort(delta);
    SortSorts(parent);
    SortSorts(delta);
    SortDistinct(parent);
    SortDistinct(delta);
    RightIsTaken(delta, parent);
    if Right(delta, parent) {
      forall i, j | 0 <= i < |ps| && 0 <= j < |cs| && Key(ps[i]) == Key(cs[j])
        ensures Agree(ps, cs, i, j)
      {
        assert cs[j] in cs;
        TakenIff(ps, cs, 0, 0, i, j);
        ReachAgrees(ps, cs, i, j);
      }
    }
    if AllAgree(ps, cs) {
      forall e: string
        ensures Taken(ps, cs, 0, 0, e) == if Key(e) in Keys(cs) then 0 else Times(ps, e)
      {
        AgreeCount(ps, cs, e);
      }
    }
  }

  lemma ReachAgrees(ps: seq<string>, cs: seq<string>, i: nat, j: nat)
    requires Proper(ps) && Proper(cs) && i < |ps| && j < |cs| && Key(ps[i]) == Key(cs[j])
    requires Reaches(ps, cs, 0, 0, i, j)
    ensures Agree(ps, cs, i, j)
  {
    ReachOnlyIf(ps, cs, 0, 0, i, j);
  }

  lemma AgreeCount(ps: seq<string>, cs: seq<string>, e: string)
    requires Proper(ps) && Proper(cs) && AllAgree(ps, cs)
    ensures Taken(ps, cs, 0, 0, e) == if Key(e) in Keys(cs) then 0 else Times(ps, e)
  {
    assert ps[0..] == ps && cs[0..] == cs;
    if Key(e) !in Keys(cs) {
      TakeKeeps(ps, cs, e);
    } else {
      TakenBounds(ps, cs, 0, 0, e);
      if e in ps {
        var i :| 0 <= i < |ps| && ps[i] == e;
        var d :| d in cs && Key(d) == Key(e);
        var j :| 0 <= j < |cs| && cs[j] == d;
        ReachIf(ps, cs, i, j);
        TakenIff(ps, cs, 0, 0, i, j);
      }
    }
  }
}
