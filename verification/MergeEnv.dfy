/**
  Merging the environment of a child process (`merge_env` in src/run-command.c). Both lists are sorted as
  whole `KEY=VALUE` strings, but walked by comparing keys, and parent entries go in at the front of the
  list that is being walked.
 */
module MergeEnvs {
  import opened StrArrays

  // ---------- string order ----------

  /** The order of `strcmp`. */
  predicate Less(a: string, b: string) {
    b != "" && (a == "" || a[0] < b[0] || (a[0] == b[0] && Less(a[1..], b[1..])))
  }

  lemma {:induction false} LessTotal(a: string, b: string)
    ensures a == b || Less(a, b) || Less(b, a)
    ensures !(Less(a, b) && Less(b, a))
    ensures !Less(a, a)
  {
    if a != "" {
      if b != "" {
        LessTotal(a[1..], b[1..]);
        assert a == [a[0]] + a[1..] && b == [b[0]] + b[1..];
      }
      LessTotal(a[1..], a[1..]);
    }
  }

  lemma {:induction false} LessTransitive(a: string, b: string, c: string)
    requires Less(a, b) && Less(b, c)
    ensures Less(a, c)
  {
    if a != "" && a[0] == b[0] == c[0] {
      LessTransitive(a[1..], b[1..], c[1..]);
    }
  }

  /** `env_variable_key` */
  function Key(entry: string): (k: string)
    ensures '=' !in k && k <= entry && (|k| < |entry| ==> entry[|k|] == '=')
  {
    if entry == "" || entry[0] == '=' then "" else [entry[0]] + Key(entry[1..])
  }

  function Keys(entries: seq<string>): set<string> {
    set e | e in entries :: Key(e)
  }

  // ---------- sorting ----------

  ghost predicate Sorted(s: seq<string>) {
    forall i, j | 0 <= i < j < |s| :: !Less(s[j], s[i])
  }

  function SortInto(x: string, s: seq<string>): seq<string> {
    if s == [] || !Less(s[0], x) then [x] + s else [s[0]] + SortInto(x, s[1..])
  }

  /** `qsort` by `strcmp`; entries that compare equal are equal, so the result is determined. */
  function Sort(s: seq<string>): seq<string> {
    if s == [] then [] else SortInto(s[0], Sort(s[1..]))
  }

  lemma {:induction false} SortIntoSorts(x: string, s: seq<string>)
    requires Sorted(s)
    ensures Sorted(SortInto(x, s)) && multiset(SortInto(x, s)) == multiset([x]) + multiset(s)
  {
    hide Less;
    if s == [] || !Less(s[0], x) {
      forall i | 0 <= i < |s|
        ensures !Less(s[i], x)
      {
        if i > 0 && Less(s[i], x) {
          LessTotal(s[0], s[i]);
          LessTotal(s[0], x);
          if Less(s[0], s[i]) {
            LessTransitive(s[0], s[i], x);
          }
        }
      }
    } else {
      var r := SortInto(x, s[1..]);
      SortIntoSorts(x, s[1..]);
      assert s == [s[0]] + s[1..];
      LessTotal(s[0], x);
      forall i | 0 <= i < |r|
        ensures !Less(r[i], s[0])
      {
        assert r[i] in multiset(r);
        assert r[i] == x || r[i] in s[1..];
      }
    }
  }

  lemma {:induction false} SortSorts(s: seq<string>)
    ensures Sorted(Sort(s)) && multiset(Sort(s)) == multiset(s)
  {
    if s != [] {
      SortSorts(s[1..]);
      SortIntoSorts(s[0], Sort(s[1..]));
      assert s == [s[0]] + s[1..];
    }
  }

  // ---------- the merge ----------

  /** Parent entries taken over while both lists last, and those left when the child's list ends. */
  datatype Taken = Taken(front: seq<string>, back: seq<string>)

  function Take(ps: seq<string>, cs: seq<string>): Taken
    decreases |ps| + |cs|
  {
    if ps == [] then Taken([], [])
    else if cs == [] then Taken([], ps)
    else if Less(Key(ps[0]), Key(cs[0])) then
      var t := Take(ps[1..], cs);
      Taken([ps[0]] + t.front, t.back)
    else if Key(cs[0]) == Key(ps[0]) then Take(ps[1..], cs[1..])
    else Take(ps, cs[1..])
  }

  /** The merged list: the front in reverse, as each entry goes in before all others. */
  function Merged(ps: seq<string>, cs: seq<string>): seq<string> {
    var t := Take(ps, cs);
    Reversed(t.front) + cs + t.back
  }

  function MergeEnv(delta: seq<string>, parent: seq<string>): seq<string> {
    Merged(Sort(parent), Sort(delta))
  }

  /** The parent entries that have to be there in the end: those whose key the child does not set. */
  function Unset(parent: seq<string>, delta: seq<string>): seq<string> {
    if parent == [] then []
    else (if Key(parent[0]) in Keys(delta) then [] else [parent[0]]) + Unset(parent[1..], delta)
  }

  // ---------- what always holds ----------

  lemma ReversedMultiset(s: seq<string>)
    ensures multiset(Reversed(s)) == multiset(s)
  {
    if s == [] {
      assert Reversed(s) == s;
    } else {
      ReversedMultiset(s[1..]);
      assert Reversed(s) == Reversed(s[1..]) + [s[0]];
      assert s == [s[0]] + s[1..];
    }
  }

  lemma MergedMultiset(ps: seq<string>, cs: seq<string>)
    ensures multiset(Merged(ps, cs)) == multiset(cs) + multiset(Take(ps, cs).front) + multiset(Take(ps, cs).back)
  {
    ReversedMultiset(Take(ps, cs).front);
  }

  /** A parent entry goes missing only if the child has its key. */
  lemma {:induction false} TakeKeeps(ps: seq<string>, cs: seq<string>, e: string)
    requires Key(e) !in Keys(cs)
    ensures multiset(Take(ps, cs).front)[e] + multiset(Take(ps, cs).back)[e] == multiset(ps)[e]
    decreases |ps| + |cs|
  {
    if ps != [] && cs != [] {
      assert ps == [ps[0]] + ps[1..];
      assert cs[0] in cs && forall c | c in cs[1..] :: c in cs;
      assert Keys(cs[1..]) <= Keys(cs);
      if Less(Key(ps[0]), Key(cs[0])) {
        TakeKeeps(ps[1..], cs, e);
      } else if Key(cs[0]) == Key(ps[0]) {
        TakeKeeps(ps[1..], cs[1..], e);
      } else {
        TakeKeeps(ps, cs[1..], e);
      }
    }
  }

  /** Nothing is taken that the parent does not have. */
  lemma {:induction false} TakeOnly(ps: seq<string>, cs: seq<string>, e: string)
    ensures multiset(Take(ps, cs).front)[e] + multiset(Take(ps, cs).back)[e] <= multiset(ps)[e]
    decreases |ps| + |cs|
  {
    if ps != [] && cs != [] {
      assert ps == [ps[0]] + ps[1..];
      if Less(Key(ps[0]), Key(cs[0])) {
        TakeOnly(ps[1..], cs, e);
      } else if Key(cs[0]) == Key(ps[0]) {
        TakeOnly(ps[1..], cs[1..], e);
      } else {
        TakeOnly(ps, cs[1..], e);
      }
    }
  }

  lemma KeysOfSorted(s: seq<string>)
    ensures Keys(Sort(s)) == Keys(s)
  {
    SortSorts(s);
    assert forall e :: e in s <==> e in multiset(s);
    assert forall e :: e in Sort(s) <==> e in multiset(Sort(s));
    assert forall e :: e in s <==> e in Sort(s);
  }

  /** Whatever the order: every child entry survives, and every parent entry whose key the child does not set. */
  lemma NothingLost(delta: seq<string>, parent: seq<string>, e: string)
    ensures multiset(MergeEnv(delta, parent))[e] >= multiset(delta)[e]
    ensures multiset(MergeEnv(delta, parent))[e] <= multiset(delta)[e] + multiset(parent)[e]
    ensures Key(e) !in Keys(delta) ==> multiset(MergeEnv(delta, parent))[e] == multiset(parent)[e]
  {
    SortSorts(delta);
    SortSorts(parent);
    MergedMultiset(Sort(parent), Sort(delta));
    TakeOnly(Sort(parent), Sort(delta), e);
    if Key(e) !in Keys(delta) {
      KeysOfSorted(delta);
      TakeKeeps(Sort(parent), Sort(delta), e);
      assert e in multiset(delta) ==> e in delta;
    }
  }

  // ---------- when the merge is right ----------

  /** The result is the child's entries and the parent entries the child does not set, and no others. */
  ghost predicate Right(delta: seq<string>, parent: seq<string>) {
    multiset(MergeEnv(delta, parent)) == multiset(delta) + multiset(Unset(parent, delta))
  }

  ghost predicate Increasing(s: seq<string>) {
    forall i, j | 0 <= i < j < |s| :: Less(Key(s[i]), Key(s[j]))
  }

  ghost predicate DistinctKeys(s: seq<string>) {
    forall i, j | 0 <= i < j < |s| :: Key(s[i]) != Key(s[j])
  }

  /**
    No key is continued in another one by a character below `=`, like `A` in `A1`. Only then does the order
    of entries agree with that of their keys.
   */
  ghost predicate Orderly(keys: set<string>) {
    forall j, k | j in keys && k in keys :: !Continues(j, k)
  }

  predicate Continues(j: string, k: string) {
    j < k && k[|j|] < '='
  }

  lemma {:induction false} OrderOfKeys(a: string, b: string)
    requires Less(a, b) && Key(a) != Key(b) && !Continues(Key(b), Key(a))
    ensures Less(Key(a), Key(b))
  {
    if Key(a) != "" && Key(b) != "" && a[0] == b[0] {
      var j, k := Key(b[1..]), Key(a[1..]);
      assert Key(b)[1..] == j && Key(a)[1..] == k;
      assert Continues(j, k) ==> Continues(Key(b), Key(a));
      OrderOfKeys(a[1..], b[1..]);
    }
  }

  /** If the keys of both lists increase, exactly the parent entries whose key the child does not set are taken. */
  lemma {:induction false} TakeIncreasing(ps: seq<string>, cs: seq<string>)
    requires Increasing(ps) && Increasing(cs)
    ensures Take(ps, cs).front + Take(ps, cs).back == Unset(ps, cs)
    decreases |ps| + |cs|
  {
    if ps == [] {
    } else if cs == [] {
      UnsetAll(ps, cs);
    } else {
      hide Less, Key, Increasing;
      var p, c := Key(ps[0]), Key(cs[0]);
      if Less(p, c) {
        TakeIncreasing(ps[1..], cs);
        NotBelow(p, cs);
        var t := Take(ps[1..], cs);
        assert [ps[0]] + t.front + t.back == [ps[0]] + (t.front + t.back);
      } else if c == p {
        TakeIncreasing(ps[1..], cs[1..]);
        AllAbove(c, ps, 1);
        UnsetTail(ps[1..], cs);
        assert cs[0] in cs;
      } else {
        LessTotal(p, c);
        TakeIncreasing(ps, cs[1..]);
        AllAbove(c, ps, 0);
        UnsetTail(ps, cs);
      }
    }
  }

  lemma AllAbove(c: string, ps: seq<string>, from: nat)
    requires Increasing(ps) && from <= |ps|
    requires from < |ps| ==> Less(c, Key(ps[from])) || (from > 0 && c == Key(ps[from - 1]))
    ensures forall i | from <= i < |ps| :: Key(ps[i]) != c
  {
    forall i | from <= i < |ps|
      ensures Key(ps[i]) != c
    {
      LessTotal(Key(ps[i]), c);
      if i > from && Less(c, Key(ps[from])) {
        LessTransitive(c, Key(ps[from]), Key(ps[i]));
      }
    }
  }

  lemma NotBelow(p: string, cs: seq<string>)
    requires cs != [] && Increasing(cs) && Less(p, Key(cs[0]))
    ensures p !in Keys(cs)
  {
    AllAbove(p, cs, 0);
  }

  lemma {:induction false} UnsetAll(ps: seq<string>, cs: seq<string>)
    requires cs == []
    ensures Unset(ps, cs) == ps
  {
    if ps != [] {
      UnsetAll(ps[1..], cs);
    }
  }

  /** The first child entry does not matter if no parent entry has its key. */
  lemma {:induction false} UnsetTail(ps: seq<string>, cs: seq<string>)
    requires cs != [] && forall i | 0 <= i < |ps| :: Key(ps[i]) != Key(cs[0])
    ensures Unset(ps, cs) == Unset(ps, cs[1..])
  {
    if ps != [] {
      UnsetTail(ps[1..], cs);
      assert cs == [cs[0]] + cs[1..];
      assert Key(ps[0]) in Keys(cs) <==> Key(ps[0]) in Keys(cs[1..]);
    }
  }

  /** How often an entry is in the unset part does not depend on the order of either list. */
  lemma {:induction false} UnsetCount(ps: seq<string>, cs: seq<string>, e: string)
    ensures multiset(Unset(ps, cs))[e] == if Key(e) in Keys(cs) then 0 else multiset(ps)[e]
  {
    if ps != [] {
      assert ps == [ps[0]] + ps[1..];
      UnsetCount(ps[1..], cs, e);
    }
  }

  lemma {:induction false} SortIntoDistinct(x: string, s: seq<string>)
    requires DistinctKeys([x] + s)
    ensures DistinctKeys(SortInto(x, s))
    ensures forall e | e in SortInto(x, s) :: e == x || e in s
  {
    if s != [] && Less(s[0], x) {
      var r := SortInto(x, s[1..]);
      forall i, j | 0 <= i < j < |[x] + s[1..]|
        ensures Key(([x] + s[1..])[i]) != Key(([x] + s[1..])[j])
      {
        assert Key(([x] + s)[if i == 0 then 0 else i + 1]) != Key(([x] + s)[j + 1]);
      }
      SortIntoDistinct(x, s[1..]);
      forall i | 0 <= i < |r|
        ensures Key(r[i]) != Key(s[0])
      {
        assert Key(([x] + s)[0]) != Key(([x] + s)[1]);
        if r[i] != x {
          assert r[i] in r && r[i] in s[1..];
          var k :| 0 <= k < |s[1..]| && s[1..][k] == r[i];
          assert Key(([x] + s)[1]) != Key(([x] + s)[k + 2]);
        }
      }
    }
  }

  lemma {:induction false} SortDistinct(s: seq<string>)
    requires DistinctKeys(s)
    ensures DistinctKeys(Sort(s))
  {
    if s != [] {
      hide Key, Less, SortInto;
      var r := Sort(s[1..]);
      SortDistinct(s[1..]);
      SortSorts(s[1..]);
      forall i | 0 <= i < |r|
        ensures Key(s[0]) != Key(r[i])
      {
        assert r[i] in multiset(r) && r[i] in s[1..];
      }
      SortIntoDistinct(s[0], r);
    }
  }

  lemma SortedIncreasing(s: seq<string>)
    requires Sorted(s) && DistinctKeys(s) && Orderly(Keys(s))
    ensures Increasing(s)
  {
    forall i, j | 0 <= i < j < |s|
      ensures Less(Key(s[i]), Key(s[j]))
    {
      LessTotal(s[i], s[j]);
      assert Key(s[i]) in Keys(s) && Key(s[j]) in Keys(s);
      OrderOfKeys(s[i], s[j]);
    }
  }

  /** With distinct and orderly keys in each list the merge is right. */
  lemma MergeRight(delta: seq<string>, parent: seq<string>)
    requires DistinctKeys(delta) && DistinctKeys(parent)
    requires Orderly(Keys(delta)) && Orderly(Keys(parent))
    ensures Right(delta, parent)
  {
    var ps, cs := Sort(parent), Sort(delta);
    SortSorts(parent);
    SortSorts(delta);
    KeysOfSorted(parent);
    KeysOfSorted(delta);
    SortDistinct(parent);
    SortDistinct(delta);
    SortedIncreasing(ps);
    SortedIncreasing(cs);
    TakeIncreasing(ps, cs);
    MergedMultiset(ps, cs);
    forall e: string
      ensures multiset(Unset(ps, cs))[e] == multiset(Unset(parent, delta))[e]
    {
      UnsetCount(ps, cs, e);
      UnsetCount(parent, delta, e);
    }
    var t := Take(ps, cs);
    assert multiset(t.front + t.back) == multiset(t.front) + multiset(t.back);
  }

  lemma {:induction false} KeyOf(k: string, v: string)
    requires '=' !in k
    ensures Key(k + "=" + v) == k
  {
    if k == "" {
      assert k + "=" + v == "=" + v;
    } else {
      assert (k + "=" + v)[1..] == k[1..] + "=" + v;
      KeyOf(k[1..], v);
    }
  }

  /** A key comes before its continuation, but its entry after that of the continuation. */
  lemma {:induction false} EntriesSwap(j: string, k: string)
    requires Continues(j, k)
    ensures Less(j, k) && Less(k + "=", j + "=")
  {
    if j != "" {
      assert j[1..] < k[1..];
      EntriesSwap(j[1..], k[1..]);
      assert (k + "=")[1..] == k[1..] + "=" && (j + "=")[1..] == j[1..] + "=";
    }
  }

  lemma SortOne(a: string)
    ensures Sort([a]) == [a]
  {
    hide Less;
    assert [a][1..] == [] && SortInto(a, []) == [a];
  }

  lemma SortSwaps(a: string, b: string)
    requires Less(b, a)
    ensures Sort([a, b]) == [b, a]
  {
    hide Less;
    SortOne(b);
    assert SortInto(a, []) == [a] && [b][1..] == [];
    assert SortInto(a, [b]) == [b] + SortInto(a, [b][1..]);
    assert Sort([a, b]) == SortInto(a, Sort([a, b][1..])) && [a, b][1..] == [b];
  }

  lemma FrontTaken(e: string, a: string, b: string)
    requires Less(b, a) && Less(Key(e), Key(b))
    ensures MergeEnv([a, b], [e]) == [e, b, a]
  {
    hide Less, Key;
    SortSwaps(a, b);
    SortOne(e);
    assert [e][1..] == [];
    assert Take([], [b, a]) == Taken([], []);
    assert Take([e], [b, a]) == Taken([e], []);
    assert Reversed([e]) == [e];
  }

  /**
    For any key and a continuation of it, lists with these keys for which the merge keeps a parent entry it
    should drop.
   */
  lemma MergeWrong(j: string, k: string)
    requires Continues(j, k) && '=' !in j && '=' !in k
    ensures var delta, parent := [j + "=", k + "="], [j + "=" + "x"];
            && DistinctKeys(delta) && DistinctKeys(parent) && Keys(delta) == {j, k} && Keys(parent) == {j}
            && !Right(delta, parent)
  {
    hide MergeEnv, Key, Less, Right;
    var a, b, e := j + "=", k + "=", j + "=" + "x";
    EntriesSwap(j, k);
    assert Key(a) == j && Key(b) == k && Key(e) == j by {
      KeyOf(j, "");
      KeyOf(k, "");
      KeyOf(j, "x");
      assert a == j + "=" + "" && b == k + "=" + "";
    }
    FrontTaken(e, a, b);
    FrontIsWrong(e, a, b);
  }

  lemma FrontIsWrong(e: string, a: string, b: string)
    requires MergeEnv([a, b], [e]) == [e, b, a] && Key(e) == Key(a) && e != a && e != b
    ensures !Right([a, b], [e])
  {
    hide Key, MergeEnv, Unset;
    UnsetCount([e], [a, b], e);
    assert a in [a, b];
    assert multiset([e, b, a])[e] == 1 && multiset([a, b])[e] == 0;
  }

  /**
    The keys for which the merge is right whatever the entries: exactly those sets of keys in which no key
    is continued by a character below `=`.
   */
  lemma MergeRightIff(keys: set<string>)
    requires forall k | k in keys :: '=' !in k
    ensures Orderly(keys) <==>
            forall delta, parent | DistinctKeys(delta) && DistinctKeys(parent) &&
                                   Keys(delta) <= keys && Keys(parent) <= keys :: Right(delta, parent)
  {
    hide Right, Key, Continues;
    if Orderly(keys) {
      forall delta, parent | DistinctKeys(delta) && DistinctKeys(parent) && Keys(delta) <= keys && Keys(parent) <= keys
        ensures Right(delta, parent)
      {
        MergeRight(delta, parent);
      }
    } else {
      var j, k :| j in keys && k in keys && Continues(j, k);
      MergeWrong(j, k);
      assert Keys([j + "=", k + "="]) <= keys && Keys([j + "=" + "x"]) <= keys;
    }
  }

  // ---------- in place ----------

  /** `str_array_sort` */
  method SortArray(a: StrArray, ghost strings: seq<string>)
    requires a.Valid() && a.Contents() == Plains(strings)
    modifies a.entries
    ensures a.Valid() && a.Contents() == Plains(Sort(strings))
  {
    var all := [];
    for i := 0 to a.len
      invariant all == strings[..i]
    {
      assert a.Contents()[i] == Plain(strings[i]);
      all := all + [a.entries[i].text.value];
    }
    assert all == strings;
    var sorted := Sort(all);
    SortSorts(all);
    assert |sorted| == |all| by {
      assert |multiset(sorted)| == |multiset(all)|;
    }
    for i := 0 to a.len
      invariant a.Valid() && a.Contents()[..i] == Plains(sorted)[..i]
    {
      a.entries[i] := Plain(sorted[i]);
      assert a.Contents()[..i + 1] == a.Contents()[..i] + [Plain(sorted[i])];
    }
  }

  /** `merge_env`: `result` is walked while parent entries go in at its front. */
  method MergeInto(delta: seq<string>, parentEnv: seq<string>, result: StrArray)
    requires result.Valid() && result.Contents() == []
    modifies result, result.entries
    ensures result.Valid() && result.Contents() == Plains(MergeEnv(delta, parentEnv))
  {
    hide Take, Sort;
    var current := new StrArray();
    var n := current.Push(parentEnv);
    for i := 0 to |delta|
      invariant result.Valid() && (fresh(result.entries) || result.entries == old(result.entries))
      invariant result.Contents() == Plains(delta[..i])
      invariant current.Valid() && fresh(current.entries) && current.entries != result.entries
      invariant current.Contents() == Plains(parentEnv)
    {
      PlainsInserted(delta[..i], delta[i], i);
      result.Insert(delta[i], i);
      assert delta[..i] + [delta[i]] == delta[..i + 1];
    }
    assert delta[..|delta|] == delta;
    SortArray(current, parentEnv);
    SortArray(result, delta);
    Walk(current, result, Sort(parentEnv), Sort(delta));
  }

  /** What is still to come: `front` has gone in, `p` parent entries and `j` child entries are done. */
  ghost predicate Walking(ps: seq<string>, cs: seq<string>, front: seq<string>, p: nat, j: nat) {
    p <= |ps| && j <= |cs| &&
    Take(ps, cs) == Taken(front + Take(ps[p..], cs[j..]).front, Take(ps[p..], cs[j..]).back)
  }

  lemma WalkStart(ps: seq<string>, cs: seq<string>)
    ensures Walking(ps, cs, [], 0, 0) && Reversed([]) + cs == cs
  {
    assert ps[0..] == ps && cs[0..] == cs && [] + Take(ps, cs).front == Take(ps, cs).front;
  }

  lemma WalkStep(ps: seq<string>, cs: seq<string>, front: seq<string>, p: nat, j: nat)
    requires p < |ps| && j < |cs| && Walking(ps, cs, front, p, j)
    ensures Less(Key(ps[p]), Key(cs[j])) ==> Walking(ps, cs, front + [ps[p]], p + 1, j)
    ensures Key(ps[p]) == Key(cs[j]) ==> Walking(ps, cs, front, p + 1, j + 1)
    ensures !Less(Key(ps[p]), Key(cs[j])) && Key(ps[p]) != Key(cs[j]) ==> Walking(ps, cs, front, p, j + 1)
    ensures Inserted(Reversed(front) + cs, ps[p], 0) == Reversed(front + [ps[p]]) + cs
  {
    LessTotal(Key(ps[p]), Key(cs[j]));
    assert ps[p..][1..] == ps[p + 1..] && cs[j..][1..] == cs[j + 1..];
    var t := Take(ps[p + 1..], cs[j..]);
    assert front + ([ps[p]] + t.front) == front + [ps[p]] + t.front;
    assert Reversed(front + [ps[p]]) == [ps[p]] + Reversed(front);
  }

  lemma WalkEnd(ps: seq<string>, cs: seq<string>, front: seq<string>, p: nat, j: nat)
    requires Walking(ps, cs, front, p, j) && (p == |ps| || j == |cs|)
    ensures Merged(ps, cs) == Reversed(front) + cs + ps[p..]
  {
    var t := Take(ps[p..], cs[j..]);
    assert front + [] == front;
  }

  /** One round of the first loop of `merge_env`. */
  method WalkOne(current: StrArray, result: StrArray, p: nat, c: nat,
                 ghost ps: seq<string>, ghost cs: seq<string>, ghost front: seq<string>, ghost j: nat)
    returns (p': nat, c': nat, ghost front': seq<string>, ghost j': nat)
    requires current.Valid() && result.Valid() && current != result && current.entries != result.entries
    requires current.Contents() == Plains(ps) && result.Contents() == Plains(Reversed(front) + cs)
    requires Walking(ps, cs, front, p, j) && c == |front| + j && p < |ps| && j < |cs|
    modifies result, result.entries
    ensures result.Valid() && (fresh(result.entries) || result.entries == old(result.entries))
    ensures result.Contents() == Plains(Reversed(front') + cs)
    ensures Walking(ps, cs, front', p', j') && c' == |front'| + j' && p' <= |ps| && j' <= |cs|
    ensures p <= p' && j <= j' && p + j < p' + j'
  {
    hide Take, Less, Walking, Inserted;
    assert current.Contents()[p] == Plain(ps[p]);
    assert result.Contents()[c] == Plain((Reversed(front) + cs)[c]);
    var parent := current.entries[p].text.value;
    var pKey, cKey := Key(parent), Key(result.entries[c].text.value);
    p', c', front', j' := p, c + 1, front, j + 1;
    WalkStep(ps, cs, front, p, j);
    if Less(pKey, cKey) {
      PlainsInserted(Reversed(front) + cs, parent, 0);
      result.Insert(parent, 0);
      p', front', j' := p + 1, front + [parent], j;
    } else if cKey == pKey {
      p' := p + 1;
    }
  }

  /** The loops of `merge_env`: `p` and `c` walk over the parent list and the growing result. */
  method Walk(current: StrArray, result: StrArray, ghost ps: seq<string>, ghost cs: seq<string>)
    requires current.Valid() && result.Valid() && current != result && current.entries != result.entries
    requires current.Contents() == Plains(ps) && result.Contents() == Plains(cs)
    modifies result, result.entries
    ensures result.Valid() && result.Contents() == Plains(Merged(ps, cs))
  {
    hide Take, Walking, Merged;
    var p, c := 0, 0;
    ghost var front, j := [], 0;
    WalkStart(ps, cs);
    while p < current.len && c < result.len
      invariant result.Valid() && (fresh(result.entries) || result.entries == old(result.entries))
      invariant unchanged(current, current.entries)
      invariant result.Contents() == Plains(Reversed(front) + cs)
      invariant Walking(ps, cs, front, p, j) && c == |front| + j && p <= |ps| && j <= |cs|
      decreases |ps| + |cs| - p - j
    {
      p, c, front, j := WalkOne(current, result, p, c, ps, cs, front, j);
    }
    WalkEnd(ps, cs, front, p, j);
    PushRest(current, result, p, ps, Reversed(front) + cs);
  }

  /** The second loop: the rest of the parent list. */
  method PushRest(current: StrArray, result: StrArray, from: nat, ghost ps: seq<string>, ghost merged: seq<string>)
    requires current.Valid() && result.Valid() && current != result && current.entries != result.entries
    requires current.Contents() == Plains(ps) && result.Contents() == Plains(merged) && from <= |ps|
    modifies result, result.entries
    ensures result.Valid() && result.Contents() == Plains(merged + ps[from..])
  {
    var p := from;
    assert ps[from..p] == [] && merged + [] == merged;
    while p < current.len
      invariant result.Valid() && (fresh(result.entries) || result.entries == old(result.entries))
      invariant unchanged(current, current.entries)
      invariant from <= p <= |ps| && result.Contents() == Plains(merged + ps[from..p])
    {
      assert current.Contents()[p] == Plain(ps[p]);
      var n := result.Push([current.entries[p].text.value]);
      PlainsConcat(merged + ps[from..p], [ps[p]]);
      assert merged + ps[from..p] + [ps[p]] == merged + ps[from..p + 1];
      p := p + 1;
    }
    assert ps[from..p] == ps[from..];
  }
}
