/**
  Releasing a config tree (`config_data_release` in src/config/config-data.c): the loop takes the last
  subsection off each list on its way down, and frees sections on its way up.
 */
module ConfigRelease {
  import opened Wrappers
  import opened ConfigTree
  import opened TreePaths
  import opened ConfigDatas

  // ---------- the last position of a tree, and what precedes a position ----------

  /** The position reached by always going to the last subsection. */
  function RightEnd(t: Tree): (r: Position)
    ensures IsPosition(t, r)
  {
    if t.subs == [] then []
    else
      var k := |t.subs| - 1;
      assert ([k] + RightEnd(t.subs[k]))[1..] == RightEnd(t.subs[k]);
      [k] + RightEnd(t.subs[k])
  }

  /** The last position at or below `p` when only the first `c` subsections of `p` are left. */
  function LastBelow(t: Tree, p: Position, c: nat): Position
    requires IsPosition(t, p) && c <= |SubAt(t, p).subs|
  {
    if c == 0 then p else p + ([c - 1] + RightEnd(SubAt(t, p).subs[c - 1]))
  }

  lemma {:induction false} RightEndLast(t: Tree)
    ensures Successor(t, RightEnd(t)).None?
  {
    if t.subs != [] {
      var k := |t.subs| - 1;
      RightEndLast(t.subs[k]);
      assert ([k] + RightEnd(t.subs[k]))[1..] == RightEnd(t.subs[k]);
    }
  }

  /** After the last position of the first `c` subsections of `p` comes subsection `c`. */
  lemma {:induction false} LastBelowNext(t: Tree, p: Position, c: nat)
    requires IsPosition(t, p) && c < |SubAt(t, p).subs|
    ensures IsPosition(t, LastBelow(t, p, c)) && Successor(t, LastBelow(t, p, c)) == Some(p + [c])
    decreases |p|
  {
    hide RightEnd;
    if p == [] {
      assert [] + [c] == [c];
      if c > 0 {
        var r := RightEnd(t.subs[c - 1]);
        assert LastBelow(t, p, c) == [c - 1] + r && ([c - 1] + r)[1..] == r;
        RightEndLast(t.subs[c - 1]);
      }
    } else {
      var s, q := t.subs[p[0]], p[1..];
      LastBelowNext(s, q, c);
      assert LastBelow(t, p, c) == [p[0]] + LastBelow(s, q, c);
      assert ([p[0]] + LastBelow(s, q, c))[1..] == LastBelow(s, q, c);
      assert [p[0]] + (q + [c]) == p + [c];
    }
  }

  /** If subsection `c` of `p` is at index `i` of the list, the last position before it is at `i - 1`. */
  lemma PrecededBy(t: Tree, p: Position, c: nat, i: nat)
    requires IsPosition(t, p) && c < |SubAt(t, p).subs|
    requires i < |Preorder(t)| && Preorder(t)[i] == p + [c]
    ensures i > 0 && Preorder(t)[i - 1] == LastBelow(t, p, c)
  {
    hide Preorder, Before, LastBelow, Successor;
    LastBelowNext(t, p, c);
    var l := LastBelow(t, p, c);
    PreorderComplete(t, l);
    var j :| 0 <= j < |Preorder(t)| && Preorder(t)[j] == l;
    PreorderNext(t, j);
    if j + 1 < i {
      PreorderOrdered(t, j + 1, i);
      BeforeTotal(Preorder(t)[j + 1], Preorder(t)[i]);
    } else if i < j + 1 {
      PreorderOrdered(t, i, j + 1);
      BeforeTotal(Preorder(t)[i], Preorder(t)[j + 1]);
    }
  }

  /** A prefix of a position in the list stands at the same place or earlier. */
  lemma PrefixEarlier(t: Tree, i: nat, j: nat)
    requires i < |Preorder(t)| && j < |Preorder(t)| && Preorder(t)[j] <= Preorder(t)[i]
    ensures j <= i
  {
    if i < j {
      PreorderOrdered(t, i, j);
      BeforeTotal(Preorder(t)[i], Preorder(t)[j]);
    }
  }

  // ---------- the state of the loop ----------

  /** What has been freed is the end of the preorder list, last first. */
  ghost predicate FreedSoFar(h: Heap, root: ConfigData, freed: seq<ConfigData>)
    requires root in h
  {
    var pre := Preorder(h[root].tree);
    && |freed| <= |pre|
    && forall i {:trigger freed[i]} | 0 <= i < |freed| ::
         freed[i] in h && h[freed[i]].position == pre[|pre| - 1 - i]
  }

  /** `lists` are the subsections left: cut on the way to `p`, untouched where nothing has been freed. */
  ghost predicate CutAlong(h: Heap, lists: map<ConfigData, seq<ConfigData>>, freed: seq<ConfigData>, p: Position) {
    && lists.Keys == h.Keys
    && forall x {:trigger lists[x]} | x in h ::
         && (h[x].position < p ==>
               p[|h[x].position|] <= |h[x].subsections| &&
               lists[x] == h[x].subsections[..p[|h[x].position|]])
         && (!(h[x].position <= p) && x !in freed ==> lists[x] == h[x].subsections)
  }

  /** The section at `current` has `c` subsections left, and all that comes after them has been freed. */
  ghost predicate Releasing(h: Heap, root: ConfigData, lists: map<ConfigData, seq<ConfigData>>,
                            freed: seq<ConfigData>, current: ConfigData)
  {
    && AllLinked(h, root) && current in h && root in h
    && FreedSoFar(h, root, freed)
    && CutAlong(h, lists, freed, h[current].position)
    && |lists[current]| <= |h[current].subsections|
    && lists[current] == h[current].subsections[..|lists[current]|]
    && IsPosition(h[root].tree, h[current].position)
    && |h[current].subsections| == |SubAt(h[root].tree, h[current].position).subs|
    && |freed| < |Preorder(h[root].tree)|
    && Preorder(h[root].tree)[|Preorder(h[root].tree)| - 1 - |freed|] ==
       LastBelow(h[root].tree, h[current].position, |lists[current]|)
  }

  lemma NotFreed(h: Heap, root: ConfigData, freed: seq<ConfigData>, x: ConfigData)
    requires AllLinked(h, root) && x in h && root in h && FreedSoFar(h, root, freed)
    requires |freed| < |Preorder(h[root].tree)|
    requires h[x].position <= Preorder(h[root].tree)[|Preorder(h[root].tree)| - 1 - |freed|]
    ensures x !in freed
  {
    var pre := Preorder(h[root].tree);
    if x in freed {
      var i :| 0 <= i < |freed| && freed[i] == x;
      PrefixEarlier(h[root].tree, |pre| - 1 - |freed|, |pre| - 1 - i);
    }
  }

  /** The last position below a section with `c + 1` subsections left is the last one of subsection `c`. */
  lemma LastBelowLast(t: Tree, p: Position, c: nat)
    requires IsPosition(t, p) && c < |SubAt(t, p).subs|
    ensures IsPosition(t, p + [c]) && SubAt(t, p + [c]) == SubAt(t, p).subs[c]
    ensures LastBelow(t, p, c + 1) == LastBelow(t, p + [c], |SubAt(t, p).subs[c].subs|)
    ensures p + [c] <= LastBelow(t, p, c + 1)
  {
    PositionSnoc(t, p, c);
    var s := SubAt(t, p).subs[c];
    PositionAssoc(p, c, RightEnd(s));
    LastBelowWhole(t, p + [c]);
  }

  lemma PositionAssoc(p: Position, c: nat, r: Position)
    ensures p + ([c] + r) == p + [c] + r && p + [c] <= p + [c] + r
  {
  }

  lemma LastBelowWhole(t: Tree, q: Position)
    requires IsPosition(t, q)
    ensures LastBelow(t, q, |SubAt(t, q).subs|) == q + RightEnd(SubAt(t, q))
  {
    if SubAt(t, q).subs == [] {
      assert q + [] == q;
    }
  }

  /** The cut of the lists goes one step further down. */
  lemma CutFurther(h: Heap, root: ConfigData, lists: map<ConfigData, seq<ConfigData>>,
                   freed: seq<ConfigData>, current: ConfigData, c: nat)
    requires AllLinked(h, root) && current in h && c < |h[current].subsections|
    requires CutAlong(h, lists, freed, h[current].position)
    ensures CutAlong(h, lists[current := h[current].subsections[..c]], freed, h[current].position + [c])
  {
    var p, q, cut := h[current].position, h[current].position + [c], lists[current := h[current].subsections[..c]];
    assert p <= q;
    forall x | x in h
      ensures h[x].position < q ==>
                q[|h[x].position|] <= |h[x].subsections| && cut[x] == h[x].subsections[..q[|h[x].position|]]
      ensures !(h[x].position <= q) && x !in freed ==> cut[x] == h[x].subsections
    {
      assert lists[x] == lists[x];
      if h[x].position == p {
        Unique(h, root, x, current);
      } else if h[x].position < q {
        assert h[x].position <= p;
      }
    }
  }

  /** Going down to the last subsection that is left. */
  lemma DownStep(h: Heap, root: ConfigData, lists: map<ConfigData, seq<ConfigData>>,
                 freed: seq<ConfigData>, current: ConfigData)
    requires Releasing(h, root, lists, freed, current) && lists[current] != []
    ensures var c := |lists[current]| - 1;
            var child := lists[current][c];
            && child in h && h[child].tree < h[current].tree
            && Releasing(h, root, lists[current := lists[current][..c]], freed, child)
  {
    var c := |lists[current]| - 1;
    var child := h[current].subsections[c];
    assert Linked(h, current);
    assert child in h && h[child].position == h[current].position + [c];
    assert Linked(h, child);
    LocatedIn(h, root, current);
    assert h[child].tree == h[current].tree.subs[c];
    LastBelowLast(h[root].tree, h[current].position, c);
    NotFreed(h, root, freed, child);
    assert lists[child] == h[child].subsections by {
      assert |h[child].position| > |h[current].position|;
    }
    CutFurther(h, root, lists, freed, current, c);
    assert h[current].subsections[..c] == lists[current][..c];
  }

  /** Freeing a section that has no subsections left, and going up to its parent. */
  lemma UpStep(h: Heap, root: ConfigData, lists: map<ConfigData, seq<ConfigData>>,
               freed: seq<ConfigData>, current: ConfigData)
    requires Releasing(h, root, lists, freed, current) && lists[current] == []
    ensures FreedSoFar(h, root, freed + [current])
    ensures h[current].parent == null ==> |freed| + 1 == |Preorder(h[root].tree)|
    ensures h[current].parent != null ==> Releasing(h, root, lists, freed + [current], h[current].parent)
  {
    hide Preorder;
    var t, p, pre := h[root].tree, h[current].position, Preorder(h[root].tree);
    var i := |pre| - 1 - |freed|;
    assert Linked(h, current);
    assert pre[i] == p;
    hide LastBelow;
    OneMoreFreed(h, root, freed, current);
    if p == [] {
      if i > 0 {
        PreorderOrdered(t, 0, i);
      }
    } else {
      var parent, q, k := h[current].parent, p[..|p| - 1], p[|p| - 1];
      LocatedIn(h, root, parent);
      assert Linked(h, parent);
      assert h[parent].position == q && p == q + [k];
      PrecededBy(t, q, k, i);
      assert lists[parent] == h[parent].subsections[..k];
      CutBack(h, root, lists, freed, current, q, k);
    }
  }

  lemma OneMoreFreed(h: Heap, root: ConfigData, freed: seq<ConfigData>, x: ConfigData)
    requires root in h && x in h && FreedSoFar(h, root, freed) && |freed| < |Preorder(h[root].tree)|
    requires h[x].position == Preorder(h[root].tree)[|Preorder(h[root].tree)| - 1 - |freed|]
    ensures FreedSoFar(h, root, freed + [x])
  {
    hide Preorder;
  }

  /** The cut of the lists goes one step back up, past a section that is freed. */
  lemma CutBack(h: Heap, root: ConfigData, lists: map<ConfigData, seq<ConfigData>>,
                freed: seq<ConfigData>, current: ConfigData, q: Position, k: nat)
    requires AllLinked(h, root) && current in h && h[current].position == q + [k]
    requires CutAlong(h, lists, freed, q + [k])
    ensures CutAlong(h, lists, freed + [current], q)
  {
    var p := q + [k];
    forall x | x in h
      ensures h[x].position < q ==>
                q[|h[x].position|] <= |h[x].subsections| && lists[x] == h[x].subsections[..q[|h[x].position|]]
      ensures !(h[x].position <= q) && x !in freed + [current] ==> lists[x] == h[x].subsections
    {
      assert lists[x] == lists[x];
      if h[x].position < q {
        assert h[x].position < p && p[|h[x].position|] == q[|h[x].position|];
      } else if h[x].position <= p && h[x].position != q {
        assert h[x].position == p;
        Unique(h, root, x, current);
      }
    }
  }

  // ---------- the loop ----------

  /** The subsection lists of all sections at this moment. */
  ghost function Lists(S: set<ConfigData>): map<ConfigData, seq<ConfigData>>
    reads S
  {
    map n: ConfigData | n in S :: n.subsections
  }

  /** Nothing but the subsection lists has changed since the fields were `h`. */
  ghost predicate OnlyLists(h: Heap, S: set<ConfigData>)
    reads S
  {
    h.Keys == S && forall n {:trigger n in S} | n in S :: n.parent == h[n].parent && n.position == h[n].position
  }

  /** `config_data_release`: returns the sections in the order in which they are freed. */
  method ConfigDataRelease(root: ConfigData) returns (freed: seq<ConfigData>)
    requires root.IsLinked() && root.parent == null
    modifies root.Repr
    ensures var pre := Preorder(old(root.tree));
            && |freed| == |pre|
            && (forall i | 0 <= i < |freed| :: freed[i] in old(root.Repr) && freed[i].position == pre[|pre| - 1 - i])
            && (forall n | n in old(root.Repr) :: n in freed)
  {
    ghost var h, S, t := root.Fields(), root.Repr, root.tree;
    freed := [];
    var current: ConfigData? := root;
    Begin(h, root, Lists(S));
    while current != null
      invariant root.Repr == S && OnlyLists(h, S)
      invariant current != null ==> Releasing(h, root, Lists(S), freed, current)
      invariant current == null ==> FreedSoFar(h, root, freed) && |freed| == |Preorder(t)|
      decreases if current == null then 0 else 1 + |Preorder(t)| - |freed|
    {
      current := GoDown(root, current, h, S, freed);
      // free it and move up the section hierarchy
      UpStep(h, root, Lists(S), freed, current);
      freed := freed + [current];
      current := current.parent;
    }
    AllFreed(h, root, freed);
  }

  /** The inner loop: traverse as deep as possible, cutting off the way. */
  method GoDown(root: ConfigData, from: ConfigData, ghost h: Heap, ghost S: set<ConfigData>,
                ghost freed: seq<ConfigData>) returns (current: ConfigData)
    requires OnlyLists(h, S) && Releasing(h, root, Lists(S), freed, from)
    modifies S`subsections
    ensures OnlyLists(h, S) && Releasing(h, root, Lists(S), freed, current)
    ensures current in S && current.subsections == []
  {
    hide AllLinked, FreedSoFar, CutAlong, LastBelow, Preorder;
    current := from;
    while current.subsections != []
      invariant OnlyLists(h, S) && current in S && Releasing(h, root, Lists(S), freed, current)
      decreases h[current].tree
    {
      ghost var lists := Lists(S);
      DownStep(h, root, lists, freed, current);
      var last := |current.subsections| - 1;
      var next := current.subsections[last];
      current.subsections := current.subsections[..last];
      assert forall n | n in S && n != current :: n.subsections == lists[n];
      assert Lists(S) == lists[current := lists[current][..last]];
      current := next;
    }
  }

  lemma Begin(h: Heap, root: ConfigData, lists: map<ConfigData, seq<ConfigData>>)
    requires AllLinked(h, root) && root in h && lists.Keys == h.Keys
    requires forall x | x in h :: lists[x] == h[x].subsections
    ensures Releasing(h, root, lists, [], root)
  {
    var t := h[root].tree;
    assert Linked(h, root);
    var l := LastBelow(t, [], |t.subs|);
    assert IsPosition(t, l) && Successor(t, l).None? by {
      RightEndLast(t);
      assert l == RightEnd(t);
    }
    PreorderComplete(t, l);
    var i :| 0 <= i < |Preorder(t)| && Preorder(t)[i] == l;
    PreorderNext(t, i);
  }

  lemma AllFreed(h: Heap, root: ConfigData, freed: seq<ConfigData>)
    requires AllLinked(h, root) && root in h && FreedSoFar(h, root, freed) && |freed| == |Preorder(h[root].tree)|
    ensures forall n | n in h :: n in freed
  {
    var pre := Preorder(h[root].tree);
    forall n | n in h
      ensures n in freed
    {
      LocatedIn(h, root, n);
      PreorderComplete(h[root].tree, h[n].position);
      var i :| 0 <= i < |pre| && pre[i] == h[n].position;
      var m := freed[|pre| - 1 - i];
      Unique(h, root, n, m);
    }
  }
}
