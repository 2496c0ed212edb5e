/**
  Positions in a section tree: the child indices from the root down to a section, how they follow one
  another in preorder, and how looking up or creating a section path finds its way.
 */
module TreePaths {
  import opened Wrappers
  import opened ConfigTree

  type Position = seq<nat>

  predicate IsPosition(t: Tree, p: Position)
    decreases |p|
  {
    p == [] || (p[0] < |t.subs| && IsPosition(t.subs[p[0]], p[1..]))
  }

  function SubAt(t: Tree, p: Position): Tree
    requires IsPosition(t, p)
    decreases |p|
  {
    if p == [] then t else SubAt(t.subs[p[0]], p[1..])
  }

  /** The names of the sections on the way from the root to a position. */
  function NamesAt(t: Tree, p: Position): (r: Path)
    requires IsPosition(t, p)
    ensures |r| == |p|
    decreases |p|
  {
    if p == [] then [] else [t.subs[p[0]].name] + NamesAt(t.subs[p[0]], p[1..])
  }

  function ReplaceAt(t: Tree, p: Position, s: Tree): Tree
    decreases |p|
  {
    if p == [] then s
    else if p[0] < |t.subs| then t.(subs := t.subs[p[0] := ReplaceAt(t.subs[p[0]], p[1..], s)])
    else t
  }

  lemma {:induction false} PositionSnoc(t: Tree, p: Position, k: nat)
    requires IsPosition(t, p)
    ensures IsPosition(t, p + [k]) <==> k < |SubAt(t, p).subs|
    ensures k < |SubAt(t, p).subs| ==>
              SubAt(t, p + [k]) == SubAt(t, p).subs[k] &&
              NamesAt(t, p + [k]) == NamesAt(t, p) + [SubAt(t, p).subs[k].name]
    decreases |p|
  {
    if p != [] {
      assert (p + [k])[1..] == p[1..] + [k];
      PositionSnoc(t.subs[p[0]], p[1..], k);
    } else {
      assert [k][1..] == [];
      assert p + [k] == [k];
      if k < |t.subs| {
        assert IsPosition(t.subs[k], []);
      }
    }
  }

  lemma {:induction false} PositionPrefix(t: Tree, p: Position, k: nat)
    requires IsPosition(t, p + [k])
    ensures IsPosition(t, p)
    decreases |p|
  {
    if p != [] {
      assert (p + [k])[1..] == p[1..] + [k];
      PositionPrefix(t.subs[p[0]], p[1..], k);
    }
  }

  // ---------- section paths ----------

  /** `config_data_lookup_section` without creation: the position a section path leads to. */
  function FindPath(t: Tree, names: Path): (r: Option<Position>)
    decreases |names|
  {
    if names == [] then Some([])
    else
      var i := FindSub(t.subs, names[0]);
      if i == |t.subs| then None
      else
        var r := FindPath(t.subs[i], names[1..]);
        if r.None? then None else Some([i] + r.value)
  }

  /** `config_data_lookup_section` with creation: the tree in which the section path exists. */
  function CreatePath(t: Tree, names: Path): (r: Tree)
    decreases |names|
  {
    if names == [] then t
    else
      var i := FindSub(t.subs, names[0]);
      if i < |t.subs| then t.(subs := t.subs[i := CreatePath(t.subs[i], names[1..])])
      else t.(subs := t.subs + [CreatePath(Empty(names[0]), names[1..])])
  }

  lemma {:induction false} FindPathIsPosition(t: Tree, names: Path)
    requires FindPath(t, names).Some?
    ensures IsPosition(t, FindPath(t, names).value) && NamesAt(t, FindPath(t, names).value) == names
    decreases |names|
  {
    if names != [] {
      var i := FindSub(t.subs, names[0]);
      FindPathIsPosition(t.subs[i], names[1..]);
      var r := FindPath(t.subs[i], names[1..]).value;
      assert ([i] + r)[1..] == r;
    }
  }

  /** Where sibling names are unique, the names on the way to a section lead back to that section. */
  lemma {:induction false} FindPathOfNames(t: Tree, p: Position)
    requires WellFormed(t) && IsPosition(t, p)
    ensures FindPath(t, NamesAt(t, p)) == Some(p)
    decreases |p|
  {
    if p != [] {
      var names := NamesAt(t, p);
      assert names[1..] == NamesAt(t.subs[p[0]], p[1..]);
      FindSubUnique(t.subs, p[0]);
      FindPathOfNames(t.subs[p[0]], p[1..]);
      assert [p[0]] + p[1..] == p;
    }
  }

  lemma {:induction false} FindPathSnoc(t: Tree, names: Path, name: string)
    ensures FindPath(t, names).None? ==> FindPath(t, names + [name]).None?
    ensures FindPath(t, names).Some? ==>
              var p := FindPath(t, names).value;
              IsPosition(t, p) &&
              var s := SubAt(t, p);
              var j := FindSub(s.subs, name);
              FindPath(t, names + [name]) == if j < |s.subs| then Some(p + [j]) else None
    decreases |names|
  {
    if names == [] {
      var j := FindSub(t.subs, name);
      assert names + [name] == [name] && [name][1..] == [];
      if j < |t.subs| {
        assert FindPath(t.subs[j], []) == Some([]);
        assert [j] + [] == [j] == [] + [j];
      }
    } else {
      var i := FindSub(t.subs, names[0]);
      assert (names + [name])[1..] == names[1..] + [name];
      if i < |t.subs| {
        FindPathSnoc(t.subs[i], names[1..], name);
        var r := FindPath(t.subs[i], names[1..]);
        if r.Some? {
          assert ([i] + r.value)[1..] == r.value;
          var j := FindSub(SubAt(t.subs[i], r.value).subs, name);
          assert [i] + (r.value + [j]) == [i] + r.value + [j];
        }
      }
    }
  }

  lemma {:induction false} FindPathMissing(t: Tree, names: Path, k: nat)
    requires k <= |names| && FindPath(t, names[..k]).None?
    ensures FindPath(t, names).None?
    decreases |names| - k
  {
    if k == |names| {
      assert names[..k] == names;
    } else {
      FindPathSnoc(t, names[..k], names[k]);
      assert names[..k] + [names[k]] == names[..k + 1];
      FindPathMissing(t, names, k + 1);
    }
  }

  lemma {:induction false} CreatePathExists(t: Tree, names: Path)
    requires FindPath(t, names).Some?
    ensures CreatePath(t, names) == t
    decreases |names|
  {
    if names != [] {
      var i := FindSub(t.subs, names[0]);
      CreatePathExists(t.subs[i], names[1..]);
      assert t.subs[i := t.subs[i]] == t.subs;
    }
  }

  /** Creating the first missing section of a path does not change what creating the path gives. */
  lemma {:induction false} CreateStep(t: Tree, names: Path, k: nat)
    requires k < |names| && FindPath(t, names[..k]).Some?
    requires var p := FindPath(t, names[..k]).value;
             IsPosition(t, p) && FindSub(SubAt(t, p).subs, names[k]) == |SubAt(t, p).subs|
    ensures var p := FindPath(t, names[..k]).value;
            var s := SubAt(t, p);
            var t' := ReplaceAt(t, p, s.(subs := s.subs + [Empty(names[k])]));
            CreatePath(t', names) == CreatePath(t, names) && FindPath(t', names[..k + 1]) == Some(p + [|s.subs|])
    decreases |names|
  {
    var name := names[0];
    assert names[..k + 1][0] == name && names[..k + 1][1..] == names[1..][..k];
    if k == 0 {
      FindSubSnoc(t.subs, Empty(name), name);
      var r := CreatePath(Empty(name), names[1..]);
      assert (t.subs + [Empty(name)])[|t.subs| := r] == t.subs + [r];
      assert FindPath(Empty(name), names[1..][..0]) == Some([]);
      assert [] + [|t.subs|] == [|t.subs|] == [|t.subs|] + [];
    } else {
      var i := FindSub(t.subs, name);
      assert names[..k][0] == name && names[..k][1..] == names[1..][..k - 1];
      var q := FindPath(t.subs[i], names[1..][..k - 1]).value;
      assert ([i] + q)[1..] == q;
      CreateStep(t.subs[i], names[1..], k - 1);
      var s := SubAt(t.subs[i], q);
      var c := ReplaceAt(t.subs[i], q, s.(subs := s.subs + [Empty(names[k])]));
      ReplaceKeepsName(t.subs[i], q, s.(subs := s.subs + [Empty(names[k])]));
      FindSubAfter(t.subs, i, c, name);
      assert t.subs[i := c][i := CreatePath(c, names[1..])] == t.subs[i := CreatePath(c, names[1..])];
      assert [i] + (q + [|s.subs|]) == [i] + q + [|s.subs|];
    }
  }

  lemma {:induction false} ReplaceKeepsName(t: Tree, p: Position, s: Tree)
    requires IsPosition(t, p) && SubAt(t, p).name == s.name
    ensures ReplaceAt(t, p, s).name == t.name
  {
  }

  // ---------- the operations, by way of the section they change ----------

  lemma {:induction false} InsertVia(t: Tree, names: Path, prop: string, value: string)
    ensures var t' := CreatePath(t, names);
            FindPath(t', names).Some? &&
            var p := FindPath(t', names).value;
            IsPosition(t', p) &&
            var s := SubAt(t', p);
            Insert(t, names + [prop], value) ==
            if FindProp(s.entries, prop) < |s.entries| then Outcome(1, t')
            else Outcome(0, ReplaceAt(t', p, s.(entries := s.entries + [Entry(prop, value)])))
    decreases |names|
  {
    if names == [] {
      assert names + [prop] == [prop];
    } else {
      var i, name := FindSub(t.subs, names[0]), names[0];
      assert (names + [prop])[1..] == names[1..] + [prop];
      var below := if i < |t.subs| then t.subs[i] else Empty(name);
      var c := CreatePath(below, names[1..]);
      CreateKeepsName(below, names[1..]);
      InsertVia(below, names[1..], prop, value);
      if i < |t.subs| {
        FindSubAfter(t.subs, i, c, name);
      } else {
        FindSubSnoc(t.subs, c, name);
      }
      var q := FindPath(c, names[1..]).value;
      assert ([i] + q)[1..] == q;
      var t' := CreatePath(t, names);
      assert t'.subs[i] == c;
      var r := Insert(below, names[1..] + [prop], value).tree;
      assert t'.subs[i := r] == if i < |t.subs| then t.subs[i := r] else t.subs + [r];
    }
  }

  lemma {:induction false} CreateKeepsName(t: Tree, names: Path)
    ensures CreatePath(t, names).name == t.name
  {
  }

  lemma {:induction false} ChangeVia(t: Tree, names: Path, prop: string, value: string)
    ensures FindPath(t, names).None? ==>
              && Get(t, names + [prop]).None?
              && Update(t, names + [prop], value) == Outcome(1, t)
              && Delete(t, names + [prop]) == Outcome(1, t)
    ensures FindPath(t, names).Some? ==>
              var p := FindPath(t, names).value;
              IsPosition(t, p) &&
              var s := SubAt(t, p);
              var j := FindProp(s.entries, prop);
              if j == |s.entries| then
                && Get(t, names + [prop]).None?
                && Update(t, names + [prop], value) == Outcome(1, t)
                && Delete(t, names + [prop]) == Outcome(1, t)
              else
                && Get(t, names + [prop]) == Some(s.entries[j].value)
                && Update(t, names + [prop], value) ==
                   Outcome(0, ReplaceAt(t, p, s.(entries := s.entries[j := Entry(prop, value)])))
                && Delete(t, names + [prop]) ==
                   Outcome(0, ReplaceAt(t, p, s.(entries := s.entries[..j] + s.entries[j + 1..])))
    decreases |names|
  {
    if names == [] {
      assert names + [prop] == [prop];
    } else {
      var i := FindSub(t.subs, names[0]);
      assert (names + [prop])[1..] == names[1..] + [prop];
      if i < |t.subs| {
        ChangeVia(t.subs[i], names[1..], prop, value);
        assert t.subs[i := t.subs[i]] == t.subs;
        var q := FindPath(t.subs[i], names[1..]);
        if q.Some? {
          assert ([i] + q.value)[1..] == q.value;
        }
      }
    }
  }

  // ---------- preorder ----------

  function PrefixedPositions(k: nat, ps: seq<Position>): (r: seq<Position>)
    ensures |r| == |ps| && forall i | 0 <= i < |r| :: r[i] == [k] + ps[i]
  {
    if ps == [] then [] else [[k] + ps[0]] + PrefixedPositions(k, ps[1..])
  }

  /** All positions of a tree, a section before its subsections. */
  function Preorder(t: Tree): (r: seq<Position>)
    ensures r != [] && r[0] == []
    decreases t, |t.subs| + 1
  {
    [[]] + PreorderFrom(t, 0)
  }

  /** The positions in the subsections from number `k` on. */
  function PreorderFrom(t: Tree, k: nat): seq<Position>
    requires k <= |t.subs|
    decreases t, |t.subs| - k
  {
    if k == |t.subs| then [] else PrefixedPositions(k, Preorder(t.subs[k])) + PreorderFrom(t, k + 1)
  }

  /** The position that follows `p` in preorder. */
  function Successor(t: Tree, p: Position): Option<Position>
    requires IsPosition(t, p)
    decreases |p|
  {
    if p == [] then (if t.subs != [] then Some([0]) else None)
    else
      match Successor(t.subs[p[0]], p[1..])
      case Some(q) => Some([p[0]] + q)
      case None => if p[0] + 1 < |t.subs| then Some([p[0] + 1]) else None
  }

  lemma {:induction false} PreorderNext(t: Tree, i: nat)
    requires i < |Preorder(t)|
    ensures IsPosition(t, Preorder(t)[i])
    ensures Successor(t, Preorder(t)[i]) == if i + 1 < |Preorder(t)| then Some(Preorder(t)[i + 1]) else None
    decreases t, |t.subs| + 1
  {
    if i > 0 {
      PreorderFromNext(t, 0, i - 1);
    } else if t.subs != [] {
      assert Preorder(t)[1] == PreorderFrom(t, 0)[0] == [0];
    }
  }

  lemma {:induction false} PreorderFromNext(t: Tree, k: nat, i: nat)
    requires k <= |t.subs| && i < |PreorderFrom(t, k)|
    ensures var r := PreorderFrom(t, k);
            IsPosition(t, r[i]) && r[i] != [] &&
            Successor(t, r[i]) == if i + 1 < |r| then Some(r[i + 1]) else None
    decreases t, |t.subs| - k
  {
    var sub, rest := Preorder(t.subs[k]), PreorderFrom(t, k + 1);
    if i < |sub| {
      PreorderNext(t.subs[k], i);
      assert PreorderFrom(t, k)[i] == [k] + sub[i];
      assert ([k] + sub[i])[1..] == sub[i];
      if i + 1 < |sub| {
        assert PreorderFrom(t, k)[i + 1] == [k] + sub[i + 1];
      } else if k + 1 < |t.subs| {
        assert PreorderFrom(t, k)[i + 1] == rest[0] == [k + 1] + [] == [k + 1];
      } else {
        assert rest == [] && |PreorderFrom(t, k)| == |sub|;
      }
    } else {
      PreorderFromNext(t, k + 1, i - |sub|);
    }
  }

  /** Every position of the tree is in the list. */
  lemma {:induction false} PreorderComplete(t: Tree, p: Position)
    requires IsPosition(t, p)
    ensures p in Preorder(t)
    decreases t, |t.subs| + 1
  {
    if p != [] {
      PreorderFromComplete(t, 0, p);
    }
  }

  lemma {:induction false} PreorderFromComplete(t: Tree, k: nat, p: Position)
    requires IsPosition(t, p) && p != [] && k <= p[0]
    ensures p in PreorderFrom(t, k)
    decreases t, |t.subs| - k
  {
    if p[0] == k {
      PreorderComplete(t.subs[k], p[1..]);
      var sub := Preorder(t.subs[k]);
      var i :| 0 <= i < |sub| && sub[i] == p[1..];
      assert PrefixedPositions(k, sub)[i] == [k] + p[1..] == p;
      assert p in PrefixedPositions(k, sub);
    } else {
      PreorderFromComplete(t, k + 1, p);
    }
  }

  /** The order of a walk: a parent before its subsections, and siblings, with all below them, in their order. */
  predicate Before(p: Position, q: Position) {
    q != [] && (p == [] || p[0] < q[0] || (p[0] == q[0] && Before(p[1..], q[1..])))
  }

  /** Of two positions that are not the same, one comes before the other, and not the other way round. */
  lemma {:induction false} BeforeTotal(p: Position, q: Position)
    ensures p != q <==> Before(p, q) || Before(q, p)
    ensures !(Before(p, q) && Before(q, p))
    ensures Before(p, q) ==> !(q <= p)
  {
    if p != [] && q != [] && p[0] == q[0] {
      BeforeTotal(p[1..], q[1..]);
      assert p == [p[0]] + p[1..] && q == [q[0]] + q[1..];
      assert q <= p ==> q[1..] <= p[1..];
    }
  }

  lemma {:induction false} PreorderOrdered(t: Tree, i: nat, j: nat)
    requires i < j < |Preorder(t)|
    ensures Before(Preorder(t)[i], Preorder(t)[j])
    decreases t, |t.subs| + 1
  {
    if i == 0 {
      PreorderFromNext(t, 0, j - 1);
    } else {
      PreorderFromOrdered(t, 0, i - 1, j - 1);
    }
  }

  lemma {:induction false} PreorderFromOrdered(t: Tree, k: nat, i: nat, j: nat)
    requires k <= |t.subs| && i < j < |PreorderFrom(t, k)|
    ensures Before(PreorderFrom(t, k)[i], PreorderFrom(t, k)[j])
    decreases t, |t.subs| - k
  {
    var sub := Preorder(t.subs[k]);
    if j < |sub| {
      PreorderOrdered(t.subs[k], i, j);
      assert ([k] + sub[i])[1..] == sub[i] && ([k] + sub[j])[1..] == sub[j];
    } else if i < |sub| {
      PreorderFromHeads(t, k + 1, j - |sub|);
      assert PreorderFrom(t, k)[i][0] == k;
    } else {
      PreorderFromOrdered(t, k + 1, i - |sub|, j - |sub|);
    }
  }

  lemma {:induction false} PreorderFromHeads(t: Tree, k: nat, i: nat)
    requires k <= |t.subs| && i < |PreorderFrom(t, k)|
    ensures PreorderFrom(t, k)[i] != [] && PreorderFrom(t, k)[i][0] >= k
    decreases |t.subs| - k
  {
    var sub := Preorder(t.subs[k]);
    if i >= |sub| {
      PreorderFromHeads(t, k + 1, i - |sub|);
    }
  }

  /** The preorder list has every position of the tree exactly once, in the order of a walk. */
  lemma PreorderLists(t: Tree)
    ensures forall p: Position :: IsPosition(t, p) <==> p in Preorder(t)
    ensures forall i, j | 0 <= i < j < |Preorder(t)| :: Before(Preorder(t)[i], Preorder(t)[j])
  {
    forall p: Position
      ensures IsPosition(t, p) <==> p in Preorder(t)
    {
      if IsPosition(t, p) {
        PreorderComplete(t, p);
      }
      if p in Preorder(t) {
        var i :| 0 <= i < |Preorder(t)| && Preorder(t)[i] == p;
        PreorderNext(t, i);
      }
    }
    forall i, j | 0 <= i < j < |Preorder(t)|
      ensures Before(Preorder(t)[i], Preorder(t)[j])
    {
      PreorderOrdered(t, i, j);
    }
  }

  // ---------- the visitor's way to the successor ----------

  /** Climb to the nearest ancestor that has a further subsection, and go there. */
  function Climb(t: Tree, p: Position): Option<Position>
    requires IsPosition(t, p)
    decreases |p|
  {
    if p == [] then None
    else
      var q, k := p[..|p| - 1], p[|p| - 1];
      assert p == q + [k];
      PositionPrefix(t, q, k);
      if k + 1 < |SubAt(t, q).subs| then Some(q + [k + 1]) else Climb(t, q)
  }

  lemma {:induction false} ClimbBelow(t: Tree, k: nat, p: Position)
    requires k < |t.subs| && IsPosition(t.subs[k], p)
    ensures IsPosition(t, [k] + p)
    ensures Climb(t, [k] + p) ==
            match Climb(t.subs[k], p)
            case Some(r) => Some([k] + r)
            case None => if k + 1 < |t.subs| then Some([k + 1]) else None
    decreases |p|
  {
    var kp := [k] + p;
    assert kp[1..] == p;
    if p == [] {
      assert kp[..0] == [] && [] + [k + 1] == [k + 1];
    } else {
      var q, l := p[..|p| - 1], p[|p| - 1];
      assert p == q + [l];
      PositionPrefix(t.subs[k], q, l);
      assert kp[..|kp| - 1] == [k] + q;
      assert ([k] + q)[1..] == q;
      ClimbBelow(t, k, q);
      assert [k] + q + [l + 1] == [k] + (q + [l + 1]);
    }
  }

  /** Going to the first subsection, or else climbing, leads to the successor in preorder. */
  lemma {:induction false} ClimbIsSuccessor(t: Tree, p: Position)
    requires IsPosition(t, p)
    ensures Successor(t, p) == if SubAt(t, p).subs != [] then Some(p + [0]) else Climb(t, p)
    decreases |p|
  {
    if p == [] {
      assert [] + [0] == [0];
    } else {
      ClimbIsSuccessor(t.subs[p[0]], p[1..]);
      ClimbBelow(t, p[0], p[1..]);
      assert [p[0]] + p[1..] == p;
      assert [p[0]] + (p[1..] + [0]) == p + [0];
    }
  }
}
