/**
  The config tree of src/config/config-data.c in the heap: sections with parent pointers and lists
  that are updated in place. Two ghost fields say what a section stands for and where it is.
 */
module ConfigDatas {
  import opened Wrappers
  import opened Text
  import opened KeyLanguage
  import opened KeyInverses
  import opened ConfigTree
  import opened TreePaths
  import opened ConfigRun
  import opened ConfigFile
  import KeyScanner

  /** The fields of a section at one moment. */
  datatype Shape = Shape(section: Option<string>, parent: ConfigData?, entries: seq<Entry>,
                         subsections: seq<ConfigData>, tree: Tree, position: Position)

  type Heap = map<ConfigData, Shape>

  // ---------- the invariant, on the fields at one moment ----------

  /** Section `n` stands for `t`, given what its subsections stand for. */
  ghost predicate Down(h: Heap, n: ConfigData, t: Tree)
    requires n in h
  {
    && t.name == h[n].section.GetOr("")
    && t.entries == h[n].entries
    && |t.subs| == |h[n].subsections|
    && forall i {:trigger h[n].subsections[i]} | 0 <= i < |h[n].subsections| ::
         var c := h[n].subsections[i];
         c in h && h[c].parent == n && h[c].position == h[n].position + [i] && h[c].tree == t.subs[i]
  }

  /** Section `n` is where its position says, seen from its parent; only the root has no parent and no name. */
  ghost predicate Up(h: Heap, n: ConfigData)
    requires n in h
  {
    && (h[n].parent == null <==> h[n].position == [])
    && (h[n].section == None <==> h[n].position == [])
    && (h[n].parent != null ==>
          var p, k := h[n].parent, h[n].position[|h[n].position| - 1];
          && p in h
          && h[n].position == h[p].position + [k]
          && k < |h[p].subsections|
          && h[p].subsections[k] == n)
  }

  /** All text is that of C strings, without NUL. */
  ghost predicate Clean(h: Heap, n: ConfigData)
    requires n in h
  {
    && CString(h[n].section.GetOr(""))
    && forall i | 0 <= i < |h[n].entries| :: CString(h[n].entries[i].prop) && CString(h[n].entries[i].value)
  }

  ghost predicate Linked(h: Heap, n: ConfigData)
    requires n in h
  {
    Down(h, n, h[n].tree) && Up(h, n) && Clean(h, n)
  }

  ghost predicate AllLinked(h: Heap, root: ConfigData) {
    && root in h
    && h[root].position == []
    && (forall n {:trigger Linked(h, n)} | n in h :: Linked(h, n))
    && (forall n | n in h && h[n].position == [] :: n == root)
  }

  /** A position identifies a section. */
  lemma {:induction false} Unique(h: Heap, root: ConfigData, n: ConfigData, m: ConfigData)
    requires AllLinked(h, root) && n in h && m in h && h[n].position == h[m].position
    ensures n == m
    decreases |h[n].position|
  {
    assert Linked(h, n) && Linked(h, m);
    if h[n].position != [] {
      var p, q := h[n].position, h[m].position;
      assert h[h[n].parent].position == p[..|p| - 1] && h[h[m].parent].position == q[..|q| - 1];
      Unique(h, root, h[n].parent, h[m].parent);
    }
  }

  /** Every section stands for the subtree at its position. */
  lemma {:induction false} LocatedIn(h: Heap, root: ConfigData, n: ConfigData)
    requires AllLinked(h, root) && n in h
    ensures IsPosition(h[root].tree, h[n].position) && SubAt(h[root].tree, h[n].position) == h[n].tree
    decreases |h[n].position|
  {
    assert Linked(h, n);
    if h[n].position != [] {
      var p := h[n].parent;
      assert Linked(h, p) && |h[p].position| < |h[n].position|;
      LocatedIn(h, root, p);
      PositionSnoc(h[root].tree, h[p].position, h[n].position[|h[n].position| - 1]);
    }
  }

  // ---------- changing one section ----------

  /** What the tree at position `p` becomes when the one at `q` is replaced by `t`. */
  ghost function Refreshed(was: Tree, p: Position, q: Position, t: Tree): Tree {
    if p <= q then ReplaceAt(was, q[|p|..], t) else was
  }

  lemma RefreshedSub(was: Tree, p: Position, q: Position, t: Tree, i: nat)
    ensures p == q ==> Refreshed(was, p, q, t) == t
    ensures p != q ==>
              var r := Refreshed(was, p, q, t);
              && r.name == was.name && r.entries == was.entries && |r.subs| == |was.subs|
              && (i < |was.subs| ==> r.subs[i] == Refreshed(was.subs[i], p + [i], q, t))
    ensures p == q && i < |t.subs| ==> t.subs[i] == Refreshed(t.subs[i], p + [i], q, t)
  {
    PrefixSnoc(p, q, i);
    if p < q {
      assert q[|p|..][1..] == q[|p| + 1..];
    }
  }

  /** `p + [i]` leads on towards `q` exactly if `p` does and `i` is the next step. */
  lemma PrefixSnoc(p: Position, q: Position, i: nat)
    ensures p + [i] <= q <==> p < q && q[|p|] == i
  {
    if p < q && q[|p|] == i {
      assert forall j | 0 <= j < |p| :: p[j] == q[j];
    }
    if p + [i] <= q {
      assert q[|p|] == (p + [i])[|p|];
      assert forall j | 0 <= j < |p| :: p[j] == (p + [i])[j] == q[j];
    }
  }

  /** Bring all trees up to date after the lists of `n` have changed so that it stands for `t`. */
  ghost function Refresh(h: Heap, n: ConfigData, t: Tree): Heap
    requires n in h
  {
    map m: ConfigData | m in h :: h[m].(tree := Refreshed(h[m].tree, h[m].position, h[n].position, t))
  }

  /** All links are right, except that `n` stands for `t` and the trees do not say so yet. */
  ghost predicate Stale(h: Heap, root: ConfigData, n: ConfigData, t: Tree) {
    && root in h && n in h
    && h[root].position == []
    && (forall m {:trigger Up(h, m)} | m in h :: Up(h, m) && Clean(h, m) && Down(h, m, if m == n then t else h[m].tree))
    && (forall m | m in h && h[m].position == [] :: m == root)
    && (forall m | m in h && h[m].position == h[n].position :: m == n)
  }

  lemma RefreshDown(h: Heap, root: ConfigData, n: ConfigData, t: Tree, m: ConfigData)
    requires Stale(h, root, n, t) && m in h
    ensures var r := Refresh(h, n, t); Down(r, m, r[m].tree)
  {
    var r := Refresh(h, n, t);
    assert Up(h, m);
    RefreshedSub(h[m].tree, h[m].position, h[n].position, t, 0);
    forall i | 0 <= i < |r[m].subsections|
      ensures var c := r[m].subsections[i];
              c in r && r[c].parent == m && r[c].position == r[m].position + [i] && r[c].tree == r[m].tree.subs[i]
    {
      assert h[m].subsections[i] in h;
      RefreshedSub(h[m].tree, h[m].position, h[n].position, t, i);
    }
  }

  lemma RefreshLinks(h: Heap, root: ConfigData, n: ConfigData, t: Tree)
    requires Stale(h, root, n, t)
    ensures AllLinked(Refresh(h, n, t), root)
    ensures Refresh(h, n, t)[root].tree == ReplaceAt(h[root].tree, h[n].position, t)
  {
    var r := Refresh(h, n, t);
    forall m | m in r
      ensures Linked(r, m)
    {
      assert Up(h, m);
      RefreshDown(h, root, n, t, m);
    }
    assert h[n].position[0..] == h[n].position;
  }

  /** The fields after `added` has been appended to the subsections of `n`. */
  ghost function Grown(h: Heap, n: ConfigData, added: ConfigData, name: string): Heap
    requires n in h
  {
    h[n := h[n].(subsections := h[n].subsections + [added])]
     [added := Shape(Some(name), n, [], [], Empty(name), h[n].position + [|h[n].subsections|])]
  }

  lemma GrownIsStale(h: Heap, root: ConfigData, n: ConfigData, added: ConfigData, name: string)
    requires AllLinked(h, root) && n in h && added !in h && CString(name)
    ensures Stale(Grown(h, n, added, name), root, n, h[n].tree.(subs := h[n].tree.subs + [Empty(name)]))
  {
    var g, t := Grown(h, n, added, name), h[n].tree.(subs := h[n].tree.subs + [Empty(name)]);
    assert Linked(h, n);
    GrownAdded(h, n, added, name);
    forall m | m in g
      ensures Up(g, m) && Clean(g, m) && Down(g, m, if m == n then t else g[m].tree)
      ensures g[m].position == [] ==> m == root
      ensures g[m].position == g[n].position ==> m == n
    {
      if m != added {
        GrownNode(h, root, n, added, name, m);
      }
    }
  }

  lemma GrownNode(h: Heap, root: ConfigData, n: ConfigData, added: ConfigData, name: string, m: ConfigData)
    requires AllLinked(h, root) && n in h && added !in h && m in h
    ensures var g := Grown(h, n, added, name);
            var t := h[n].tree.(subs := h[n].tree.subs + [Empty(name)]);
            && Up(g, m) && Clean(g, m) && Down(g, m, if m == n then t else g[m].tree)
            && (g[m].position == [] ==> m == root)
            && (g[m].position == g[n].position ==> m == n)
  {
    assert Linked(h, n) && Linked(h, m);
    GrownUp(h, n, added, name, m);
    GrownDown(h, n, added, name, m);
    if h[m].position == h[n].position {
      Unique(h, root, m, n);
    }
  }

  lemma GrownAdded(h: Heap, n: ConfigData, added: ConfigData, name: string)
    requires n in h && added !in h && CString(name)
    requires Linked(h, n)
    ensures var g := Grown(h, n, added, name);
            Up(g, added) && Clean(g, added) && Down(g, added, g[added].tree) &&
            g[added].position != [] && g[added].position != g[n].position
  {
    var g := Grown(h, n, added, name);
    assert |g[added].position| == |g[n].position| + 1;
    assert g[n].subsections[|h[n].subsections|] == added;
  }

  lemma GrownDown(h: Heap, n: ConfigData, added: ConfigData, name: string, m: ConfigData)
    requires n in h && added !in h && m in h && Linked(h, m)
    ensures var g := Grown(h, n, added, name);
            Down(g, m, if m == n then h[n].tree.(subs := h[n].tree.subs + [Empty(name)]) else g[m].tree)
  {
    var g := Grown(h, n, added, name);
    forall i | 0 <= i < |h[m].subsections|
      ensures g[m].subsections[i] == h[m].subsections[i] && h[m].subsections[i] in h
    {
    }
  }

  lemma GrownUp(h: Heap, n: ConfigData, added: ConfigData, name: string, m: ConfigData)
    requires n in h && added !in h && m in h && Linked(h, m) && Linked(h, n)
    ensures Up(Grown(h, n, added, name), m)
  {
    var g, p := Grown(h, n, added, name), h[m].parent;
    if p != null {
      assert p == n ==> h[p].subsections <= g[p].subsections;
    }
  }

  lemma EntriesStale(h: Heap, root: ConfigData, n: ConfigData, es: seq<Entry>)
    requires AllLinked(h, root) && n in h
    requires forall i | 0 <= i < |es| :: CString(es[i].prop) && CString(es[i].value)
    ensures Stale(h[n := h[n].(entries := es)], root, n, h[n].tree.(entries := es))
  {
    hide Up, Clean, Down, Linked;
    var g, t := h[n := h[n].(entries := es)], h[n].tree.(entries := es);
    forall m | m in g
      ensures Up(g, m) && Clean(g, m) && Down(g, m, if m == n then t else g[m].tree)
      ensures g[m].position == [] ==> m == root
      ensures g[m].position == g[n].position ==> m == n
    {
      EntriesNode(h, root, n, es, m);
    }
  }

  lemma EntriesNode(h: Heap, root: ConfigData, n: ConfigData, es: seq<Entry>, m: ConfigData)
    requires AllLinked(h, root) && n in h && m in h
    requires forall i | 0 <= i < |es| :: CString(es[i].prop) && CString(es[i].value)
    ensures var g, t := h[n := h[n].(entries := es)], h[n].tree.(entries := es);
            && Up(g, m) && Clean(g, m) && Down(g, m, if m == n then t else g[m].tree)
            && (g[m].position == [] ==> m == root)
            && (g[m].position == g[n].position ==> m == n)
  {
    var g := h[n := h[n].(entries := es)];
    assert Linked(h, m);
    if h[m].position == h[n].position {
      Unique(h, root, m, n);
    }
    assert forall k | k in h :: g[k].subsections == h[k].subsections && g[k].position == h[k].position;
  }

  // ---------- the sections in the heap ----------

  class ConfigData {
    var section: Option<string>
    var parent: ConfigData?
    var entries: seq<Entry>
    var subsections: seq<ConfigData>

    ghost var tree: Tree
    ghost var position: Position
    ghost var Repr: set<ConfigData>  // of the root: all sections

    /** The root, or an unlinked section. */
    constructor (section: Option<string>)
      requires CString(section.GetOr(""))
      ensures this.section == section && parent == null && entries == [] && subsections == []
      ensures tree == Empty(section.GetOr("")) && position == [] && Repr == {this}
      ensures section == None ==> Valid()
    {
      this.section, parent, entries, subsections := section, null, [], [];
      tree, position, Repr := Empty(section.GetOr("")), [], {this};
      new;
      if section == None {
        assert Linked(Fields(), this);
      }
    }

    ghost function Now(): Shape
      reads this
    {
      Shape(section, parent, entries, subsections, tree, position)
    }

    /** The fields of all sections of this root. */
    ghost function Fields(): Heap
      reads this, Repr
    {
      map n: ConfigData | n in Repr :: n.Now()
    }

    ghost predicate IsLinked()
      reads this, Repr
    {
      AllLinked(Fields(), this)
    }

    /** The invariant of a root: links and ghost fields agree everywhere, and siblings are unique. */
    ghost predicate Valid()
      reads this, Repr
    {
      IsLinked() && WellFormed(tree)
    }

    /** The invariant at one section, in terms of its fields. */
    lemma AtNode(n: ConfigData)
      requires IsLinked() && n in Repr
      ensures n.tree.name == n.section.GetOr("") && n.tree.entries == n.entries
      ensures |n.tree.subs| == |n.subsections|
      ensures forall i | 0 <= i < |n.subsections| ::
                n.subsections[i] in Repr && n.subsections[i].parent == n &&
                n.subsections[i].position == n.position + [i] && n.subsections[i].tree == n.tree.subs[i] &&
                n.subsections[i].section == Some(n.tree.subs[i].name)
      ensures n.parent == null <==> n.position == []
      ensures n.section == None <==> n.position == []
      ensures n.parent != null ==>
                n.parent in Repr && |n.position| == |n.parent.position| + 1 &&
                n.position == n.parent.position + [n.position[|n.position| - 1]] &&
                n.position[|n.position| - 1] < |n.parent.subsections| &&
                n.parent.subsections[n.position[|n.position| - 1]] == n
      ensures CString(n.section.GetOr(""))
      ensures forall i | 0 <= i < |n.entries| :: CString(n.entries[i].prop) && CString(n.entries[i].value)
    {
      var h := Fields();
      assert Linked(h, n);
      assert h[n] == n.Now();
      forall i | 0 <= i < |n.subsections|
        ensures n.subsections[i] in Repr && n.subsections[i].parent == n &&
                n.subsections[i].position == n.position + [i] && n.subsections[i].tree == n.tree.subs[i] &&
                n.subsections[i].section == Some(n.tree.subs[i].name)
      {
        var c := h[n].subsections[i];
        assert Linked(h, c);
        assert h[c] == c.Now();
      }
      if n.parent != null {
        assert h[n.parent] == n.parent.Now();
      }
    }

    /** Every section stands for the subtree at its position. */
    lemma Located(n: ConfigData)
      requires IsLinked() && n in Repr
      ensures IsPosition(tree, n.position) && SubAt(tree, n.position) == n.tree
    {
      LocatedIn(Fields(), this, n);
    }

    /** Append a new, empty section with the given name to the subsections of `n`. */
    method AddSubsection(n: ConfigData, name: string) returns (added: ConfigData)
      requires IsLinked() && n in Repr && CString(name)
      modifies Repr
      ensures IsLinked() && fresh(added) && Repr == old(Repr) + {added}
      ensures added.position == n.position + [|old(n.tree).subs|] && n.position == old(n.position)
      ensures tree == ReplaceAt(old(tree), n.position,
                                old(n.tree).(subs := old(n.tree).subs + [Empty(name)]))
    {
      hide AllLinked, Linked, Stale, ReplaceAt, Grown;
      ghost var h, t := Fields(), n.tree.(subs := n.tree.subs + [Empty(name)]);
      AtNode(n);
      RootIn();
      added := Append(n, name);
      GrownIsStale(h, this, n, added, name);
      RefreshTrees(Grown(h, n, added, name), n, t);
    }

    lemma RootIn()
      requires IsLinked()
      ensures this in Repr && position == []
    {
    }

    /** The new section with its links; the ghost trees above it are not yet up to date. */
    method Append(n: ConfigData, name: string) returns (added: ConfigData)
      requires n in Repr && this in Repr && CString(name)
      modifies this`Repr, n`subsections
      ensures fresh(added) && Repr == old(Repr) + {added}
      ensures Fields() == Grown(old(Fields()), n, added, name)
      ensures added.position == n.position + [|old(n.subsections)|]
    {
      added := new ConfigData(Some(name));
      added.parent := n;
      added.position := n.position + [|n.subsections|];
      n.subsections := n.subsections + [added];
      Repr := Repr + {added};
    }

    ghost method RefreshTrees(g: Heap, n: ConfigData, t: Tree)
      requires Fields() == g && Stale(g, this, n, t) && this in Repr
      modifies Repr`tree
      ensures Fields() == Refresh(g, n, t) && IsLinked()
      ensures tree == ReplaceAt(old(tree), n.position, t)
    {
      forall m | m in Repr {
        m.tree := Refreshed(m.tree, m.position, n.position, t);
      }
      assert Fields() == Refresh(g, n, t);
      RefreshLinks(g, this, n, t);
    }

    /** Replace the property list of a section. */
    method SetEntries(n: ConfigData, es: seq<Entry>)
      requires IsLinked() && n in Repr
      requires forall i | 0 <= i < |es| :: CString(es[i].prop) && CString(es[i].value)
      modifies Repr
      ensures IsLinked() && Repr == old(Repr) && n.position == old(n.position)
      ensures tree == ReplaceAt(old(tree), n.position, old(n.tree).(entries := es))
    {
      ghost var h, t := Fields(), n.tree.(entries := es);
      EntriesStale(h, this, n, es);
      n.entries := es;
      ghost var g := h[n := h[n].(entries := es)];
      assert Fields() == g;
      RefreshTrees(g, n, t);
    }

    /** The section a path leads to, or null. With `create`, missing sections are created. */
    method LookupSection(names: Path, create: bool) returns (current: ConfigData?)
      requires IsLinked() && AllClean(names)
      modifies if create then Repr else {}
      ensures IsLinked() && old(Repr) <= Repr && fresh(Repr - old(Repr))
      ensures create ==> tree == CreatePath(old(tree), names)
      ensures current == null <==> FindPath(tree, names).None?
      ensures current != null ==> current in Repr && FindPath(tree, names) == Some(current.position)
      ensures create ==> current != null
    {
      hide IsLinked, Fields, AllLinked;
      RootIn();
      current := this;
      for i := 0 to |names|
        invariant IsLinked() && old(Repr) <= Repr && fresh(Repr - old(Repr))
        invariant !create ==> Repr == old(Repr) && tree == old(tree)
        invariant create ==> CreatePath(tree, names) == CreatePath(old(tree), names)
        invariant current != null && current in Repr
        invariant FindPath(tree, names[..i]) == Some(current.position)
      {
        current := StepInto(current, names, i, create);
        if current == null {
          return;
        }
      }
      assert names[..|names|] == names;
      if create {
        CreatePathExists(tree, names);
      }
    }

    /** One round of `LookupSection`: the subsection for the next component, created if need be. */
    method StepInto(current: ConfigData, names: Path, i: nat, create: bool) returns (next: ConfigData?)
      requires IsLinked() && AllClean(names) && i < |names|
      requires current in Repr && FindPath(tree, names[..i]) == Some(current.position)
      modifies if create then Repr else {}
      ensures IsLinked() && old(Repr) <= Repr && fresh(Repr - old(Repr))
      ensures create ==> next != null && CreatePath(tree, names) == CreatePath(old(tree), names)
      ensures next == null ==> FindPath(tree, names).None?
      ensures next != null ==> next in Repr && FindPath(tree, names[..i + 1]) == Some(next.position)
    {
      hide CreatePath, FindPath, AllLinked;
      var component := names[i];
      Located(current);
      AtNode(current);
      FindPathSnoc(tree, names[..i], component);
      assert names[..i] + [component] == names[..i + 1];
      var j := FindSubsection(current, component);
      // no subsection has the name
      if j < |current.subsections| {
        return current.subsections[j];
      }
      if !create {
        FindPathMissing(tree, names, i + 1);
        return null;
      }
      CreateStep(tree, names, i);
      next := AddSubsection(current, component);
    }

    /** The inner loop of `LookupSection`: the first subsection with the given name. */
    method FindSubsection(n: ConfigData, name: string) returns (j: nat)
      requires IsLinked() && n in Repr
      ensures j == FindSub(n.tree.subs, name) && |n.tree.subs| == |n.subsections|
    {
      AtNode(n);
      j := 0;
      while j < |n.subsections|
        invariant j <= |n.subsections| == |n.tree.subs|
        invariant forall k | 0 <= k < j :: n.tree.subs[k].name != name
      {
        var sub := n.subsections[j];
        AtNode(sub);
        assert sub.tree == n.tree.subs[j];
        if sub.section.value == name {
          return;
        }
        j := j + 1;
      }
    }

    /** `config_data_has_prop`: the index of a property, or the number of properties. */
    method HasProp(prop: string) returns (i: nat)
      ensures i == FindProp(entries, prop)
    {
      i := 0;
      while i < |entries| && entries[i].prop != prop
        invariant i <= |entries| && forall k | 0 <= k < i :: entries[k].prop != prop
      {
        i := i + 1;
      }
    }

    // ---------- the operations ----------

    /** `config_data_insert_internal`; the last component is the property. */
    method InsertInternal(components: Path, value: string) returns (status: int)
      requires Valid() && components != [] && AllClean(components) && CString(value)
      modifies Repr
      ensures Valid() && fresh(Repr - old(Repr))
      ensures Outcome(status, tree) == Insert(old(tree), components, value)
    {
      var names, prop := components[..|components| - 1], components[|components| - 1];
      assert names + [prop] == components;
      InsertVia(tree, names, prop, value);
      InsertWellFormed(tree, components, value);
      var current := LookupSection(names, true);
      Located(current);
      AtNode(current);
      var i := current.HasProp(prop);
      if i < |current.entries| {
        return 1;
      }
      SetEntries(current, current.entries + [Entry(prop, value)]);
      return 0;
    }

    method UpdateInternal(components: Path, value: string) returns (status: int)
      requires Valid() && components != [] && AllClean(components) && CString(value)
      modifies Repr
      ensures Valid() && Repr == old(Repr)
      ensures Outcome(status, tree) == Update(old(tree), components, value)
    {
      var names, prop := components[..|components| - 1], components[|components| - 1];
      assert names + [prop] == components;
      ChangeVia(tree, names, prop, value);
      UpdateWellFormed(tree, components, value);
      var current := LookupSection(names, false);
      if current == null {
        return 1;
      }
      Located(current);
      AtNode(current);
      var i := current.HasProp(prop);
      if i == |current.entries| {
        return 1;
      }
      SetEntries(current, current.entries[i := Entry(prop, value)]);
      return 0;
    }

    method DeleteInternal(components: Path) returns (status: int)
      requires Valid() && components != [] && AllClean(components)
      modifies Repr
      ensures Valid() && Repr == old(Repr)
      ensures Outcome(status, tree) == Delete(old(tree), components)
    {
      hide AllLinked, Delete, Get, FindPath, ReplaceAt, WellFormed;
      var names, prop := components[..|components| - 1], components[|components| - 1];
      assert names + [prop] == components;
      ChangeVia(tree, names, prop, "");
      DeleteWellFormed(tree, components);
      var current := LookupSection(names, false);
      if current == null {
        return 1;
      }
      Located(current);
      AtNode(current);
      var i := current.HasProp(prop);
      if i == |current.entries| {
        return 1;
      }
      SetEntries(current, current.entries[..i] + current.entries[i + 1..]);
      return 0;
    }

    method FindInternal(components: Path) returns (value: Option<string>)
      requires Valid() && components != [] && AllClean(components)
      ensures value == Get(tree, components)
    {
      var names, prop := components[..|components| - 1], components[|components| - 1];
      assert names + [prop] == components;
      ChangeVia(tree, names, prop, "");
      var current := LookupSection(names, false);
      if current == null {
        return None;
      }
      Located(current);
      AtNode(current);
      var i := current.HasProp(prop);
      if i == |current.entries| {
        return None;
      }
      return Some(current.entries[i].value);
    }

    method InsertAtKey(key: string, value: string) returns (status: int)
      requires Valid() && CString(key) && CString(value)
      modifies Repr
      ensures Valid() && fresh(Repr - old(Repr))
      ensures Outcome(status, tree) == InsertKey(old(tree), key, value)
    {
      var invalid, components := KeyScanner.IsolateKey(key, []);
      if invalid != 0 {
        return -1;
      }
      assert components == Isolate(key).value;
      IsolateClean(key);
      status := InsertInternal(components, value);
    }

    method UpdateAtKey(key: string, value: string) returns (status: int)
      requires Valid() && CString(key) && CString(value)
      modifies Repr
      ensures Valid() && Repr == old(Repr)
      ensures Outcome(status, tree) == UpdateKey(old(tree), key, value)
    {
      var invalid, components := KeyScanner.IsolateKey(key, []);
      if invalid != 0 {
        return -1;
      }
      assert components == Isolate(key).value;
      IsolateClean(key);
      status := UpdateInternal(components, value);
    }

    method DeleteAtKey(key: string) returns (status: int)
      requires Valid() && CString(key)
      modifies Repr
      ensures Valid() && Repr == old(Repr)
      ensures Outcome(status, tree) == DeleteKey(old(tree), key)
    {
      var invalid, components := KeyScanner.IsolateKey(key, []);
      if invalid != 0 {
        return -1;
      }
      assert components == Isolate(key).value;
      IsolateClean(key);
      status := DeleteInternal(components);
    }

    method FindAtKey(key: string) returns (value: Option<string>)
      requires Valid() && CString(key)
      ensures value == FindKey(tree, key)
    {
      var invalid, components := KeyScanner.IsolateKey(key, []);
      if invalid != 0 {
        return None;
      }
      assert components == Isolate(key).value;
      IsolateClean(key);
      value := FindInternal(components);
    }

    // ---------- from a section back to its key ----------

    /** The names of the sections from the root down to `n`. */
    ghost function Names(n: ConfigData): Path
      requires IsLinked() && n in Repr
      reads this, Repr
    {
      Located(n);
      NamesAt(tree, n.position)
    }

    /** The root has no name, and the names of another section are those of its parent and its own. */
    lemma NamesStep(n: ConfigData)
      requires IsLinked() && n in Repr
      ensures n.parent == null ==> n.section == None && Names(n) == []
      ensures n.parent != null ==> n.parent in Repr && |n.parent.position| < |n.position| && n.section.Some? &&
                                   Names(n) == Names(n.parent) + [n.section.value]
    {
      Located(n);
      AtNode(n);
      if n.parent != null {
        AtNode(n.parent);
        Located(n.parent);
        PositionSnoc(tree, n.parent.position, n.position[|n.position| - 1]);
      }
    }

    /** `config_data_get_section_key`: collect the names up to the root and merge them into a key. */
    method GetSectionKey(n: ConfigData) returns (status: int, key: string)
      requires IsLinked() && n in Repr
      ensures status == if AllGood(Names(n)) then 0 else 1
      ensures key == if Names(n) != [] && status == 0 then Join(Names(n)) else ""
    {
      var sections: Path := [];
      var current: ConfigData? := n;
      ghost var above := Names(n);
      while current != null
        invariant current != null ==> current in Repr && above == Names(current)
        invariant above + sections == Names(n) && (current == null ==> above == [])
        invariant AllClean(sections)
        decreases if current == null then 0 else 1 + |current.position|
      {
        NamesStep(current);
        AtNode(current);
        if current.section.Some? {
          above := Names(current.parent);
          MoveBack(above, current.section.value, sections);
          sections := [current.section.value] + sections;
        }
        current := current.parent;
      }
      assert sections == Names(n);
      if sections != [] {
        var invalid, merged := KeyScanner.MergeKey(sections, "");
        if invalid != 0 {
          return 1, "";
        }
        return 0, merged;
      }
      return 0, "";
    }

    /**
      The key of a section leads back to it: if the names on the way to it are good, isolating the merged
      key gives these names, and looking them up from the root finds this very section.
     */
    lemma SectionKeyLeadsBack(n: ConfigData, found: ConfigData)
      requires Valid() && n in Repr && n != this && found in Repr
      ensures Merge(Names(n)).Some? <==> AllGood(Names(n))
      ensures AllGood(Names(n)) ==> Isolate(Join(Names(n))) == Some(Names(n))
      ensures FindPath(tree, Names(n)) == Some(found.position) <==> found == n
    {
      Located(n);
      FindPathOfNames(tree, n.position);
      MergeIsolate(Names(n));
      AtNode(this);
      if n.position == [] {
        Unique(Fields(), this, n, this);
      }
      if found.position == n.position {
        Unique(Fields(), this, found, n);
      }
    }
  }

  lemma MoveBack(a: Path, x: string, b: Path)
    ensures a + [x] + b == a + ([x] + b)
  {
  }

  predicate AllClean(ss: seq<string>) {
    forall s | s in ss :: CString(s)
  }

  /** The components of a C string are C strings. */
  lemma IsolateClean(key: string)
    requires CString(key) && ValidKey(key)
    ensures AllClean(Isolate(key).value)
  {
    ComponentsClean(key, 0);
    DecodeAllClean(Components(key, 0).value);
  }

  lemma {:induction false} ComponentsClean(key: string, i: nat)
    requires i <= |key| && CString(key) && Components(key, i).Some?
    ensures AllClean(Components(key, i).value)
    decreases |key| - i
  {
    var e := ComponentEnd(key, i);
    if e < |key| {
      ComponentsClean(key, e + 1);
    }
  }

  lemma {:induction false} UnescapeClean(s: string)
    requires CString(s)
    ensures CString(Unescape(s))
    decreases |s|
  {
    if s == "" {
    } else if s[0] == '\\' {
      if |s| > 1 {
        UnescapeClean(s[2..]);
      }
    } else {
      UnescapeClean(s[1..]);
    }
  }

  lemma {:induction false} DecodeAllClean(texts: seq<string>)
    requires AllClean(texts)
    ensures AllClean(DecodeAll(texts))
  {
    if texts != [] {
      var s := texts[0];
      assert s in texts;
      UnescapeClean(s);
      if |s| >= 2 && s[0] == '"' {
        UnescapeClean(s[1..|s| - 1]);
      }
      DecodeAllClean(texts[1..]);
    }
  }
}
