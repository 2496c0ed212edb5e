/**
  The section tree of src/config/config-data.c as a value, its operations, and the finite map from
  component paths to values that it stands for.
 */
module ConfigTree {
  import opened Wrappers

  datatype Entry = Entry(prop: string, value: string)

  /** A section with its properties and subsections, in order. The name of the root is not used. */
  datatype Tree = Tree(name: string, entries: seq<Entry>, subs: seq<Tree>)

  type Path = seq<string>

  function Empty(name: string): Tree {
    Tree(name, [], [])
  }

  // ---------- lookup ----------

  /** Index of the first subsection with the given name, or the number of subsections. */
  function FindSub(subs: seq<Tree>, name: string): (i: nat)
    ensures i <= |subs|
    ensures i < |subs| ==> subs[i].name == name
    ensures forall j | 0 <= j < i :: subs[j].name != name
  {
    if subs == [] || subs[0].name == name then 0 else 1 + FindSub(subs[1..], name)
  }

  /** Index of the first entry for the given property, or the number of entries. */
  function FindProp(entries: seq<Entry>, prop: string): (i: nat)
    ensures i <= |entries|
    ensures i < |entries| ==> entries[i].prop == prop
    ensures forall j | 0 <= j < i :: entries[j].prop != prop
  {
    if entries == [] || entries[0].prop == prop then 0 else 1 + FindProp(entries[1..], prop)
  }

  /** `config_data_find`: the value at a path of sections ending in a property. */
  function Get(t: Tree, path: Path): Option<string>
    requires path != []
    decreases |path|
  {
    if |path| == 1 then
      var i := FindProp(t.entries, path[0]);
      if i < |t.entries| then Some(t.entries[i].value) else None
    else
      var i := FindSub(t.subs, path[0]);
      if i < |t.subs| then Get(t.subs[i], path[1..]) else None
  }

  /** What an operation returns: 0 on success, 1 if the property is, or is not, there already. */
  datatype Outcome = Outcome(status: int, tree: Tree)

  /** `config_data_insert`: create missing sections and append the property, unless it exists. */
  function Insert(t: Tree, path: Path, value: string): Outcome
    requires path != []
    decreases |path|
  {
    if |path| == 1 then
      if FindProp(t.entries, path[0]) < |t.entries| then Outcome(1, t)
      else Outcome(0, t.(entries := t.entries + [Entry(path[0], value)]))
    else
      var i := FindSub(t.subs, path[0]);
      if i < |t.subs| then
        var r := Insert(t.subs[i], path[1..], value);
        Outcome(r.status, t.(subs := t.subs[i := r.tree]))
      else
        var r := Insert(Empty(path[0]), path[1..], value);
        Outcome(r.status, t.(subs := t.subs + [r.tree]))
  }

  /** `config_data_update`: replace the value of an existing property. */
  function Update(t: Tree, path: Path, value: string): Outcome
    requires path != []
    decreases |path|
  {
    if |path| == 1 then
      var i := FindProp(t.entries, path[0]);
      if i < |t.entries| then Outcome(0, t.(entries := t.entries[i := Entry(path[0], value)])) else Outcome(1, t)
    else
      var i := FindSub(t.subs, path[0]);
      if i < |t.subs| then
        var r := Update(t.subs[i], path[1..], value);
        Outcome(r.status, t.(subs := t.subs[i := r.tree]))
      else Outcome(1, t)
  }

  /** `config_data_delete`: remove an existing property; sections stay, even if they become empty. */
  function Delete(t: Tree, path: Path): Outcome
    requires path != []
    decreases |path|
  {
    if |path| == 1 then
      var i := FindProp(t.entries, path[0]);
      if i < |t.entries| then Outcome(0, t.(entries := t.entries[..i] + t.entries[i + 1..])) else Outcome(1, t)
    else
      var i := FindSub(t.subs, path[0]);
      if i < |t.subs| then
        var r := Delete(t.subs[i], path[1..]);
        Outcome(r.status, t.(subs := t.subs[i := r.tree]))
      else Outcome(1, t)
  }

  // ---------- invariant: siblings are unique ----------

  ghost predicate UniqueProps(entries: seq<Entry>) {
    forall i, j | 0 <= i < j < |entries| :: entries[i].prop != entries[j].prop
  }

  ghost predicate UniqueNames(subs: seq<Tree>) {
    forall i, j | 0 <= i < j < |subs| :: subs[i].name != subs[j].name
  }

  ghost predicate WellFormed(t: Tree) {
    && UniqueProps(t.entries)
    && UniqueNames(t.subs)
    && forall i | 0 <= i < |t.subs| :: WellFormed(t.subs[i])
  }

  lemma FindPropUnique(entries: seq<Entry>, i: nat)
    requires UniqueProps(entries) && i < |entries|
    ensures FindProp(entries, entries[i].prop) == i
  {
  }

  lemma FindSubUnique(subs: seq<Tree>, i: nat)
    requires UniqueNames(subs) && i < |subs|
    ensures FindSub(subs, subs[i].name) == i
  {
  }

  lemma {:induction false} OperationsKeepName(t: Tree, path: Path, value: string)
    requires path != []
    ensures Insert(t, path, value).tree.name == t.name
    ensures Update(t, path, value).tree.name == t.name
    ensures Delete(t, path).tree.name == t.name
  {
  }

  lemma {:induction false} InsertWellFormed(t: Tree, path: Path, value: string)
    requires path != [] && WellFormed(t)
    ensures WellFormed(Insert(t, path, value).tree)
    decreases |path|
  {
    if |path| > 1 {
      var i := FindSub(t.subs, path[0]);
      var s := if i < |t.subs| then t.subs[i] else Empty(path[0]);
      InsertWellFormed(s, path[1..], value);
      OperationsKeepName(s, path[1..], value);
    }
  }

  lemma {:induction false} UpdateWellFormed(t: Tree, path: Path, value: string)
    requires path != [] && WellFormed(t)
    ensures WellFormed(Update(t, path, value).tree)
    decreases |path|
  {
    if |path| > 1 {
      var i := FindSub(t.subs, path[0]);
      if i < |t.subs| {
        UpdateWellFormed(t.subs[i], path[1..], value);
        OperationsKeepName(t.subs[i], path[1..], value);
      }
    }
  }

  lemma {:induction false} DeleteWellFormed(t: Tree, path: Path)
    requires path != [] && WellFormed(t)
    ensures WellFormed(Delete(t, path).tree)
    decreases |path|
  {
    if |path| > 1 {
      var i := FindSub(t.subs, path[0]);
      if i < |t.subs| {
        DeleteWellFormed(t.subs[i], path[1..]);
        OperationsKeepName(t.subs[i], path[1..], "");
      }
    }
  }

  // ---------- the operations, seen through lookup ----------

  lemma FindSubAfter(subs: seq<Tree>, i: nat, s: Tree, name: string)
    requires i < |subs| && s.name == subs[i].name
    ensures FindSub(subs[i := s], name) == FindSub(subs, name)
  {
    var a, b := FindSub(subs[i := s], name), FindSub(subs, name);
    assert forall j | 0 <= j < |subs| :: subs[i := s][j].name == subs[j].name;
    assert a < |subs| ==> subs[i := s][a].name == subs[a].name;
  }

  lemma FindSubSnoc(subs: seq<Tree>, s: Tree, name: string)
    ensures FindSub(subs + [s], name) ==
            if FindSub(subs, name) < |subs| then FindSub(subs, name)
            else if s.name == name then |subs| else |subs| + 1
  {
    var a, b := FindSub(subs + [s], name), FindSub(subs, name);
    assert forall j | 0 <= j < |subs| :: (subs + [s])[j] == subs[j];
    assert (subs + [s])[|subs|] == s;
    assert a < |subs| ==> (subs + [s])[a].name == subs[a].name;
  }

  lemma {:induction false} GetEmpty(name: string, path: Path)
    requires path != []
    ensures Get(Empty(name), path).None?
  {
  }

  /** Where the subsections are after an insertion below one of them, which may be new. */
  lemma InsertSubs(t: Tree, path: Path, value: string, name: string)
    requires |path| > 1
    ensures var i, r := FindSub(t.subs, path[0]), Insert(t, path, value).tree.subs;
            var s := if i < |t.subs| then t.subs[i] else Empty(path[0]);
            var j, k := FindSub(r, name), FindSub(t.subs, name);
            if name == path[0] then j < |r| && r[j] == Insert(s, path[1..], value).tree
            else if k < |t.subs| then j < |r| && r[j] == t.subs[k] else j == |r|
  {
    var i := FindSub(t.subs, path[0]);
    var s := if i < |t.subs| then t.subs[i] else Empty(path[0]);
    OperationsKeepName(s, path[1..], value);
    if i < |t.subs| {
      FindSubAfter(t.subs, i, Insert(s, path[1..], value).tree, name);
    } else {
      FindSubSnoc(t.subs, Insert(s, path[1..], value).tree, name);
    }
  }

  /** Inserting at `path` gives it the value if it had none, and touches no other path. */
  lemma {:induction false} GetInsert(t: Tree, path: Path, value: string, other: Path)
    requires path != [] && other != []
    ensures Insert(t, path, value).status == if Get(t, path).Some? then 1 else 0
    ensures Get(Insert(t, path, value).tree, other) ==
            if other == path && Get(t, path).None? then Some(value) else Get(t, other)
    decreases |path|
  {
    if |path| == 1 {
      assert other == path <==> |other| == 1 && other[0] == path[0];
      FindPropSnoc(t.entries, Entry(path[0], value), other[0]);
    } else {
      var i := FindSub(t.subs, path[0]);
      var s := if i < |t.subs| then t.subs[i] else Empty(path[0]);
      assert other == path <==> other[0] == path[0] && other[1..] == path[1..];
      InsertSubs(t, path, value, other[0]);
      GetEmpty(path[0], path[1..]);
      GetInsert(s, path[1..], value, path[1..]);
      if |other| > 1 && other[0] == path[0] {
        GetEmpty(path[0], other[1..]);
        GetInsert(s, path[1..], value, other[1..]);
      }
    }
  }

  lemma FindPropSnoc(entries: seq<Entry>, e: Entry, prop: string)
    ensures FindProp(entries + [e], prop) ==
            if FindProp(entries, prop) < |entries| then FindProp(entries, prop)
            else if e.prop == prop then |entries| else |entries| + 1
  {
    var a, b := FindProp(entries + [e], prop), FindProp(entries, prop);
    assert forall j | 0 <= j < |entries| :: (entries + [e])[j] == entries[j];
    assert (entries + [e])[|entries|] == e;
    assert a < |entries| ==> (entries + [e])[a].prop == entries[a].prop;
  }

  lemma FindPropUpdated(entries: seq<Entry>, i: nat, e: Entry, prop: string)
    requires i < |entries| && e.prop == entries[i].prop
    ensures FindProp(entries[i := e], prop) == FindProp(entries, prop)
  {
    var a, b := FindProp(entries[i := e], prop), FindProp(entries, prop);
    assert forall j | 0 <= j < |entries| :: entries[i := e][j].prop == entries[j].prop;
    assert a < |entries| ==> entries[i := e][a].prop == entries[a].prop;
  }

  /** Updating `path` changes its value if it has one, and touches no other path. */
  lemma {:induction false} GetUpdate(t: Tree, path: Path, value: string, other: Path)
    requires path != [] && other != []
    ensures Update(t, path, value).status == if Get(t, path).Some? then 0 else 1
    ensures Get(Update(t, path, value).tree, other) ==
            if other == path && Get(t, path).Some? then Some(value) else Get(t, other)
    decreases |path|
  {
    if |path| == 1 {
      assert other == path <==> |other| == 1 && other[0] == path[0];
      var i := FindProp(t.entries, path[0]);
      if i < |t.entries| {
        FindPropUpdated(t.entries, i, Entry(path[0], value), other[0]);
      }
    } else {
      var i := FindSub(t.subs, path[0]);
      assert other == path <==> other[0] == path[0] && other[1..] == path[1..];
      if i < |t.subs| {
        var s := t.subs[i];
        OperationsKeepName(s, path[1..], value);
        FindSubAfter(t.subs, i, Update(s, path[1..], value).tree, other[0]);
        GetUpdate(s, path[1..], value, path[1..]);
        if |other| > 1 {
          GetUpdate(s, path[1..], value, other[1..]);
        }
      }
    }
  }

  lemma FindPropRemoved(entries: seq<Entry>, i: nat, prop: string)
    requires UniqueProps(entries) && i < |entries|
    ensures var j, k := FindProp(entries, prop), FindProp(entries[..i] + entries[i + 1..], prop);
            if j == i || j == |entries| then k == |entries| - 1
            else k < |entries| - 1 && (entries[..i] + entries[i + 1..])[k] == entries[j]
  {
    var r := entries[..i] + entries[i + 1..];
    var j, k := FindProp(entries, prop), FindProp(r, prop);
    forall m | 0 <= m < |r|
      ensures m < i ==> r[m] == entries[m]
      ensures m >= i ==> r[m] == entries[m + 1]
    {
    }
    if j == i || j == |entries| {
      assert forall m | 0 <= m < |entries| && m != i :: entries[m].prop != prop;
    } else {
      var p := if j < i then j else j - 1;
      assert r[p] == entries[j];
      assert forall m | 0 <= m < |entries| && m != j :: entries[m].prop != prop;
    }
  }

  /** Deleting `path` takes its value away, and touches no other path. */
  lemma {:induction false} GetDelete(t: Tree, path: Path, other: Path)
    requires path != [] && other != [] && WellFormed(t)
    ensures Delete(t, path).status == if Get(t, path).Some? then 0 else 1
    ensures Get(Delete(t, path).tree, other) == if other == path then None else Get(t, other)
    decreases |path|
  {
    if |path| == 1 {
      assert other == path <==> |other| == 1 && other[0] == path[0];
      var i := FindProp(t.entries, path[0]);
      if i < |t.entries| {
        FindPropRemoved(t.entries, i, other[0]);
      }
    } else {
      var i := FindSub(t.subs, path[0]);
      assert other == path <==> other[0] == path[0] && other[1..] == path[1..];
      if i < |t.subs| {
        var s := t.subs[i];
        OperationsKeepName(s, path[1..], "");
        FindSubAfter(t.subs, i, Delete(s, path[1..]).tree, other[0]);
        GetDelete(s, path[1..], path[1..]);
        if |other| > 1 {
          GetDelete(s, path[1..], other[1..]);
        }
      }
    }
  }

  // ---------- the properties of a tree as a list and as a map ----------

  datatype Item = Item(path: Path, value: string)

  function Under(name: string, items: seq<Item>): (r: seq<Item>)
    ensures |r| == |items|
    ensures forall i | 0 <= i < |r| :: r[i] == Item([name] + items[i].path, items[i].value)
  {
    if items == [] then [] else [Item([name] + items[0].path, items[0].value)] + Under(name, items[1..])
  }

  function Own(entries: seq<Entry>): (r: seq<Item>)
    ensures |r| == |entries|
    ensures forall i | 0 <= i < |r| :: r[i] == Item([entries[i].prop], entries[i].value)
  {
    if entries == [] then [] else [Item([entries[0].prop], entries[0].value)] + Own(entries[1..])
  }

  ghost predicate ProperItems(items: seq<Item>) {
    forall i | 0 <= i < |items| :: items[i].path != []
  }

  /** All properties with their paths, in the order in which the tree is visited: parents first. */
  function Flat(t: Tree): (r: seq<Item>)
    ensures ProperItems(r)
    decreases t, 0
  {
    Own(t.entries) + FlatAll(t.subs)
  }

  function FlatAll(subs: seq<Tree>): (r: seq<Item>)
    ensures ProperItems(r)
    decreases subs, 0
  {
    if subs == [] then [] else Under(subs[0].name, Flat(subs[0])) + FlatAll(subs[1..])
  }

  ghost predicate WellFormedAll(subs: seq<Tree>) {
    UniqueNames(subs) && forall i | 0 <= i < |subs| :: WellFormed(subs[i])
  }

  /** A property is in the list exactly if looking it up finds it. */
  lemma {:induction false} FlatGet(t: Tree, path: Path, value: string)
    requires WellFormed(t)
    ensures Item(path, value) in Flat(t) <==> path != [] && Get(t, path) == Some(value)
    decreases t, 0
  {
    var own, all, it := Own(t.entries), FlatAll(t.subs), Item(path, value);
    assert it in Flat(t) <==> it in own || it in all;
    FlatAllGet(t.subs, path, value);
    if it in own {
      var i :| 0 <= i < |own| && own[i] == it;
      FindPropUnique(t.entries, i);
    }
    if |path| == 1 && Get(t, path) == Some(value) {
      assert own[FindProp(t.entries, path[0])] == it;
    }
  }

  lemma {:induction false} FlatAllGet(subs: seq<Tree>, path: Path, value: string)
    requires WellFormedAll(subs)
    ensures Item(path, value) in FlatAll(subs) <==>
            |path| > 1 && FindSub(subs, path[0]) < |subs| &&
            Get(subs[FindSub(subs, path[0])], path[1..]) == Some(value)
    decreases subs, 0
  {
    if subs != [] {
      var s, it := subs[0], Item(path, value);
      assert it in FlatAll(subs) <==> it in Under(s.name, Flat(s)) || it in FlatAll(subs[1..]);
      UnderContains(s.name, Flat(s), path, value);
      FlatAllGet(subs[1..], path, value);
      if path != [] {
        FlatGet(s, path[1..], value);
        FindSubStep(subs, path[0]);
      }
    }
  }

  lemma UnderContains(name: string, items: seq<Item>, path: Path, value: string)
    ensures Item(path, value) in Under(name, items) <==>
            path != [] && path[0] == name && Item(path[1..], value) in items
  {
    var it, under := Item(path, value), Under(name, items);
    if it in under {
      var i :| 0 <= i < |under| && under[i] == it;
      assert path[1..] == items[i].path;
    }
    if path != [] && path[0] == name && Item(path[1..], value) in items {
      var i :| 0 <= i < |items| && items[i] == Item(path[1..], value);
      assert path == [name] + path[1..];
      assert under[i] == it;
    }
  }

  /** Searching a list with unique names: the first subsection, or else among the others. */
  lemma FindSubStep(subs: seq<Tree>, name: string)
    requires subs != [] && UniqueNames(subs)
    ensures FindSub(subs, name) == if subs[0].name == name then 0 else 1 + FindSub(subs[1..], name)
    ensures subs[0].name == name ==> FindSub(subs[1..], name) == |subs[1..]|
    ensures 0 < FindSub(subs, name) < |subs| ==> subs[FindSub(subs, name)] == subs[1..][FindSub(subs[1..], name)]
  {
    assert forall j | 0 <= j < |subs[1..]| :: subs[1..][j] == subs[j + 1];
  }

  ghost function Paths(t: Tree): set<Path> {
    set it | it in Flat(t) :: it.path
  }

  /** The finite map a tree stands for. */
  ghost function MapOf(t: Tree): map<Path, string> {
    map p | p in Paths(t) && p != [] && Get(t, p).Some? :: Get(t, p).value
  }

  lemma MapOfGet(t: Tree, path: Path)
    requires WellFormed(t)
    ensures path in MapOf(t) <==> path != [] && Get(t, path).Some?
    ensures path in MapOf(t) ==> MapOf(t)[path] == Get(t, path).value
  {
    if path != [] && Get(t, path).Some? {
      FlatGet(t, path, Get(t, path).value);
      assert Item(path, Get(t, path).value).path in Paths(t);
    }
  }

  /** The value a map has at a path, as `Get` would return it. */
  function At(m: map<Path, string>, p: Path): Option<string> {
    if p in m then Some(m[p]) else None
  }

  lemma MapOfAt(t: Tree, p: Path)
    requires WellFormed(t)
    ensures At(MapOf(t), p) == if p == [] then None else Get(t, p)
  {
    MapOfGet(t, p);
  }

  lemma SameMap(a: map<Path, string>, b: map<Path, string>)
    requires forall p: Path :: At(a, p) == At(b, p)
    ensures a == b
  {
    forall p: Path
      ensures p in a <==> p in b
      ensures p in a ==> a[p] == b[p]
    {
      assert At(a, p) == At(b, p);
    }
  }

  lemma InsertAt(t: Tree, path: Path, value: string, p: Path)
    requires path != [] && WellFormed(t) && WellFormed(Insert(t, path, value).tree)
    ensures At(MapOf(Insert(t, path, value).tree), p) ==
            if p == path && path !in MapOf(t) then Some(value) else At(MapOf(t), p)
  {
    MapOfAt(t, p);
    MapOfAt(t, path);
    MapOfAt(Insert(t, path, value).tree, p);
    if p != [] {
      GetInsert(t, path, value, p);
    }
  }

  /** Insert, update and delete are the operations of a finite map, and the status says what happened. */
  lemma InsertRefinesMap(t: Tree, path: Path, value: string)
    requires path != [] && WellFormed(t)
    ensures var m, r := MapOf(t), Insert(t, path, value);
            && WellFormed(r.tree)
            && r.status == (if path in m then 1 else 0)
            && MapOf(r.tree) == if path in m then m else m[path := value]
  {
    var m, m' := MapOf(t), MapOf(Insert(t, path, value).tree);
    InsertWellFormed(t, path, value);
    MapOfAt(t, path);
    GetInsert(t, path, value, path);
    forall p: Path
      ensures At(m', p) == At(if path in m then m else m[path := value], p)
    {
      InsertAt(t, path, value, p);
    }
    SameMap(m', if path in m then m else m[path := value]);
  }

  lemma UpdateAt(t: Tree, path: Path, value: string, p: Path)
    requires path != [] && WellFormed(t) && WellFormed(Update(t, path, value).tree)
    ensures At(MapOf(Update(t, path, value).tree), p) ==
            if p == path && path in MapOf(t) then Some(value) else At(MapOf(t), p)
  {
    MapOfAt(t, p);
    MapOfAt(t, path);
    MapOfAt(Update(t, path, value).tree, p);
    if p != [] {
      GetUpdate(t, path, value, p);
    }
  }

  lemma UpdateRefinesMap(t: Tree, path: Path, value: string)
    requires path != [] && WellFormed(t)
    ensures var m, r := MapOf(t), Update(t, path, value);
            && WellFormed(r.tree)
            && r.status == (if path in m then 0 else 1)
            && MapOf(r.tree) == if path in m then m[path := value] else m
  {
    var m, m' := MapOf(t), MapOf(Update(t, path, value).tree);
    UpdateWellFormed(t, path, value);
    MapOfAt(t, path);
    GetUpdate(t, path, value, path);
    forall p: Path
      ensures At(m', p) == At(if path in m then m[path := value] else m, p)
    {
      UpdateAt(t, path, value, p);
    }
    SameMap(m', if path in m then m[path := value] else m);
  }

  lemma DeleteAt(t: Tree, path: Path, p: Path)
    requires path != [] && WellFormed(t) && WellFormed(Delete(t, path).tree)
    ensures At(MapOf(Delete(t, path).tree), p) == if p == path then None else At(MapOf(t), p)
  {
    MapOfAt(t, p);
    MapOfAt(Delete(t, path).tree, p);
    if p != [] {
      GetDelete(t, path, p);
    }
  }

  lemma DeleteRefinesMap(t: Tree, path: Path)
    requires path != [] && WellFormed(t)
    ensures var m, r := MapOf(t), Delete(t, path);
            && WellFormed(r.tree)
            && r.status == (if path in m then 0 else 1)
            && MapOf(r.tree) == m - {path}
  {
    var m, m' := MapOf(t), MapOf(Delete(t, path).tree);
    DeleteWellFormed(t, path);
    MapOfAt(t, path);
    GetDelete(t, path, path);
    forall p: Path
      ensures At(m', p) == At(m - {path}, p)
    {
      DeleteAt(t, path, p);
    }
    SameMap(m', m - {path});
  }

  // ---------- rebuilding a tree from its list of properties ----------

  /** Insert one after the other, up to the first failure. */
  function InsertAll(t: Tree, items: seq<Item>): Outcome
    requires ProperItems(items)
    decreases |items|
  {
    if items == [] then Outcome(0, t)
    else
      var r := Insert(t, items[0].path, items[0].value);
      if r.status != 0 then r else InsertAll(r.tree, items[1..])
  }

  /** The tree without the sections that hold no property, themselves or below. */
  function Prune(t: Tree): (r: Tree)
    ensures r.name == t.name
    decreases t, 0
  {
    Tree(t.name, t.entries, PruneAll(t.subs))
  }

  function PruneAll(subs: seq<Tree>): seq<Tree>
    decreases subs, 0
  {
    if subs == [] then []
    else (if Flat(subs[0]) == [] then [] else [Prune(subs[0])]) + PruneAll(subs[1..])
  }

  lemma {:induction false} InsertAllConcat(t: Tree, a: seq<Item>, b: seq<Item>)
    requires ProperItems(a) && ProperItems(b)
    ensures InsertAll(t, a + b) ==
            var r := InsertAll(t, a); if r.status != 0 then r else InsertAll(r.tree, b)
    decreases |a|
  {
    if a == [] {
      assert a + b == b;
    } else {
      assert (a + b)[1..] == a[1..] + b;
      InsertAllConcat(Insert(t, a[0].path, a[0].value).tree, a[1..], b);
    }
  }

  lemma {:induction false} InsertOwn(t: Tree, entries: seq<Entry>)
    requires UniqueProps(t.entries + entries)
    ensures InsertAll(t, Own(entries)) == Outcome(0, t.(entries := t.entries + entries))
    decreases |entries|
  {
    if entries == [] {
      assert t.entries + entries == t.entries;
    } else {
      var e, all := entries[0], t.entries + entries;
      assert FindProp(t.entries, e.prop) == |t.entries| by {
        assert all[|t.entries|] == e;
        assert forall i | 0 <= i < |t.entries| :: all[i] == t.entries[i];
      }
      assert t.entries + [e] + entries[1..] == all;
      InsertOwn(t.(entries := t.entries + [e]), entries[1..]);
    }
  }

  lemma {:induction false} InsertUnder(t: Tree, i: nat, items: seq<Item>)
    requires ProperItems(items) && i < |t.subs| && FindSub(t.subs, t.subs[i].name) == i
    ensures InsertAll(t, Under(t.subs[i].name, items)) ==
            var r := InsertAll(t.subs[i], items); Outcome(r.status, t.(subs := t.subs[i := r.tree]))
    decreases |items|
  {
    var s := t.subs[i];
    if items == [] {
      assert t.subs[i := s] == t.subs;
    } else {
      var p, v := items[0].path, items[0].value;
      assert ([s.name] + p)[1..] == p;
      var r := Insert(s, p, v);
      OperationsKeepName(s, p, v);
      var t' := t.(subs := t.subs[i := r.tree]);
      assert Insert(t, [s.name] + p, v) == Outcome(r.status, t');
      assert Under(s.name, items)[1..] == Under(s.name, items[1..]);
      if r.status == 0 {
        FindSubAfter(t.subs, i, r.tree, s.name);
        InsertUnder(t', i, items[1..]);
      }
    }
  }

  lemma InsertIntoNew(t: Tree, name: string, p: Path, v: string)
    requires p != [] && FindSub(t.subs, name) == |t.subs|
    ensures Insert(t, [name] + p, v) == Insert(t.(subs := t.subs + [Empty(name)]), [name] + p, v)
  {
    FindSubSnoc(t.subs, Empty(name), name);
    assert ([name] + p)[1..] == p;
    var r := Insert(Empty(name), p, v);
    assert (t.subs + [Empty(name)])[|t.subs| := r.tree] == t.subs + [r.tree];
  }

  /** Inserting into a section that is missing is inserting into an empty one put last. */
  lemma InsertUnderNew(t: Tree, name: string, items: seq<Item>)
    requires ProperItems(items) && items != [] && FindSub(t.subs, name) == |t.subs|
    ensures InsertAll(t, Under(name, items)) ==
            var r := InsertAll(Empty(name), items); Outcome(r.status, t.(subs := t.subs + [r.tree]))
  {
    var t' := t.(subs := t.subs + [Empty(name)]);
    FindSubSnoc(t.subs, Empty(name), name);
    InsertIntoNew(t, name, items[0].path, items[0].value);
    assert InsertAll(t, Under(name, items)) == InsertAll(t', Under(name, items));
    InsertUnder(t', |t.subs|, items);
    var q := InsertAll(Empty(name), items);
    assert t'.subs[|t.subs| := q.tree] == t.subs + [q.tree];
  }

  /** Inserting the properties of a tree in order into an empty one gives the tree back, without empty sections. */
  lemma {:induction false} Rebuild(t: Tree)
    requires WellFormed(t)
    ensures InsertAll(Empty(t.name), Flat(t)) == Outcome(0, Prune(t))
    decreases t, 0
  {
    InsertAllConcat(Empty(t.name), Own(t.entries), FlatAll(t.subs));
    assert [] + t.entries == t.entries;
    InsertOwn(Empty(t.name), t.entries);
    assert [] + t.subs == t.subs && [] + PruneAll(t.subs) == PruneAll(t.subs);
    RebuildAll(Tree(t.name, t.entries, []), t.subs);
  }

  lemma FirstOfAll(s: Tree, rest: seq<Tree>)
    ensures FlatAll([s] + rest) == Under(s.name, Flat(s)) + FlatAll(rest)
    ensures PruneAll([s] + rest) == (if Flat(s) == [] then [] else [Prune(s)]) + PruneAll(rest)
    ensures WellFormedAll([s] + rest) ==> WellFormed(s) && WellFormedAll(rest)
  {
    hide Under, Flat, Prune, WellFormed;
    assert ([s] + rest)[1..] == rest;
  }

  lemma {:induction false} RebuildAll(t: Tree, subs: seq<Tree>)
    requires UniqueNames(t.subs + subs) && WellFormedAll(subs)
    ensures InsertAll(t, FlatAll(subs)) == Outcome(0, t.(subs := t.subs + PruneAll(subs)))
    decreases subs, 0
  {
    if subs == [] {
      assert t.subs + [] == t.subs;
    } else {
      hide UniqueNames, InsertAll, Under, Prune, Flat, WellFormed;
      var s, rest := subs[0], subs[1..];
      FirstOfAll(s, rest);
      hide FlatAll, PruneAll, WellFormedAll;
      assert subs == [s] + rest;
      var kept := if Flat(s) == [] then [] else [Prune(s)];
      UniqueNamesSplit(t.subs, s, rest);
      Rebuild(s);
      RebuildFirst(t, s);
      UniqueNamesKept(t.subs, s, rest, kept);
      InsertAllConcat(t, Under(s.name, Flat(s)), FlatAll(rest));
      RebuildAll(t.(subs := t.subs + kept), rest);
      SeqAssoc(t.subs, kept, PruneAll(rest));
    }
  }

  lemma UniqueNamesKept(a: seq<Tree>, s: Tree, b: seq<Tree>, kept: seq<Tree>)
    requires UniqueNames(a + ([s] + b)) && (kept == [] || (|kept| == 1 && kept[0].name == s.name))
    ensures UniqueNames(a + kept + b)
  {
    if kept == [] {
      UniqueNamesSplit(a, s, b);
      assert a + kept == a;
    } else {
      UniqueNamesRenamed(a, s, b, kept[0]);
      assert kept == [kept[0]];
    }
  }

  lemma RebuildFirst(t: Tree, s: Tree)
    requires FindSub(t.subs, s.name) == |t.subs|
    requires InsertAll(Empty(s.name), Flat(s)) == Outcome(0, Prune(s))
    ensures InsertAll(t, Under(s.name, Flat(s))) ==
            Outcome(0, t.(subs := t.subs + if Flat(s) == [] then [] else [Prune(s)]))
  {
    if Flat(s) == [] {
      assert t.subs + [] == t.subs;
    } else {
      InsertUnderNew(t, s.name, Flat(s));
    }
  }

  lemma SeqAssoc<T>(a: seq<T>, b: seq<T>, c: seq<T>)
    ensures a + (b + c) == a + b + c
  {
  }

  lemma UniqueNamesSplit(a: seq<Tree>, s: Tree, b: seq<Tree>)
    requires UniqueNames(a + ([s] + b))
    ensures UniqueNames(a + b) && FindSub(a, s.name) == |a|
  {
    var all, ab := a + ([s] + b), a + b;
    forall i, j | 0 <= i < j < |ab|
      ensures ab[i].name != ab[j].name
    {
      MiddleOut(a, s, b, i);
      MiddleOut(a, s, b, j);
    }
    assert all[|a|] == s;
    assert forall i | 0 <= i < |a| :: all[i] == a[i];
  }

  lemma MiddleOut<T>(a: seq<T>, s: T, b: seq<T>, i: nat)
    requires i < |a + b|
    ensures (a + b)[i] == (a + ([s] + b))[if i < |a| then i else i + 1]
  {
  }

  lemma UniqueNamesRenamed(a: seq<Tree>, s: Tree, b: seq<Tree>, p: Tree)
    requires UniqueNames(a + ([s] + b)) && p.name == s.name
    ensures UniqueNames(a + [p] + b)
  {
    var all := a + ([s] + b);
    assert forall i | 0 <= i < |all| :: (a + [p] + b)[i].name == all[i].name;
  }

  lemma {:induction false} FlatPrune(t: Tree)
    ensures Flat(Prune(t)) == Flat(t)
    decreases t, 0
  {
    FlatPruneAll(t.subs);
  }

  lemma {:induction false} FlatPruneAll(subs: seq<Tree>)
    ensures FlatAll(PruneAll(subs)) == FlatAll(subs)
    decreases subs, 0
  {
    if subs != [] {
      FlatPrune(subs[0]);
      FlatPruneAll(subs[1..]);
      var rest := PruneAll(subs[1..]);
      if Flat(subs[0]) == [] {
        assert [] + rest == rest;
      } else {
        assert ([Prune(subs[0])] + rest)[1..] == rest;
      }
    }
  }

  /** Pruning keeps siblings unique and every lookup the same. */
  lemma PruneKeeps(t: Tree)
    requires WellFormed(t)
    ensures WellFormed(Prune(t)) && MapOf(Prune(t)) == MapOf(t)
  {
    PruneWellFormed(t);
    FlatPrune(t);
    forall p: Path
      ensures p in MapOf(t) <==> p in MapOf(Prune(t))
      ensures p in MapOf(t) ==> MapOf(t)[p] == MapOf(Prune(t))[p]
    {
      MapOfGet(t, p);
      MapOfGet(Prune(t), p);
      if p in MapOf(t) {
        FlatGet(t, p, MapOf(t)[p]);
        FlatGet(Prune(t), p, MapOf(t)[p]);
      }
      if p in MapOf(Prune(t)) {
        FlatGet(t, p, MapOf(Prune(t))[p]);
        FlatGet(Prune(t), p, MapOf(Prune(t))[p]);
      }
    }
  }

  lemma {:induction false} PruneWellFormed(t: Tree)
    requires WellFormed(t)
    ensures WellFormed(Prune(t))
    decreases t, 0
  {
    PruneAllWellFormed(t.subs);
  }

  lemma {:induction false} PruneAllWellFormed(subs: seq<Tree>)
    requires WellFormedAll(subs)
    ensures WellFormedAll(PruneAll(subs))
    decreases subs, 0
  {
    if subs != [] {
      PruneWellFormed(subs[0]);
      PruneAllWellFormed(subs[1..]);
      var s, rest, pr := subs[0], subs[1..], PruneAll(subs[1..]);
      assert forall j | 0 <= j < |rest| :: rest[j] == subs[j + 1];
      if Flat(s) == [] {
        assert PruneAll(subs) == pr;
      } else {
        assert PruneAll(subs) == [Prune(s)] + pr;
        forall i | 0 <= i < |pr|
          ensures pr[i].name != s.name
        {
          PruneAllNames(rest, i);
        }
      }
    }
  }

  lemma {:induction false} PruneAllNames(subs: seq<Tree>, i: nat)
    requires i < |PruneAll(subs)|
    ensures exists j | 0 <= j < |subs| :: PruneAll(subs)[i].name == subs[j].name
    decreases subs
  {
    var s, rest, pr := subs[0], subs[1..], PruneAll(subs[1..]);
    var k := if Flat(s) == [] then i else i - 1;
    if k == -1 {
      assert PruneAll(subs)[i].name == subs[0].name;
    } else {
      assert PruneAll(subs)[i] == pr[k];
      PruneAllNames(rest, k);
      var j :| 0 <= j < |rest| && pr[k].name == rest[j].name;
      assert rest[j] == subs[j + 1];
    }
  }
}
