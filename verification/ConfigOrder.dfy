/** The order of the properties of a section tree (src/config/config-data.c), which its operations keep. */
module ConfigOrder {
  import opened ConfigTree

  /** The items with another path, in order. */
  function Without(items: seq<Item>, path: Path): seq<Item> {
    if items == [] then []
    else (if items[0].path == path then [] else [items[0]]) + Without(items[1..], path)
  }

  lemma {:induction false} WithoutConcat(a: seq<Item>, b: seq<Item>, path: Path)
    ensures Without(a + b, path) == Without(a, path) + Without(b, path)
  {
    if a == [] {
      assert a + b == b;
    } else {
      assert (a + b)[0] == a[0] && (a + b)[1..] == a[1..] + b;
      WithoutConcat(a[1..], b, path);
    }
  }

  lemma {:induction false} WithoutUnder(name: string, items: seq<Item>, path: Path)
    requires path != [] && path[0] == name
    ensures Without(Under(name, items), path) == Under(name, Without(items, path[1..]))
  {
    if items != [] {
      var under, rest := Under(name, items), Without(items[1..], path[1..]);
      assert under[1..] == Under(name, items[1..]);
      assert path == [name] + path[1..] && ([name] + items[0].path)[1..] == items[0].path;
      WithoutUnder(name, items[1..], path);
      assert ([items[0]] + rest)[1..] == rest && [] + rest == rest;
    }
  }

  // ---------- properties of a section ----------

  /** The properties with another name, in order. */
  function Others(entries: seq<Entry>, prop: string): seq<Entry> {
    if entries == [] then []
    else (if entries[0].prop == prop then [] else [entries[0]]) + Others(entries[1..], prop)
  }

  lemma {:induction false} OthersConcat(a: seq<Entry>, b: seq<Entry>, prop: string)
    ensures Others(a + b, prop) == Others(a, prop) + Others(b, prop)
  {
    if a == [] {
      assert a + b == b;
    } else {
      assert (a + b)[0] == a[0] && (a + b)[1..] == a[1..] + b;
      OthersConcat(a[1..], b, prop);
    }
  }

  lemma {:induction false} OwnWithout(entries: seq<Entry>, prop: string)
    ensures Without(Own(entries), [prop]) == Own(Others(entries, prop))
  {
    if entries != [] {
      var rest := Others(entries[1..], prop);
      OwnWithout(entries[1..], prop);
      assert ([entries[0]] + rest)[1..] == rest && [] + rest == rest;
    }
  }

  /** Replacing or removing the entry of a property, or adding one, leaves the others as they are. */
  lemma OthersStay(a: seq<Entry>, with: seq<Entry>, without: seq<Entry>, b: seq<Entry>, prop: string)
    requires forall i | 0 <= i < |with| :: with[i].prop == prop
    requires forall i | 0 <= i < |without| :: without[i].prop == prop
    ensures Others(a + with + b, prop) == Others(a + without + b, prop)
  {
    OthersConcat(a + with, b, prop);
    OthersConcat(a, with, prop);
    OthersConcat(a + without, b, prop);
    OthersConcat(a, without, prop);
    NoOthers(with, prop);
    NoOthers(without, prop);
  }

  lemma {:induction false} NoOthers(entries: seq<Entry>, prop: string)
    requires forall i | 0 <= i < |entries| :: entries[i].prop == prop
    ensures Others(entries, prop) == []
  {
    if entries != [] {
      NoOthers(entries[1..], prop);
    }
  }

  lemma OwnOrder(t: Tree, entries: seq<Entry>, prop: string)
    requires Others(entries, prop) == Others(t.entries, prop)
    ensures Without(Flat(t.(entries := entries)), [prop]) == Without(Flat(t), [prop])
  {
    OwnWithout(entries, prop);
    OwnWithout(t.entries, prop);
    WithoutConcat(Own(entries), FlatAll(t.subs), [prop]);
    WithoutConcat(Own(t.entries), FlatAll(t.subs), [prop]);
  }

  // ---------- subsections ----------

  lemma {:induction false} FlatAllAt(subs: seq<Tree>, i: nat)
    requires i < |subs|
    ensures FlatAll(subs) == FlatAll(subs[..i]) + (Under(subs[i].name, Flat(subs[i])) + FlatAll(subs[i + 1..]))
    decreases i
  {
    if i == 0 {
      assert subs[..0] == [];
    } else {
      hide Under, Flat;
      var s, rest := subs[0], subs[1..];
      FlatAllAt(rest, i - 1);
      assert rest[..i - 1] == subs[..i][1..] && rest[i..] == subs[i + 1..] && rest[i - 1] == subs[i];
      assert subs[..i][0] == s;
      hide FlatAll;
      Regroup(Under(s.name, Flat(s)), FlatAll(rest[..i - 1]),
              Under(subs[i].name, Flat(subs[i])) + FlatAll(subs[i + 1..]));
      FlatAllFirst(subs);
      FlatAllFirst(subs[..i]);
    }
  }

  lemma FlatAllFirst(subs: seq<Tree>)
    requires subs != []
    ensures FlatAll(subs) == Under(subs[0].name, Flat(subs[0])) + FlatAll(subs[1..])
  {
  }

  lemma Regroup<T>(a: seq<T>, b: seq<T>, c: seq<T>)
    ensures a + b + c == a + (b + c)
  {
  }

  lemma SubsOrder(t: Tree, i: nat, s: Tree, path: Path)
    requires |path| > 1 && i < |t.subs| && s.name == t.subs[i].name == path[0]
    requires Without(Flat(s), path[1..]) == Without(Flat(t.subs[i]), path[1..])
    ensures Without(Flat(t.(subs := t.subs[i := s])), path) == Without(Flat(t), path)
  {
    hide Under, FlatAll;
    var own, before, after := Own(t.entries), FlatAll(t.subs[..i]), FlatAll(t.subs[i + 1..]);
    var now, was := Under(s.name, Flat(s)), Under(t.subs[i].name, Flat(t.subs[i]));
    FlatAllAt(t.subs, i);
    FlatAllAt(t.subs[i := s], i);
    assert t.subs[i := s][..i] == t.subs[..i] && t.subs[i := s][i + 1..] == t.subs[i + 1..];
    WithoutUnder(s.name, Flat(s), path);
    WithoutUnder(s.name, Flat(t.subs[i]), path);
    MiddleOrder(own, before, now, after, path);
    MiddleOrder(own, before, was, after, path);
  }

  lemma MiddleOrder(own: seq<Item>, a: seq<Item>, m: seq<Item>, b: seq<Item>, path: Path)
    ensures Without(own + (a + (m + b)), path) ==
            Without(own, path) + (Without(a, path) + (Without(m, path) + Without(b, path)))
  {
    WithoutConcat(own, a + (m + b), path);
    WithoutConcat(a, m + b, path);
    WithoutConcat(m, b, path);
  }

  lemma NewSubOrder(t: Tree, s: Tree, path: Path)
    requires |path| > 1 && s.name == path[0] && Without(Flat(s), path[1..]) == []
    ensures Without(Flat(t.(subs := t.subs + [s])), path) == Without(Flat(t), path)
  {
    hide Under, FlatAll;
    var subs := t.subs + [s];
    FlatAllAt(subs, |t.subs|);
    assert subs[..|t.subs|] == t.subs && subs[|t.subs| + 1..] == [];
    WithoutUnder(s.name, Flat(s), path);
    NoSubs();
    UnderNothing(s.name);
    MiddleOrder(Own(t.entries), FlatAll(t.subs), Under(s.name, Flat(s)), [], path);
    WithoutConcat(Own(t.entries), FlatAll(t.subs), path);
    assert Without(FlatAll(t.subs), path) + ([] + []) == Without(FlatAll(t.subs), path);
  }

  lemma NoSubs()
    ensures FlatAll([]) == []
  {
  }

  lemma UnderNothing(name: string)
    ensures Under(name, []) == []
  {
  }

  // ---------- the operations ----------

  /** Inserting keeps the order of all other properties. */
  lemma {:induction false} InsertKeepsOrder(t: Tree, path: Path, value: string)
    requires path != []
    ensures Without(Flat(Insert(t, path, value).tree), path) == Without(Flat(t), path)
    decreases |path|
  {
    if |path| == 1 {
      var e := Entry(path[0], value);
      assert path == [path[0]];
      OthersStay(t.entries, [e], [], [], path[0]);
      assert t.entries + [e] + [] == t.entries + [e] && t.entries + [] + [] == t.entries;
      OwnOrder(t, t.entries + [e], path[0]);
    } else {
      hide Flat;
      var i := FindSub(t.subs, path[0]);
      var s := if i < |t.subs| then t.subs[i] else Empty(path[0]);
      var r := Insert(s, path[1..], value);
      InsertKeepsOrder(s, path[1..], value);
      OperationsKeepName(s, path[1..], value);
      if i < |t.subs| {
        SubsOrder(t, i, r.tree, path);
      } else {
        EmptyOrder(path[0], path[1..]);
        NewSubOrder(t, r.tree, path);
      }
    }
  }

  lemma EmptyOrder(name: string, path: Path)
    ensures Without(Flat(Empty(name)), path) == []
  {
  }

  /** Deleting keeps the order of all other properties. */
  lemma {:induction false} DeleteKeepsOrder(t: Tree, path: Path)
    requires path != []
    ensures Without(Flat(Delete(t, path).tree), path) == Without(Flat(t), path)
    decreases |path|
  {
    if |path| == 1 {
      var i, es := FindProp(t.entries, path[0]), t.entries;
      assert path == [path[0]];
      if i < |es| {
        OthersStay(es[..i], [es[i]], [], es[i + 1..], path[0]);
        assert es[..i] + [es[i]] + es[i + 1..] == es && es[..i] + [] + es[i + 1..] == es[..i] + es[i + 1..];
        OwnOrder(t, es[..i] + es[i + 1..], path[0]);
      }
    } else {
      hide Flat;
      var i := FindSub(t.subs, path[0]);
      if i < |t.subs| {
        DeleteKeepsOrder(t.subs[i], path[1..]);
        OperationsKeepName(t.subs[i], path[1..], "");
        SubsOrder(t, i, Delete(t.subs[i], path[1..]).tree, path);
      }
    }
  }

  /** Updating keeps the order of all other properties. */
  lemma {:induction false} UpdateKeepsOrder(t: Tree, path: Path, value: string)
    requires path != []
    ensures Without(Flat(Update(t, path, value).tree), path) == Without(Flat(t), path)
    decreases |path|
  {
    if |path| == 1 {
      var i, es, e := FindProp(t.entries, path[0]), t.entries, Entry(path[0], value);
      assert path == [path[0]];
      if i < |es| {
        OthersStay(es[..i], [es[i]], [e], es[i + 1..], path[0]);
        assert es[..i] + [es[i]] + es[i + 1..] == es && es[..i] + [e] + es[i + 1..] == es[i := e];
        OwnOrder(t, es[i := e], path[0]);
      }
    } else {
      hide Flat;
      var i := FindSub(t.subs, path[0]);
      if i < |t.subs| {
        UpdateKeepsOrder(t.subs[i], path[1..], value);
        OperationsKeepName(t.subs[i], path[1..], value);
        SubsOrder(t, i, Update(t.subs[i], path[1..], value).tree, path);
      }
    }
  }

  // ---------- updating happens in place ----------

  function PathSeq(items: seq<Item>): (r: seq<Path>)
    ensures |r| == |items| && forall i | 0 <= i < |r| :: r[i] == items[i].path
  {
    seq(|items|, i requires 0 <= i < |items| => items[i].path)
  }

  lemma PathsUnder(name: string, a: seq<Item>, b: seq<Item>)
    requires PathSeq(a) == PathSeq(b)
    ensures PathSeq(Under(name, a)) == PathSeq(Under(name, b))
  {
    assert |a| == |PathSeq(a)| == |b|;
    forall i | 0 <= i < |a|
      ensures Under(name, a)[i].path == Under(name, b)[i].path
    {
      assert PathSeq(a)[i] == PathSeq(b)[i];
    }
  }

  lemma PathsMiddle(own: seq<Item>, a: seq<Item>, m: seq<Item>, b: seq<Item>)
    ensures PathSeq(own + (a + (m + b))) == PathSeq(own) + (PathSeq(a) + (PathSeq(m) + PathSeq(b)))
  {
  }

  lemma OwnPaths(t: Tree, i: nat, e: Entry)
    requires i < |t.entries| && e.prop == t.entries[i].prop
    ensures PathSeq(Flat(t.(entries := t.entries[i := e]))) == PathSeq(Flat(t))
  {
    hide FlatAll;
    assert PathSeq(Own(t.entries[i := e])) == PathSeq(Own(t.entries));
    PathsMiddle(Own(t.entries[i := e]), [], [], FlatAll(t.subs));
    PathsMiddle(Own(t.entries), [], [], FlatAll(t.subs));
    assert [] + ([] + FlatAll(t.subs)) == FlatAll(t.subs);
  }

  lemma SubsPaths(t: Tree, i: nat, s: Tree)
    requires i < |t.subs| && s.name == t.subs[i].name && PathSeq(Flat(s)) == PathSeq(Flat(t.subs[i]))
    ensures PathSeq(Flat(t.(subs := t.subs[i := s]))) == PathSeq(Flat(t))
  {
    hide Under, FlatAll, PathSeq;
    var own, before, after := Own(t.entries), FlatAll(t.subs[..i]), FlatAll(t.subs[i + 1..]);
    FlatAllAt(t.subs, i);
    FlatAllAt(t.subs[i := s], i);
    assert t.subs[i := s][..i] == t.subs[..i] && t.subs[i := s][i + 1..] == t.subs[i + 1..];
    PathsUnder(s.name, Flat(s), Flat(t.subs[i]));
    PathsMiddle(own, before, Under(s.name, Flat(s)), after);
    PathsMiddle(own, before, Under(s.name, Flat(t.subs[i])), after);
  }

  /** The list of paths stays as it is. */
  lemma {:induction false} UpdateInPlace(t: Tree, path: Path, value: string)
    requires path != []
    ensures PathSeq(Flat(Update(t, path, value).tree)) == PathSeq(Flat(t))
    decreases |path|
  {
    hide Flat, PathSeq;
    if |path| == 1 {
      var i := FindProp(t.entries, path[0]);
      if i < |t.entries| {
        OwnPaths(t, i, Entry(path[0], value));
      }
    } else {
      var i := FindSub(t.subs, path[0]);
      if i < |t.subs| {
        UpdateInPlace(t.subs[i], path[1..], value);
        OperationsKeepName(t.subs[i], path[1..], value);
        SubsPaths(t, i, Update(t.subs[i], path[1..], value).tree);
      }
    }
  }
}
