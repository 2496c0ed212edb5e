/**
  Writing a tree and parsing the text again: exactly when this gives the tree back.
 */
module RoundTrip {
  import opened Wrappers
  import opened Text
  import opened KeyLanguage
  import opened KeyInverses
  import opened ConfigTree
  import opened ConfigFile

  // ---------- the properties of a subtree with their full paths ----------

  function OwnAt(path: Path, entries: seq<Entry>): (r: seq<Item>)
    ensures ProperItems(r)
  {
    if entries == [] then [] else [Item(path + [entries[0].prop], entries[0].value)] + OwnAt(path, entries[1..])
  }

  function FlatAt(t: Tree, path: Path): (r: seq<Item>)
    ensures ProperItems(r)
    decreases t, 0
  {
    OwnAt(path, t.entries) + FlatAllAt(t.subs, path)
  }

  function FlatAllAt(subs: seq<Tree>, path: Path): (r: seq<Item>)
    ensures ProperItems(r)
    decreases subs, 0
  {
    if subs == [] then [] else FlatAt(subs[0], path + [subs[0].name]) + FlatAllAt(subs[1..], path)
  }

  function Prefixed(path: Path, items: seq<Item>): (r: seq<Item>) {
    if items == [] then [] else [Item(path + items[0].path, items[0].value)] + Prefixed(path, items[1..])
  }

  lemma {:induction false} PrefixedConcat(path: Path, a: seq<Item>, b: seq<Item>)
    ensures Prefixed(path, a + b) == Prefixed(path, a) + Prefixed(path, b)
  {
    if a == [] {
      assert a + b == b;
    } else {
      assert (a + b)[1..] == a[1..] + b;
      PrefixedConcat(path, a[1..], b);
    }
  }

  lemma {:induction false} PrefixedUnder(path: Path, name: string, items: seq<Item>)
    ensures Prefixed(path, Under(name, items)) == Prefixed(path + [name], items)
  {
    if items != [] {
      assert path + ([name] + items[0].path) == path + [name] + items[0].path;
      assert Under(name, items)[1..] == Under(name, items[1..]);
      PrefixedUnder(path, name, items[1..]);
    }
  }

  lemma {:induction false} PrefixedOwn(path: Path, entries: seq<Entry>)
    ensures Prefixed(path, Own(entries)) == OwnAt(path, entries)
  {
    if entries != [] {
      assert Own(entries)[1..] == Own(entries[1..]);
      PrefixedOwn(path, entries[1..]);
    }
  }

  lemma {:induction false} PrefixedFlat(t: Tree, path: Path)
    ensures Prefixed(path, Flat(t)) == FlatAt(t, path)
    decreases t, 0
  {
    PrefixedConcat(path, Own(t.entries), FlatAll(t.subs));
    PrefixedOwn(path, t.entries);
    PrefixedFlatAll(t.subs, path);
  }

  lemma {:induction false} PrefixedFlatAll(subs: seq<Tree>, path: Path)
    ensures Prefixed(path, FlatAll(subs)) == FlatAllAt(subs, path)
    decreases subs, 0
  {
    if subs != [] {
      PrefixedConcat(path, Under(subs[0].name, Flat(subs[0])), FlatAll(subs[1..]));
      PrefixedUnder(path, subs[0].name, Flat(subs[0]));
      PrefixedFlat(subs[0], path + [subs[0].name]);
      PrefixedFlatAll(subs[1..], path);
    }
  }

  lemma {:induction false} PrefixedNothing(items: seq<Item>)
    ensures Prefixed([], items) == items
  {
    if items != [] {
      assert [] + items[0].path == items[0].path;
      PrefixedNothing(items[1..]);
    }
  }

  lemma FlatAtRoot(t: Tree)
    ensures FlatAt(t, []) == Flat(t)
  {
    PrefixedFlat(t, []);
    PrefixedNothing(Flat(t));
  }

  // ---------- inserting by key text ----------

  /** Insert by the text of the keys, up to the first failure. */
  function InsertJoined(t: Tree, items: seq<Item>): Outcome
    requires ProperItems(items)
    decreases |items|
  {
    if items == [] then Outcome(0, t)
    else
      var r := InsertKey(t, Join(items[0].path), items[0].value);
      if r.status != 0 then r else InsertJoined(r.tree, items[1..])
  }

  lemma {:induction false} InsertJoinedConcat(t: Tree, a: seq<Item>, b: seq<Item>)
    requires ProperItems(a) && ProperItems(b)
    ensures InsertJoined(t, a + b) ==
            var r := InsertJoined(t, a); if r.status != 0 then r else InsertJoined(r.tree, b)
    decreases |a|
  {
    if a == [] {
      assert a + b == b;
    } else {
      assert (a + b)[1..] == a[1..] + b;
      InsertJoinedConcat(InsertKey(t, Join(a[0].path), a[0].value).tree, a[1..], b);
    }
  }

  ghost predicate GoodPaths(items: seq<Item>) {
    forall i | 0 <= i < |items| :: AllGood(items[i].path)
  }

  /** With good paths this is inserting by path; otherwise it fails. */
  lemma {:induction false} InsertJoinedIsInsertAll(t: Tree, items: seq<Item>)
    requires ProperItems(items)
    ensures GoodPaths(items) ==> InsertJoined(t, items) == InsertAll(t, items)
    ensures !GoodPaths(items) ==> InsertJoined(t, items).status != 0
    decreases |items|
  {
    if items != [] {
      IsolateJoin(items[0].path);
      assert items == [items[0]] + items[1..];
      InsertJoinedIsInsertAll(InsertKey(t, Join(items[0].path), items[0].value).tree, items[1..]);
    }
  }

  // ---------- reading back what was written ----------

  /** The text that stands for the section while its properties are read. */
  function SectionText(path: Path): string {
    if path == [] then "" else Join(path)
  }

  ghost predicate PrintableItems(items: seq<Item>) {
    forall i | 0 <= i < |items| ::
      items[i].path != [] && Printable(items[i].path[|items[i].path| - 1]) && Printable(items[i].value)
  }

  lemma PrintableSplit(a: seq<Item>, b: seq<Item>)
    requires PrintableItems(a + b)
    ensures PrintableItems(a) && PrintableItems(b)
  {
    assert forall i | 0 <= i < |a| :: (a + b)[i] == a[i];
    assert forall i | 0 <= i < |b| :: (a + b)[|a| + i] == b[i];
  }

  /** What reading `text` and then `rest` gives, if reading `text` inserts `items` and leaves `section`. */
  function Then(t: Tree, items: seq<Item>, section: string, rest: string): Outcome
    requires ProperItems(items)
  {
    var r := InsertJoined(t, items);
    if r.status != 0 then r else ParseLines(Lines(rest), section, r.tree)
  }

  lemma ThenConcat(t: Tree, a: seq<Item>, b: seq<Item>, section: string, rest: string)
    requires ProperItems(a) && ProperItems(b)
    ensures Then(t, a + b, section, rest) ==
            var r := InsertJoined(t, a); if r.status != 0 then r else Then(r.tree, b, section, rest)
  {
    InsertJoinedConcat(t, a, b);
  }

  lemma KeyOfProperty(path: Path, p: string)
    requires path == [] || Join(path) != ""
    ensures FullKey(SectionText(path), Escape(p)) == Join(path + [p])
  {
    if path == [] {
      assert path + [p] == [p];
    } else {
      JoinSnoc(path, p);
    }
  }

  /** One property line in front of others. */
  lemma ParseProperty(w: string, more: seq<string>, section: string, t: Tree, p: Property)
    requires SectionKey(w).None? && ReadProperty(w) == Read(p)
    ensures ParseLines([w] + more, section, t) ==
            var r := InsertKey(t, FullKey(section, p.prop), p.value);
            if r.status != 0 then r else ParseLines(more, section, r.tree)
  {
    assert ([w] + more)[0] == w && ([w] + more)[1..] == more;
  }

  lemma ThenOne(t: Tree, item: Item, section: string, rest: string)
    requires item.path != []
    ensures Then(t, [item], section, rest) ==
            var r := InsertKey(t, Join(item.path), item.value);
            if r.status != 0 then r else ParseLines(Lines(rest), section, r.tree)
  {
    var r := InsertKey(t, Join(item.path), item.value);
    assert InsertJoined(r.tree, []) == Outcome(0, r.tree);
    assert [item][1..] == [];
  }

  lemma ReadEntry(path: Path, e: Entry, t: Tree, rest: string)
    requires Printable(e.prop) && Printable(e.value)
    requires path == [] || Join(path) != ""
    ensures ParseLines(Lines(EntryLine(path != [], e) + rest), SectionText(path), t) ==
            Then(t, [Item(path + [e.prop], e.value)], SectionText(path), rest)
  {
    var w := WrittenLine(e.prop, e.value);
    LinesOfEntry(path != [], e, rest);
    WrittenLineReads(e.prop, e.value);
    ParseProperty(w, Lines(rest), SectionText(path), t, Property(Escape(e.prop), e.value));
    KeyOfProperty(path, e.prop);
    ThenOne(t, Item(path + [e.prop], e.value), SectionText(path), rest);
  }

  lemma LinesOfEntry(indent: bool, e: Entry, rest: string)
    requires Printable(e.prop) && Printable(e.value)
    ensures Lines(EntryLine(indent, e) + rest) == [WrittenLine(e.prop, e.value)] + Lines(rest)
  {
    var line := EntryLineStrips(indent, e.prop, e.value);
    LinesFirst(line, rest);
    assert EntryLine(indent, e) + rest == line + "\n" + rest;
  }

  lemma {:induction false} ReadEntries(path: Path, entries: seq<Entry>, t: Tree, rest: string)
    requires PrintableItems(OwnAt(path, entries))
    requires path == [] || Join(path) != ""
    ensures ParseLines(Lines(EntryLines(path != [], entries) + rest), SectionText(path), t) ==
            Then(t, OwnAt(path, entries), SectionText(path), rest)
    decreases |entries|
  {
    if entries == [] {
      assert "" + rest == rest;
    } else {
      var first, others := Item(path + [entries[0].prop], entries[0].value), OwnAt(path, entries[1..]);
      var line, lines := EntryLine(path != [], entries[0]), EntryLines(path != [], entries[1..]);
      assert OwnAt(path, entries) == [first] + others && EntryLines(path != [], entries) == line + lines;
      PrintableSplit([first], others);
      assert [first][0].path[|path|] == entries[0].prop;
      hide *;
      ReadEntries(path, entries[1..], InsertJoined(t, [first]).tree, rest);
      EntryThen(path, entries[0], t, lines, rest, others);
      KeyInverses.SeqAssoc(line, lines, rest);
    }
  }

  /** One entry line in front of text that is read as further entries. */
  lemma EntryThen(path: Path, e: Entry, t: Tree, lines: string, rest: string, others: seq<Item>)
    requires Printable(e.prop) && Printable(e.value) && ProperItems(others)
    requires path == [] || Join(path) != ""
    requires var t' := InsertJoined(t, [Item(path + [e.prop], e.value)]).tree;
             ParseLines(Lines(lines + rest), SectionText(path), t') == Then(t', others, SectionText(path), rest)
    ensures ParseLines(Lines(EntryLine(path != [], e) + (lines + rest)), SectionText(path), t) ==
            Then(t, [Item(path + [e.prop], e.value)] + others, SectionText(path), rest)
  {
    hide ParseLines, Lines, SectionText, InsertJoined, EntryLine;
    var first := Item(path + [e.prop], e.value);
    ReadEntry(path, e, t, lines + rest);
    ThenConcat(t, [first], others, SectionText(path), rest);
  }

  lemma LinesOfHead(path: Path, rest: string)
    requires path != [] && AllGood(path)
    ensures SectionKey("[ " + Join(path) + " ]") == Some(Join(path))
    ensures Lines(SectionHead(path) + rest) == ["[ " + Join(path) + " ]"] + Lines(rest)
  {
    var key := Join(path);
    IsolateJoin(path);
    JoinPrintable(path);
    SectionLineReads(key);
    HeadLine(key, rest);
  }

  lemma HeadLine(key: string, rest: string)
    requires Printable(key) && Strip("[ " + key + " ]") == "[ " + key + " ]"
    ensures Lines("[ " + key + " ]\n" + rest) == ["[ " + key + " ]"] + Lines(rest)
  {
    var line := "[ " + key + " ]";
    HeadPrintable(key);
    LinesFirst(line, rest);
    assert "[ " + key + " ]\n" == line + "\n";
  }

  lemma HeadPrintable(key: string)
    requires Printable(key)
    ensures '\n' !in "[ " + key + " ]"
  {
    var line := "[ " + key + " ]";
    assert forall i | 0 <= i < |key| :: line[i + 2] == key[i];
  }

  lemma ReadSectionHead(path: Path, section: string, t: Tree, rest: string)
    requires path != [] && AllGood(path)
    ensures ParseLines(Lines(SectionHead(path) + rest), section, t) == ParseLines(Lines(rest), Join(path), t)
  {
    LinesOfHead(path, rest);
    ParseSection("[ " + Join(path) + " ]", Lines(rest), section, t);
  }

  /** One section line in front of others. */
  lemma ParseSection(w: string, more: seq<string>, section: string, t: Tree)
    requires SectionKey(w).Some?
    ensures ParseLines([w] + more, section, t) == ParseLines(more, SectionKey(w).value, t)
  {
    assert ([w] + more)[0] == w && ([w] + more)[1..] == more;
  }

  /** The section a reader is in after the text written for a tree. */
  function SectionAfter(t: Tree, path: Path, section: string): string
    decreases t, 0
  {
    SectionAfterAll(t.subs, path, if t.entries == [] then section else SectionText(path))
  }

  function SectionAfterAll(subs: seq<Tree>, path: Path, section: string): string
    decreases subs, 0
  {
    if subs == [] then section
    else SectionAfterAll(subs[1..], path, SectionAfter(subs[0], path + [subs[0].name], section))
  }

  lemma ReadNode(path: Path, entries: seq<Entry>, section: string, t: Tree, rest: string)
    requires WriteNode(path, entries).ok && PrintableItems(OwnAt(path, entries))
    requires path == [] ==> section == ""
    ensures ParseLines(Lines(WriteNode(path, entries).text + rest), section, t) ==
            Then(t, OwnAt(path, entries), if entries == [] then section else SectionText(path), rest)
  {
    var lines := EntryLines(path != [], entries);
    if entries == [] {
      assert "" + rest == rest;
    } else if path == [] {
      assert "" + lines == lines;
      ReadEntries(path, entries, t, rest);
    } else {
      MergeIsolate(path);
      JoinPrintable(path);
      TextAssoc(SectionHead(path), lines, rest);
      ReadSectionHead(path, section, t, lines + rest);
      ReadEntries(path, entries, t, rest);
    }
  }

  lemma TextAssoc(a: string, b: string, c: string)
    ensures a + b + c == a + (b + c)
  {
  }

  /** Reading the text written for a tree inserts its properties, in order. */
  lemma {:induction false} ReadTree(t: Tree, path: Path, section: string, into: Tree, rest: string)
    requires Write(t, path).ok && PrintableItems(FlatAt(t, path))
    requires path == [] ==> section == ""
    ensures ParseLines(Lines(Write(t, path).text + rest), section, into) ==
            Then(into, FlatAt(t, path), SectionAfter(t, path, section), rest)
    decreases t, 0
  {
    var own, below := OwnAt(path, t.entries), FlatAllAt(t.subs, path);
    var n, w := WriteNode(path, t.entries), WriteAll(t.subs, path);
    var between := if t.entries == [] then section else SectionText(path);
    PrintableSplit(own, below);
    TextAssoc(n.text, w.text, rest);
    ReadNode(path, t.entries, section, into, w.text + rest);
    ThenConcat(into, own, below, SectionAfter(t, path, section), rest);
    ReadTrees(t.subs, path, between, InsertJoined(into, own).tree, rest);
  }

  lemma {:induction false} ReadTrees(subs: seq<Tree>, path: Path, section: string, into: Tree, rest: string)
    requires WriteAll(subs, path).ok && PrintableItems(FlatAllAt(subs, path))
    ensures ParseLines(Lines(WriteAll(subs, path).text + rest), section, into) ==
            Then(into, FlatAllAt(subs, path), SectionAfterAll(subs, path, section), rest)
    decreases subs, 0
  {
    if subs == [] {
      assert "" + rest == rest;
    } else {
      var p := path + [subs[0].name];
      var first, others := FlatAt(subs[0], p), FlatAllAt(subs[1..], path);
      var n, w := Write(subs[0], p), WriteAll(subs[1..], path);
      PrintableSplit(first, others);
      TextAssoc(n.text, w.text, rest);
      ReadTree(subs[0], p, section, into, w.text + rest);
      ThenConcat(into, first, others, SectionAfterAll(subs, path, section), rest);
      ReadTrees(subs[1..], path, SectionAfter(subs[0], p, section), InsertJoined(into, first).tree, rest);
    }
  }

  /** Parsing a written text inserts the properties of the tree, in order, into an empty tree. */
  lemma ParseWritten(t: Tree)
    requires Write(t, []).ok && PrintableItems(Flat(t))
    ensures Parse(Write(t, []).text) == InsertJoined(Empty(""), Flat(t))
  {
    FlatAtRoot(t);
    ReadTree(t, [], "", Empty(""), "");
    assert Write(t, []).text + "" == Write(t, []).text;
    assert Strip("") == "" && Lines("") == [];
  }

  // ---------- what parsing can give ----------

  ghost predicate Readable(t: Tree) {
    WellFormed(t) && t.name == "" && PrintableItems(Flat(t))
  }

  lemma PrintableGet(t: Tree, path: Path)
    requires WellFormed(t) && PrintableItems(Flat(t)) && path != [] && Get(t, path).Some?
    ensures Printable(path[|path| - 1]) && Printable(Get(t, path).value)
  {
    FlatGet(t, path, Get(t, path).value);
  }

  lemma InsertPrintable(t: Tree, path: Path, value: string, p: Path)
    requires Readable(t) && path != [] && Printable(path[|path| - 1]) && Printable(value)
    requires p != [] && Get(Insert(t, path, value).tree, p).Some?
    ensures Printable(p[|p| - 1]) && Printable(Get(Insert(t, path, value).tree, p).value)
  {
    GetInsert(t, path, value, p);
    if p != path || Get(t, path).Some? {
      PrintableGet(t, p);
    }
  }

  lemma InsertReadable(t: Tree, path: Path, value: string)
    requires Readable(t) && path != [] && Printable(path[|path| - 1]) && Printable(value)
    ensures Readable(Insert(t, path, value).tree)
  {
    var t' := Insert(t, path, value).tree;
    InsertWellFormed(t, path, value);
    OperationsKeepName(t, path, value);
    var flat := Flat(t');
    forall i | 0 <= i < |flat|
      ensures Printable(flat[i].path[|flat[i].path| - 1]) && Printable(flat[i].value)
    {
      var p, v := flat[i].path, flat[i].value;
      assert flat[i] in flat && flat[i] == Item(p, v);
      FlatGet(t', p, v);
      InsertPrintable(t, path, value, p);
    }
  }

  lemma {:induction false} CloseOfPrintable(s: string)
    requires Printable(s)
    ensures Printable(Strip(s)) && Printable(Unescape(s))
  {
    var a, b := StripSplits(s);
    assert forall i | 0 <= i < |Strip(s)| :: Strip(s)[i] == s[|a| + i];
    UnescapePrintable(s);
  }

  lemma ReadPropertyPrintable(line: string)
    requires ReadProperty(line).Read?
    ensures Printable(ReadProperty(line).value.prop) && Printable(ReadProperty(line).value.value)
  {
    var t := Strip(line);
    var end := PropertyEnd(t);
    assert Printable(t[..end]) && Printable(t[end..]);
    CloseOfPrintable(t[..end]);
    CloseOfPrintable(t[end..]);
    var rest := Strip(t[end..]);
    assert Printable(rest[1..]);
    CloseOfPrintable(rest[1..]);
    var v := Strip(rest[1..]);
    if |v| > 1 {
      assert Printable(v[1..|v| - 1]);
      UnescapePrintable(v[1..|v| - 1]);
    }
  }

  lemma {:induction false} ComponentsPrintable(key: string, i: nat)
    requires i <= |key| && Components(key, i).Some? && Printable(key)
    ensures forall j | 0 <= j < |Components(key, i).value| :: Printable(Components(key, i).value[j])
    decreases |key| - i
  {
    var e := ComponentEnd(key, i);
    if e < |key| {
      ComponentsPrintable(key, e + 1);
    }
  }

  lemma {:induction false} DecodeAllPrintable(texts: seq<string>)
    requires forall j | 0 <= j < |texts| :: Printable(texts[j])
    ensures forall j | 0 <= j < |texts| :: Printable(DecodeAll(texts)[j])
  {
    if texts != [] {
      var s := texts[0];
      if |s| >= 2 && s[0] == '"' {
        assert Printable(s[1..|s| - 1]);
        UnescapePrintable(s[1..|s| - 1]);
      } else {
        UnescapePrintable(s);
      }
      DecodeAllPrintable(texts[1..]);
    }
  }

  /** The property name a key ends in is printable if the property text is. */
  lemma LastPrintable(section: string, prop: string)
    requires Printable(prop) && (section == "" || ValidKey(section)) && ValidKey(FullKey(section, prop))
    ensures var cs := Isolate(FullKey(section, prop)).value; cs != [] && Printable(cs[|cs| - 1])
  {
    if section != "" {
      IsolateConcat(section, prop);
    }
    ComponentsPrintable(prop, 0);
    DecodeAllPrintable(Components(prop, 0).value);
    var cs, last := Isolate(FullKey(section, prop)).value, Isolate(prop).value;
    assert cs[|cs| - 1] == last[|last| - 1];
  }

  lemma InsertKeyReadable(t: Tree, section: string, p: Property)
    requires Readable(t) && (section == "" || ValidKey(section)) && Printable(p.prop) && Printable(p.value)
    ensures Readable(InsertKey(t, FullKey(section, p.prop), p.value).tree)
  {
    hide FullKey, Readable;
    var key := FullKey(section, p.prop);
    if ValidKey(key) {
      LastPrintable(section, p.prop);
      InsertReadable(t, Isolate(key).value, p.value);
    }
  }

  lemma {:induction false} ParseLinesReadable(lines: seq<string>, section: string, t: Tree)
    requires Readable(t) && (section == "" || ValidKey(section))
    ensures Readable(ParseLines(lines, section, t).tree)
    decreases |lines|
  {
    if lines != [] {
      hide ReadProperty, FullKey, Readable, InsertKey;
      match SectionKey(lines[0])
      case Some(key) => ParseLinesReadable(lines[1..], key, t);
      case None =>
        match ReadProperty(lines[0])
        case Malformed =>
        case Overrun =>
        case Read(p) =>
          ReadPropertyPrintable(lines[0]);
          var key := FullKey(section, p.prop);
          InsertKeyReadable(t, section, p);
          ParseLinesReadable(lines[1..], section, InsertKey(t, key, p.value).tree);
    }
  }

  /** Whatever the text, the parsed tree has unique siblings and only printable property names and values. */
  lemma ParseReadable(text: string)
    ensures Readable(Parse(text).tree)
  {
    ParseLinesReadable(Lines(text), "", Empty(""));
  }

  // ---------- the round trip ----------

  lemma {:induction false} InsertStatus(t: Tree, path: Path, value: string)
    requires path != []
    ensures Insert(t, path, value).status in {-1, 0, 1}
    decreases |path|
  {
    if |path| > 1 {
      var i := FindSub(t.subs, path[0]);
      InsertStatus(if i < |t.subs| then t.subs[i] else Empty(path[0]), path[1..], value);
    }
  }

  lemma InsertKeyStatus(t: Tree, key: string, value: string)
    ensures InsertKey(t, key, value).status in {-1, 0, 1}
  {
    if ValidKey(key) {
      InsertStatus(t, Isolate(key).value, value);
    }
  }

  lemma {:induction false} InsertJoinedStatus(t: Tree, items: seq<Item>)
    requires ProperItems(items)
    ensures InsertJoined(t, items).status != OVERRUN
    decreases |items|
  {
    if items != [] {
      var key := Join(items[0].path);
      InsertKeyStatus(t, key, items[0].value);
      InsertJoinedStatus(InsertKey(t, key, items[0].value).tree, items[1..]);
    }
  }

  /** Reading back a written text with printable names and values never leaves a buffer. */
  lemma WrittenStaysInside(t: Tree)
    requires Write(t, []).ok && PrintableItems(Flat(t))
    ensures Parse(Write(t, []).text).status != OVERRUN
  {
    ParseWritten(t);
    InsertJoinedStatus(Empty(""), Flat(t));
  }

  /** Every line before line `i` is read, and the value on line `i` overruns. */
  ghost predicate OverrunAt(lines: seq<string>, section: string, t: Tree, i: nat)
    requires i < |lines|
  {
    ParseLines(lines[..i], section, t).status == 0 && SectionKey(lines[i]).None? && ReadProperty(lines[i]).Overrun?
  }

  lemma AtFirstLine(lines: seq<string>, section: string, t: Tree)
    requires lines != []
    ensures OverrunAt(lines, section, t, 0) <==> SectionKey(lines[0]).None? && ReadProperty(lines[0]).Overrun?
  {
    hide SectionKey, ReadProperty;
    assert lines[..0] == [];
  }

  lemma AtLaterLine(lines: seq<string>, section: string, t: Tree, i: nat)
    requires 1 <= i < |lines|
    ensures OverrunAt(lines, section, t, i) <==>
            match SectionKey(lines[0])
            case Some(key) => OverrunAt(lines[1..], key, t, i - 1)
            case None =>
              match ReadProperty(lines[0])
              case Malformed => false
              case Overrun => false
              case Read(p) =>
                var r := InsertKey(t, FullKey(section, p.prop), p.value);
                r.status == 0 && OverrunAt(lines[1..], section, r.tree, i - 1)
  {
    hide SectionKey, ReadProperty, InsertKey, FullKey;
    var first := lines[..i];
    assert first != [] && first[0] == lines[0] && first[1..] == lines[1..][..i - 1];
  }

  /**
    Reading lines leaves a buffer exactly if, behind lines that are read without an error, there is a
    property line whose value is in quotes and ends in an odd number of backslashes.
   */
  lemma {:induction false} ParseOverrunIff(lines: seq<string>, section: string, t: Tree)
    ensures ParseLines(lines, section, t).status == OVERRUN <==>
            exists i | 0 <= i < |lines| :: OverrunAt(lines, section, t, i)
    decreases |lines|
  {
    if lines != [] {
      hide SectionKey, ReadProperty, InsertKey, FullKey, OverrunAt;
      AtFirstLine(lines, section, t);
      forall i | 1 <= i < |lines| {
        AtLaterLine(lines, section, t, i);
      }
      match SectionKey(lines[0])
      case Some(key) => OverrunBehind(lines, section, t, key, t);
      case None =>
        match ReadProperty(lines[0])
        case Malformed =>
        case Overrun =>
        case Read(p) =>
          var key := FullKey(section, p.prop);
          var r := InsertKey(t, key, p.value);
          InsertKeyStatus(t, key, p.value);
          if r.status == 0 {
            OverrunBehind(lines, section, t, section, r.tree);
          }
    }
  }

  /** Reading goes on behind the first line, which leaves the section `key` and the tree `u`. */
  lemma {:induction false} OverrunBehind(lines: seq<string>, section: string, t: Tree, key: string, u: Tree)
    requires lines != []
    requires forall i | 1 <= i < |lines| ::
               OverrunAt(lines, section, t, i) <==> OverrunAt(lines[1..], key, u, i - 1)
    ensures ParseLines(lines[1..], key, u).status == OVERRUN <==>
            exists i | 1 <= i < |lines| :: OverrunAt(lines, section, t, i)
    decreases |lines|, 0
  {
    hide OverrunAt, ParseLines;
    var rest := lines[1..];
    ParseOverrunIff(rest, key, u);
    if j :| 0 <= j < |rest| && OverrunAt(rest, key, u, j) {
      assert OverrunAt(lines, section, t, j + 1);
    }
  }

  /** Every section and property name on the way to a value is good, and the values are printable. */
  ghost predicate GoodItems(items: seq<Item>) {
    GoodPaths(items) && PrintableItems(items)
  }

  lemma {:induction false} WriteGoes(t: Tree, path: Path)
    requires GoodPaths(FlatAt(t, path))
    ensures Write(t, path).ok
    decreases t, 0
  {
    var own, below := OwnAt(path, t.entries), FlatAllAt(t.subs, path);
    assert forall i | 0 <= i < |below| :: FlatAt(t, path)[|own| + i] == below[i];
    if t.entries != [] {
      var p := t.entries[0].prop;
      assert FlatAt(t, path)[0].path == path + [p];
      assert forall i | 0 <= i < |path| :: (path + [p])[i] == path[i];
      MergeIsolate(path);
    }
    WriteAllGoes(t.subs, path);
  }

  lemma {:induction false} WriteAllGoes(subs: seq<Tree>, path: Path)
    requires GoodPaths(FlatAllAt(subs, path))
    ensures WriteAll(subs, path).ok
    decreases subs, 0
  {
    if subs != [] {
      var first, others := FlatAt(subs[0], path + [subs[0].name]), FlatAllAt(subs[1..], path);
      assert forall i | 0 <= i < |first| :: (first + others)[i] == first[i];
      assert forall i | 0 <= i < |others| :: (first + others)[|first| + i] == others[i];
      WriteGoes(subs[0], path + [subs[0].name]);
      WriteAllGoes(subs[1..], path);
    }
  }

  /** Writing goes through and parsing gives the tree back, up to sections without any property. */
  ghost predicate RoundTrips(t: Tree) {
    Write(t, []).ok && Parse(Write(t, []).text) == Outcome(0, Prune(t))
  }

  /** A tree survives writing and parsing exactly if its names are good and its names and values printable. */
  lemma RoundTripIff(t: Tree)
    requires WellFormed(t) && t.name == ""
    ensures RoundTrips(t) <==> GoodItems(Flat(t))
  {
    FlatAtRoot(t);
    InsertJoinedIsInsertAll(Empty(""), Flat(t));
    if GoodItems(Flat(t)) {
      WriteGoes(t, []);
      ParseWritten(t);
      Rebuild(t);
    }
    if RoundTrips(t) {
      ParseReadable(Write(t, []).text);
      FlatPrune(t);
      ParseWritten(t);
    }
  }
}
