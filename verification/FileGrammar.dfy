/**
  Config files written by hand (src/config/parse-config.c): which texts are read without an error, for every
  text, and what map from paths to values they stand for.
 */
module FileGrammar {
  import opened Wrappers
  import opened Text
  import opened KeyLanguage
  import opened KeyGrammar
  import opened KeyInverses
  import opened ConfigTree
  import opened ConfigFile
  import opened LineGrammar

  // ---------- section heads ----------

  /** A section head with its white space; without parts it leaves the section. */
  datatype Head = Head(a: string, b: string, parts: seq<Part>, c: string, d: string)

  function SectionText(parts: seq<Part>): string {
    if parts == [] then "" else KeyText(parts)
  }

  function HeadText(h: Head): string {
    h.a + ("[" + (h.b + SectionText(h.parts) + h.c) + "]") + h.d
  }

  ghost predicate ProperSection(parts: seq<Part>) {
    parts == [] || ProperParts(parts)
  }

  ghost predicate ProperHead(h: Head) {
    && AllSpace(h.a) && AllSpace(h.b) && AllSpace(h.c) && AllSpace(h.d)
    && ProperSection(h.parts)
  }

  lemma {:induction false} KeyTight(parts: seq<Part>)
    requires ProperParts(parts)
    ensures KeyText(parts) != "" && Tight(KeyText(parts)) && KeyText(parts)[0] != '['
    decreases |parts|
  {
    assert ProperPart(parts[0]);
    if |parts| > 1 {
      KeyTight(parts[1..]);
      var k := KeyText(parts);
      assert k[|k| - 1] == KeyText(parts[1..])[|KeyText(parts[1..])| - 1];
    }
  }

  lemma SectionValid(parts: seq<Part>)
    requires ProperSection(parts)
    ensures Tight(SectionText(parts)) && (SectionText(parts) != "" ==> ValidKey(SectionText(parts)))
    ensures SectionText(parts) == "" <==> parts == []
  {
    if parts != [] {
      KeyTight(parts);
      KeyReads(parts);
    }
  }

  /** Every head of the grammar is read as its key. */
  lemma HeadReads(h: Head)
    requires ProperHead(h)
    ensures SectionKey(HeadText(h)) == Some(SectionText(h.parts))
  {
    hide Strip, KeyText, ProperParts;
    var key := SectionText(h.parts);
    var t := "[" + (h.b + key + h.c) + "]";
    SectionValid(h.parts);
    StripMiddle(h.a, t, h.d);
    assert t[1..|t| - 1] == h.b + key + h.c;
    StripMiddle(h.b, key, h.c);
  }

  /** Every section head that is accepted is in the grammar. */
  lemma HeadOf(line: string) returns (h: Head)
    requires SectionKey(line).Some?
    ensures ProperHead(h) && HeadText(h) == line && SectionText(h.parts) == SectionKey(line).value
  {
    hide Strip;
    var a, d := StripSplits(line);
    var t := Strip(line);
    var b, c := StripSplits(t[1..|t| - 1]);
    var key := Strip(t[1..|t| - 1]);
    assert t == "[" + (b + key + c) + "]";
    var parts := [];
    if key != "" {
      parts := KeyParts(key);
    }
    h := Head(a, b, parts, c, d);
  }

  /** A line is a section head with the given key exactly if it is written so. */
  lemma SectionKeyIff(line: string, key: string)
    ensures SectionKey(line) == Some(key) <==>
            exists h :: ProperHead(h) && HeadText(h) == line && SectionText(h.parts) == key
  {
    hide SectionKey, ProperHead, HeadText, SectionText;
    if SectionKey(line) == Some(key) {
      var h := HeadOf(line);
    }
    if h :| ProperHead(h) && HeadText(h) == line && SectionText(h.parts) == key {
      HeadReads(h);
    }
  }

  // ---------- files ----------

  /** White space, a section head, or a property line whose property is a key. */
  datatype FileLine = Space(s: string) | Section(h: Head) | Setting(l: PropertyLine, parts: seq<Part>)

  function TextOf(f: FileLine): string {
    match f
    case Space(s) => s
    case Section(head) => HeadText(head)
    case Setting(l, _) => LineText(l)
  }

  ghost predicate ProperFileLine(f: FileLine) {
    '\n' !in TextOf(f) && InGrammar(f) && (f.Setting? ==> ValueMeaning(f.l.v).Read?)
  }

  ghost predicate InGrammar(f: FileLine) {
    match f
    case Space(s) => AllSpace(s)
    case Section(head) => ProperHead(head)
    case Setting(l, parts) =>
      ProperLine(l) && ProperParts(parts) && NameText(l.p) == KeyText(parts)
  }

  ghost predicate AllProper(lines: seq<FileLine>) {
    forall i | 0 <= i < |lines| :: ProperFileLine(lines[i])
  }

  ghost predicate ProperFile(lines: seq<FileLine>) {
    lines != [] && AllProper(lines)
  }

  /** The lines with line feeds between them; a file that ends in one has an empty last line. */
  function FileText(lines: seq<FileLine>): string
    requires lines != []
  {
    if |lines| == 1 then TextOf(lines[0]) else TextOf(lines[0]) + "\n" + FileText(lines[1..])
  }

  /** The settings of a file, in order: the parts of the section and of the property, and the value. */
  function Listed(lines: seq<FileLine>, section: seq<Part>): seq<Item>
    requires AllProper(lines)
    decreases |lines|
  {
    if lines == [] then []
    else
      match lines[0]
      case Space(_) => Listed(lines[1..], section)
      case Section(head) => Listed(lines[1..], head.parts)
      case Setting(l, parts) =>
        [Item(Meanings(section) + Meanings(parts), ValueMeaning(l.v).value)] + Listed(lines[1..], section)
  }

  lemma {:induction false} ListedProper(lines: seq<FileLine>, section: seq<Part>)
    requires AllProper(lines)
    ensures ProperItems(Listed(lines, section))
    decreases |lines|
  {
    if lines != [] {
      assert ProperFileLine(lines[0]);
      ListedProper(lines[1..], if lines[0].Section? then lines[0].h.parts else section);
    }
  }

  // ---------- what a line does ----------

  /** One line of a file, trimmed or not, in front of the others. */
  function ReadOn(line: string, rest: seq<string>, section: string, t: Tree): Outcome {
    ParseLines(NonBlank(Strip(line)) + rest, section, t)
  }

  lemma SpaceReads(s: string, rest: seq<string>, section: string, t: Tree)
    requires AllSpace(s)
    ensures ReadOn(s, rest, section, t) == ParseLines(rest, section, t)
  {
    StripMiddle(s, "", "");
    assert s + "" + "" == s && [] + rest == rest;
  }

  lemma StripOnce(line: string)
    ensures Strip(Strip(line)) == Strip(line)
    ensures SectionKey(Strip(line)) == SectionKey(line) && ReadProperty(Strip(line)) == ReadProperty(line)
  {
    StripTight(line);
  }

  lemma HeadOn(line: string, rest: seq<string>, section: string, t: Tree)
    requires SectionKey(line).Some?
    ensures ReadOn(line, rest, section, t) == ParseLines(rest, SectionKey(line).value, t)
  {
    hide SectionKey, Strip, ReadProperty;
    StripOnce(line);
    SectionNotBlank(line);
    var all := [Strip(line)] + rest;
    assert all[0] == Strip(line) && all[1..] == rest;
  }

  lemma SectionNotBlank(line: string)
    requires SectionKey(line).Some? || ReadProperty(line) != Malformed
    ensures Strip(line) != ""
  {
  }

  lemma PropertyOn(line: string, rest: seq<string>, section: string, t: Tree)
    requires SectionKey(line).None? && ReadProperty(line).Read?
    ensures var p := ReadProperty(line).value;
            var r := InsertKey(t, FullKey(section, p.prop), p.value);
            ReadOn(line, rest, section, t) == if r.status != 0 then r else ParseLines(rest, section, r.tree)
  {
    hide SectionKey, Strip, ReadProperty, InsertKey, FullKey;
    StripOnce(line);
    SectionNotBlank(line);
    var all := [Strip(line)] + rest;
    assert all[0] == Strip(line) && all[1..] == rest;
  }

  lemma ErrorOn(line: string, rest: seq<string>, section: string, t: Tree)
    requires Strip(line) != "" && SectionKey(line).None? && !ReadProperty(line).Read?
    ensures ReadOn(line, rest, section, t) == Outcome(if ReadProperty(line).Overrun? then OVERRUN else 1, t)
  {
    hide SectionKey, Strip, ReadProperty;
    StripOnce(line);
    var all := [Strip(line)] + rest;
    assert all[0] == Strip(line);
  }

  /** A setting is inserted under the parts of its section and its property. */
  lemma SettingInserts(section: seq<Part>, parts: seq<Part>, value: string, t: Tree)
    requires ProperSection(section) && ProperParts(parts)
    ensures InsertKey(t, FullKey(SectionText(section), KeyText(parts)), value) ==
            Insert(t, Meanings(section) + Meanings(parts), value)
  {
    hide Isolate, KeyText, Insert;
    KeyReads(parts);
    SectionValid(section);
    if section == [] {
      assert [] + Meanings(parts) == Meanings(parts);
    } else {
      KeyReads(section);
      IsolateDotted(KeyText(section), KeyText(parts));
    }
    ValidIsolate(FullKey(SectionText(section), KeyText(parts)));
  }

  lemma ValidIsolate(key: string)
    ensures ValidKey(key) <==> Isolate(key).Some?
  {
  }

  /** A property line whose property is a key is not a section head. */
  lemma SettingNoHead(f: FileLine)
    requires f.Setting? && ProperFileLine(f)
    ensures SectionKey(TextOf(f)).None?
  {
    hide Strip, KeyText;
    KeyTight(f.parts);
    LineTrims(f.l);
    assert Strip(TextOf(f))[0] == NameText(f.l.p)[0];
  }

  // ---------- from the lines to the tree ----------

  lemma LinesOne(line: string)
    requires '\n' !in line
    ensures Lines(line) == NonBlank(Strip(line)) + []
  {
  }

  /** What is left to do behind a line: the section, and the tree or a failure. */
  function Next(f: FileLine, section: seq<Part>): seq<Part> {
    if f.Section? then f.h.parts else section
  }

  function Change(f: FileLine, section: seq<Part>, t: Tree): Outcome
    requires f.Setting? ==> ValueMeaning(f.l.v).Read? && f.parts != []
  {
    if f.Setting? then Insert(t, Meanings(section) + Meanings(f.parts), ValueMeaning(f.l.v).value) else Outcome(0, t)
  }

  lemma LineInserts(f: FileLine, rest: seq<string>, section: seq<Part>, t: Tree)
    requires ProperFileLine(f) && ProperSection(section)
    ensures ProperSection(Next(f, section))
    ensures var r := Change(f, section, t);
            ReadOn(TextOf(f), rest, SectionText(section), t) ==
            if r.status != 0 then r else ParseLines(rest, SectionText(Next(f, section)), r.tree)
  {
    hide ReadOn, ParseLines, SectionKey, ReadProperty, ProperLine, Insert;
    match f
    case Space(s) => SpaceReads(s, rest, SectionText(section), t);
    case Section(head) =>
      HeadReads(head);
      HeadOn(HeadText(head), rest, SectionText(section), t);
    case Setting(l, parts) =>
      SettingNoHead(f);
      LineReads(l);
      PropertyOn(LineText(l), rest, SectionText(section), t);
      SettingInserts(section, parts, ValueMeaning(l.v).value, t);
  }

  lemma SettingRead(f: FileLine)
    requires ProperFileLine(f) && f.Setting?
    ensures ValueMeaning(f.l.v).Read? && f.parts != []
  {
  }

  /** The trimmed lines of a file, or of nothing. */
  function TrimmedLines(lines: seq<FileLine>): seq<string> {
    if lines == [] then [] else Lines(FileText(lines))
  }

  lemma TrimmedFirst(lines: seq<FileLine>)
    requires lines != [] && '\n' !in TextOf(lines[0])
    ensures TrimmedLines(lines) == NonBlank(Strip(TextOf(lines[0]))) + TrimmedLines(lines[1..])
  {
    hide Lines, Strip;
    if |lines| == 1 {
      LinesOne(TextOf(lines[0]));
    } else {
      LinesFirst(TextOf(lines[0]), FileText(lines[1..]));
    }
  }

  /** Reading a file of the grammar is inserting its settings one by one. */
  lemma {:induction false} FileReads(lines: seq<FileLine>, section: seq<Part>, t: Tree)
    requires AllProper(lines) && ProperSection(section)
    ensures ProperItems(Listed(lines, section))
    ensures ParseLines(TrimmedLines(lines), SectionText(section), t) == InsertAll(t, Listed(lines, section))
    decreases |lines|
  {
    ListedProper(lines, section);
    if lines != [] {
      hide Insert, ProperFileLine, ProperSection, TrimmedLines, SectionText;
      var f, more := lines[0], lines[1..];
      assert ProperFileLine(f);
      if f.Setting? {
        SettingRead(f);
      }
      TrimmedFirst(lines);
      LineInserts(f, TrimmedLines(more), section, t);
      FileReads(more, Next(f, section), Change(f, section, t).tree);
    }
  }

  // ---------- from a text that is read to its lines ----------

  /** A line behind which reading goes on is in the grammar. */
  lemma LineOfFile(line: string, rest: seq<string>, section: seq<Part>, t: Tree) returns (f: FileLine)
    requires '\n' !in line && ProperSection(section)
    requires ReadOn(line, rest, SectionText(section), t).status == 0
    ensures ProperFileLine(f) && TextOf(f) == line
  {
    hide ReadOn, SectionKey, ReadProperty, Strip, SectionText, ProperLine, ProperHead, InsertKey, FullKey;
    if Strip(line) == "" {
      var a, b := StripSplits(line);
      assert line == a + b;
      return Space(line);
    }
    if SectionKey(line).Some? {
      var head := HeadOf(line);
      return Section(head);
    }
    if !ReadProperty(line).Read? {
      ErrorOn(line, rest, SectionText(section), t);
    }
    PropertyOn(line, rest, SectionText(section), t);
    var l := LineOf(line);
    LineReads(l);
    var p := ReadProperty(line).value;
    InsertedIsValid(t, FullKey(SectionText(section), p.prop), p.value);
    PropertyValid(section, p.prop);
    var parts := KeyParts(p.prop);
    return Setting(l, parts);
  }

  lemma InsertedIsValid(t: Tree, key: string, value: string)
    requires InsertKey(t, key, value).status == 0
    ensures ValidKey(key)
  {
  }

  lemma PropertyValid(section: seq<Part>, prop: string)
    requires ProperSection(section) && ValidKey(FullKey(SectionText(section), prop))
    ensures ValidKey(prop)
  {
    hide Isolate, KeyText;
    SectionValid(section);
    if section != [] {
      IsolateConcat(SectionText(section), prop);
      ValidIsolate(SectionText(section) + "." + prop);
    }
  }

  /** Where a text begins with a line, reading it is reading that line and going on. */
  lemma TextGoesOn(text: string) returns (line: string, rest: string)
    ensures '\n' !in line && if '\n' in text then text == line + "\n" + rest && |rest| < |text| else text == line
    ensures Lines(text) == NonBlank(Strip(line)) + if '\n' in text then Lines(rest) else []
  {
    hide Strip;
    var n := IndexOf(text, '\n');
    if n < 0 {
      LinesOne(text);
      return text, "";
    }
    line, rest := text[..n], text[n + 1..];
    assert text == line + "\n" + rest;
  }

  lemma {:induction false} FileOf(text: string, section: seq<Part>, t: Tree) returns (lines: seq<FileLine>)
    requires ProperSection(section) && ParseLines(Lines(text), SectionText(section), t).status == 0
    ensures ProperFile(lines) && FileText(lines) == text
    decreases |text|
  {
    hide Lines, Strip, SectionText, ProperSection, ProperFileLine, Insert;
    var line, rest := TextGoesOn(text);
    var more := if '\n' in text then Lines(rest) else [];
    var f := LineOfFile(line, more, section, t);
    if '\n' !in text {
      return [f];
    }
    LineInserts(f, more, section, t);
    if f.Setting? {
      SettingRead(f);
    }
    var others := FileOf(rest, Next(f, section), Change(f, section, t).tree);
    lines := [f] + others;
    assert lines[1..] == others;
  }

  // ---------- what a file means ----------

  /** No path is set twice. */
  ghost predicate Distinct(items: seq<Item>) {
    forall i, j | 0 <= i < j < |items| :: items[i].path != items[j].path
  }

  ghost predicate Fresh(m: map<Path, string>, items: seq<Item>) {
    forall i | 0 <= i < |items| :: items[i].path !in m
  }

  /** The map is the other one with exactly the items added. */
  ghost predicate Adds(m: map<Path, string>, items: seq<Item>, all: map<Path, string>) {
    forall p, v :: At(all, p) == Some(v) <==> At(m, p) == Some(v) || Item(p, v) in items
  }

  lemma FreshStep(m: map<Path, string>, items: seq<Item>)
    requires items != []
    ensures var it, rest := items[0], items[1..];
            Fresh(m, items) && Distinct(items) <==>
            it.path !in m && Fresh(m[it.path := it.value], rest) && Distinct(rest)
  {
    var it, rest := items[0], items[1..];
    assert items == [it] + rest && forall i | 0 <= i < |rest| :: rest[i] == items[i + 1];
    if it.path !in m && Fresh(m[it.path := it.value], rest) && Distinct(rest) {
      forall i, j | 0 <= i < j < |items|
        ensures items[i].path != items[j].path
      {
        assert items[j] == rest[j - 1];
        if i > 0 {
          assert items[i] == rest[i - 1];
        }
      }
    }
  }

  lemma AddsStep(m: map<Path, string>, items: seq<Item>, all: map<Path, string>)
    requires items != [] && items[0].path !in m
    requires Adds(m[items[0].path := items[0].value], items[1..], all)
    ensures Adds(m, items, all)
  {
    var it, rest := items[0], items[1..];
    assert items == [it] + rest;
    var m1 := m[it.path := it.value];
    forall p, v
      ensures At(all, p) == Some(v) <==> At(m, p) == Some(v) || Item(p, v) in items
    {
      assert Item(p, v) in items <==> Item(p, v) == it || Item(p, v) in rest;
    }
  }

  /** Inserting items works exactly if their paths are new and distinct, and adds exactly them. */
  lemma {:induction false} InsertAllMap(t: Tree, items: seq<Item>)
    requires WellFormed(t) && ProperItems(items)
    ensures WellFormed(InsertAll(t, items).tree)
    ensures InsertAll(t, items).status == 0 <==> Fresh(MapOf(t), items) && Distinct(items)
    ensures InsertAll(t, items).status == 0 ==> Adds(MapOf(t), items, MapOf(InsertAll(t, items).tree))
    decreases |items|
  {
    if items != [] {
      hide MapOf, Insert, WellFormed, Fresh, Adds, Distinct;
      var it := items[0];
      InsertRefinesMap(t, it.path, it.value);
      InsertAllMap(Insert(t, it.path, it.value).tree, items[1..]);
      FreshStep(MapOf(t), items);
      if InsertAll(t, items).status == 0 {
        AddsStep(MapOf(t), items, MapOf(InsertAll(t, items).tree));
      }
    }
  }

  /** The file has the text and sets no path twice. */
  ghost predicate Writes(lines: seq<FileLine>, text: string) {
    ProperFile(lines) && FileText(lines) == text && Distinct(Listed(lines, []))
  }

  /** A text is read without an error exactly if it is a file of the grammar in which no path is set twice. */
  lemma ParseIff(text: string)
    ensures Parse(text).status == 0 <==> exists lines: seq<FileLine> :: Writes(lines, text)
  {
    if Parse(text).status == 0 {
      var lines := FileOf(text, [], Empty(""));
      ParseMeans(lines);
      assert Writes(lines, text);
    }
    if lines: seq<FileLine> :| Writes(lines, text) {
      ParseMeans(lines);
    }
  }

  /** The tree that is read stands for the map of exactly the settings that are written in the file. */
  lemma ParseMeans(lines: seq<FileLine>)
    requires ProperFile(lines)
    ensures var r, items := Parse(FileText(lines)), Listed(lines, []);
            && (r.status == 0 <==> Distinct(items))
            && (r.status == 0 ==> forall p, v :: At(MapOf(r.tree), p) == Some(v) <==> Item(p, v) in items)
  {
    FileReads(lines, [], Empty(""));
    InsertAllMap(Empty(""), Listed(lines, []));
    EmptyMap();
  }

  lemma EmptyMap()
    ensures WellFormed(Empty("")) && MapOf(Empty("")) == map[]
  {
  }

  // ---------- an example ----------

  const USER_FILE := "[user]\n" + ("\tname = " + FULL_NAME)
  const FULL_NAME := "Brandon Richardson"
  const USER_HEAD := Section(Head("", "", [Word("user")], "", ""))
  const NAME_LINE := Setting(PropertyLine("\t", Unquoted("name"), " ", " ", Bare(FULL_NAME), ""), [Word("name")])

  lemma UserHead()
    ensures ProperFileLine(USER_HEAD) && TextOf(USER_HEAD) == "[user]"
  {
    assert KeyText([Word("user")]) == "user" && ProperPart(Word("user"));
  }

  lemma NameLine()
    ensures ProperFileLine(NAME_LINE) && TextOf(NAME_LINE) == "\tname = " + FULL_NAME
  {
    NameValue();
    hide ProperValue, ValueText, ValueMeaning;
    assert KeyText([Word("name")]) == "name" && ProperPart(Word("name"));
    NameLineText(FULL_NAME);
  }

  lemma NameValue()
    ensures var v := Bare(FULL_NAME);
            ProperValue(v) && ValueText(v) == FULL_NAME && Printable(FULL_NAME) && '\n' !in FULL_NAME
    ensures ValueMeaning(Bare(FULL_NAME)) == Read(FULL_NAME)
  {
  }

  lemma NameLineText(value: string)
    ensures "\t" + ("name" + " ") + ("=" + " " + value) + "" == "\tname = " + value
  {
  }

  lemma UserItems()
    requires AllProper([USER_HEAD, NAME_LINE])
    ensures Listed([USER_HEAD, NAME_LINE], []) == [Item(["user", "name"], FULL_NAME)]
  {
    hide ProperFileLine;
    assert [USER_HEAD, NAME_LINE][1..] == [NAME_LINE] && [NAME_LINE][1..] == [];
    assert Meanings([Word("user")]) == ["user"] && Meanings([Word("name")]) == ["name"];
    assert Listed([], [Word("user")]) == [];
    assert ["user"] + ["name"] == ["user", "name"];
  }

  /** The value of a property runs to the end of its line. */
  lemma UserFileReads()
    ensures Parse(USER_FILE).status == 0 && MapOf(Parse(USER_FILE).tree) == map[["user", "name"] := FULL_NAME]
  {
    hide Parse, MapOf, ProperFileLine, TextOf, Listed;
    var lines := [USER_HEAD, NAME_LINE];
    UserHead();
    NameLine();
    UserItems();
    assert lines[1..] == [NAME_LINE];
    assert FileText(lines) == "[user]" + "\n" + ("\tname = " + FULL_NAME) == USER_FILE;
    ParseMeans(lines);
    OneSetting(MapOf(Parse(USER_FILE).tree), Item(["user", "name"], FULL_NAME));
  }

  lemma OneSetting(m: map<Path, string>, it: Item)
    requires forall p, v :: At(m, p) == Some(v) <==> Item(p, v) in [it]
    ensures m == map[it.path := it.value]
  {
    assert At(m, it.path) == Some(it.value);
    forall p | p in m
      ensures p == it.path
    {
      assert At(m, p) == Some(m[p]);
    }
  }
}
