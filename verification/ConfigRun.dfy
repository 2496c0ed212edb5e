/**
  The commands of `git chat config` (src/builtin/config.c) as steps on the bytes of the config file,
  and the plain map that a run of them refines.
 */
module ConfigRun {
  import opened Wrappers
  import opened Text
  import opened KeyLanguage
  import opened KeyGrammar
  import opened ConfigTree
  import opened ConfigFile
  import opened RoundTrip

  datatype Command = Set(key: string, value: string) | Unset(key: string) | Query(key: string)

  /**
    How a command ends: with an exit code and perhaps a line of output, by an error message, or by reading
    outside a buffer, after which anything may happen.
   */
  datatype Ending = Exit(code: int, output: Option<string>) | Died | Overran

  /** The ending of a command that cannot parse its file. */
  function Unparsed(status: int): Ending {
    if status == OVERRUN then Overran else Died
  }

  // ---------- the commands on the file ----------

  function FindKey(t: Tree, key: string): Option<string> {
    if ValidKey(key) then Get(t, Isolate(key).value) else None
  }

  function UpdateKey(t: Tree, key: string, value: string): Outcome {
    if ValidKey(key) then Update(t, Isolate(key).value, value) else Outcome(-1, t)
  }

  function DeleteKey(t: Tree, key: string): Outcome {
    if ValidKey(key) then Delete(t, Isolate(key).value) else Outcome(-1, t)
  }

  /** The change `config_set_value` makes to the parsed tree; no value means that the key is unset. */
  function Change(t: Tree, key: string, value: Option<string>): Outcome {
    match (value, FindKey(t, key))
    case (None, Some(_)) => DeleteKey(t, key)
    case (None, None) => Outcome(0, t)
    case (Some(v), None) => InsertKey(t, key, v)
    case (Some(v), Some(_)) => UpdateKey(t, key, v)
  }

  datatype Stepped = Stepped(file: string, ending: Ending)

  /** `config_set_value`: parse the file, change the tree, and write it over the file. */
  function SetValue(file: string, key: string, value: Option<string>): Stepped {
    var parsed := Parse(file);
    if parsed.status != 0 then Stepped(file, Unparsed(parsed.status))
    else
      var changed := Change(parsed.tree, key, value);
      if changed.status != 0 then Stepped(file, Died)
      else
        var written := Write(changed.tree, []);
        if !written.ok then Stepped(written.text, Died)
        else Stepped(written.text, Exit(if value.None? && FindKey(parsed.tree, key).None? then 1 else 0, None))
  }

  /** `config_query_value`, without the fallback to a default. */
  function QueryValue(file: string, key: string): Ending {
    var parsed := Parse(file);
    if parsed.status != 0 then Unparsed(parsed.status)
    else
      var value := FindKey(parsed.tree, key);
      Exit(if value.None? then 1 else 0, value)
  }

  function Step(file: string, c: Command): Stepped {
    match c
    case Set(key, value) => SetValue(file, key, Some(value))
    case Unset(key) => SetValue(file, key, None)
    case Query(key) => Stepped(file, QueryValue(file, key))
  }

  datatype Run = Run(file: string, endings: seq<Ending>)

  function RunAll(file: string, cs: seq<Command>): Run
    decreases |cs|
  {
    if cs == [] then Run(file, [])
    else
      var s := Step(file, cs[0]);
      var rest := RunAll(s.file, cs[1..]);
      Run(rest.file, [s.ending] + rest.endings)
  }

  // ---------- the same commands on a map ----------

  type Config = map<Path, string>

  datatype MapStepped = MapStepped(config: Config, ending: Ending)

  function MapStep(m: Config, c: Command): MapStepped {
    if !ValidKey(c.key) then MapStepped(m, if c.Set? then Died else Exit(1, None))
    else
      var path := Isolate(c.key).value;
      match c
      case Set(_, value) => MapStepped(m[path := value], Exit(0, None))
      case Unset(_) => MapStepped(m - {path}, Exit(if path in m then 0 else 1, None))
      case Query(_) => MapStepped(m, if path in m then Exit(0, Some(m[path])) else Exit(1, None))
  }

  datatype MapRun = MapRun(config: Config, endings: seq<Ending>)

  function MapRunAll(m: Config, cs: seq<Command>): MapRun
    decreases |cs|
  {
    if cs == [] then MapRun(m, [])
    else
      var s := MapStep(m, cs[0]);
      var rest := MapRunAll(s.config, cs[1..]);
      MapRun(rest.config, [s.ending] + rest.endings)
  }

  // ---------- refinement ----------

  /** The file parses, without reading outside a buffer, and only to good names. */
  ghost predicate GoodFile(file: string) {
    Parse(file).status == 0 && GoodItems(Flat(Parse(file).tree))
  }

  ghost function ConfigOf(file: string): Config {
    MapOf(Parse(file).tree)
  }

  /** What a command may be given: a key that is valid has good components, and a value is printable. */
  predicate GoodCommand(c: Command) {
    c.Set? && ValidKey(c.key) ==> AllGood(Isolate(c.key).value) && Printable(c.value)
  }

  /** The change of the tree is the change of the map. */
  lemma ChangeRefines(t: Tree, key: string, value: Option<string>)
    requires WellFormed(t)
    ensures var c, m := Change(t, key, value), MapOf(t);
            && WellFormed(c.tree) && c.tree.name == t.name
            && c.status == (if value.Some? && !ValidKey(key) then -1 else 0)
            && MapOf(c.tree) == if !ValidKey(key) then m
                                else if value.Some? then m[Isolate(key).value := value.value]
                                else m - {Isolate(key).value}
    ensures FindKey(t, key) == if ValidKey(key) then At(MapOf(t), Isolate(key).value) else None
  {
    if ValidKey(key) {
      var path := Isolate(key).value;
      MapOfAt(t, path);
      OperationsKeepName(t, path, value.GetOr(""));
      match value
      case Some(v) =>
        InsertRefinesMap(t, path, v);
        UpdateRefinesMap(t, path, v);
      case None =>
        DeleteRefinesMap(t, path);
        if path !in MapOf(t) {
          assert MapOf(t) - {path} == MapOf(t);
        }
    }
  }

  /** The list of properties is good if the map is. */
  ghost predicate GoodConfig(m: Config) {
    forall p | p in m :: AllGood(p) && Printable(m[p])
  }

  lemma GoodItemsIff(t: Tree)
    requires WellFormed(t)
    ensures GoodItems(Flat(t)) <==> GoodConfig(MapOf(t))
  {
    var m, flat := MapOf(t), Flat(t);
    if GoodConfig(m) {
      forall i | 0 <= i < |flat|
        ensures flat[i].path != [] && AllGood(flat[i].path) && Printable(flat[i].value)
      {
        var it := flat[i];
        assert it in flat && it == Item(it.path, it.value);
        FlatGet(t, it.path, it.value);
        MapOfGet(t, it.path);
      }
    }
    if GoodItems(flat) {
      forall p | p in m
        ensures AllGood(p) && Printable(m[p])
      {
        MapOfGet(t, p);
        FlatGet(t, p, m[p]);
        var i :| 0 <= i < |flat| && flat[i] == Item(p, m[p]);
      }
    }
  }

  /** Writing over the file a tree that stands for a good map gives a good file for the same map. */
  lemma WrittenFile(t: Tree)
    requires WellFormed(t) && t.name == "" && GoodConfig(MapOf(t))
    ensures Write(t, []).ok && GoodFile(Write(t, []).text) && ConfigOf(Write(t, []).text) == MapOf(t)
  {
    GoodItemsIff(t);
    RoundTripIff(t);
    PruneKeeps(t);
    FlatPrune(t);
  }

  /** One command on a good file does to its map what it does to a plain map, and ends the same way. */
  lemma StepRefines(file: string, c: Command)
    requires GoodFile(file) && GoodCommand(c)
    ensures var s, m := Step(file, c), MapStep(ConfigOf(file), c);
            GoodFile(s.file) && ConfigOf(s.file) == m.config && s.ending == m.ending
  {
    var t := Parse(file).tree;
    ParseReadable(file);
    GoodItemsIff(t);
    var value := if c.Set? then Some(c.value) else None;
    ChangeRefines(t, c.key, value);
    if !c.Query? && (c.Unset? || ValidKey(c.key)) {
      WrittenFile(Change(t, c.key, value).tree);
    }
  }

  /** A run of commands on a good file behaves like the same run on a plain map. */
  lemma {:induction false} RunRefinesMap(file: string, cs: seq<Command>)
    requires GoodFile(file) && forall i | 0 <= i < |cs| :: GoodCommand(cs[i])
    ensures var r, m := RunAll(file, cs), MapRunAll(ConfigOf(file), cs);
            GoodFile(r.file) && ConfigOf(r.file) == m.config && r.endings == m.endings
    decreases |cs|
  {
    if cs != [] {
      StepRefines(file, cs[0]);
      RunRefinesMap(Step(file, cs[0]).file, cs[1..]);
    }
  }

  // ---------- exactly when setting a value works ----------

  /** The key is set, nothing else changes, and the file can be read again. */
  ghost predicate SetWorks(file: string, key: string, value: string) {
    var s := Step(file, Set(key, value));
    && ValidKey(key)
    && s.ending == Exit(0, None)
    && Parse(s.file).status == 0
    && ConfigOf(s.file) == ConfigOf(file)[Isolate(key).value := value]
  }

  lemma SetWorksIff(file: string, key: string, value: string)
    requires GoodFile(file)
    ensures SetWorks(file, key, value) <==>
            ValidKey(key) && AllGood(Isolate(key).value) && Printable(value)
  {
    var c := Set(key, value);
    if ValidKey(key) && AllGood(Isolate(key).value) && Printable(value) {
      StepRefines(file, c);
    }
    if SetWorks(file, key, value) {
      var t, path := Parse(file).tree, Isolate(key).value;
      ParseReadable(file);
      ChangeRefines(t, key, Some(value));
      var t', u := Change(t, key, Some(value)).tree, Parse(Step(file, c).file).tree;
      ParseReadable(Step(file, c).file);
      SameItems(u, t');
      ParseWritten(t');
      InsertJoinedIsInsertAll(Empty(""), Flat(t'));
      GoodItemsIff(t');
      assert path in MapOf(t') && MapOf(t')[path] == value;
    }
  }

  /** Two trees for the same map have the same properties, so one list is printable if the other is. */
  lemma SameItems(u: Tree, t: Tree)
    requires WellFormed(u) && WellFormed(t) && MapOf(u) == MapOf(t) && PrintableItems(Flat(u))
    ensures PrintableItems(Flat(t))
  {
    var flat := Flat(t);
    forall i | 0 <= i < |flat|
      ensures flat[i].path != [] && Printable(flat[i].path[|flat[i].path| - 1]) && Printable(flat[i].value)
    {
      var p, v := flat[i].path, flat[i].value;
      assert flat[i] in flat && flat[i] == Item(p, v);
      FlatGet(t, p, v);
      MapOfGet(t, p);
      MapOfGet(u, p);
      PrintableGet(u, p);
    }
  }

  /** The shortest key that is valid but not good. */
  lemma EmptyQuotedKey()
    ensures Isolate("\"\"") == Some([""]) && !ValidKey("")
  {
    var key := "\"\"";
    assert CloseQuote(key, 1) == 1;
    assert ComponentEnd(key, 0) == 2;
    assert key[0..2] == key && key[1..1] == "";
    assert DecodeAll([key]) == [Decode(key)] == [""];
  }

  /** Setting it leaves a file that no longer parses. */
  lemma EmptyQuotedKeyBreaksFile()
    ensures ValidKey("\"\"") && GoodFile("")
    ensures Step("", Set("\"\"", "v")).ending == Exit(0, None)
    ensures Parse(Step("", Set("\"\"", "v")).file).status == -1
  {
    EmptyQuotedKey();
    assert Strip("") == "" && Lines("") == [];
    var e := Entry("", "v");
    var t := Tree("", [e], []);
    assert [] + [e] == [e];
    assert Insert(Empty(""), [""], "v") == Outcome(0, t);
    NamelessEntry(t);
  }

  lemma NamelessEntry(t: Tree)
    requires t == Tree("", [Entry("", "v")], [])
    ensures Write(t, []).ok && Parse(Write(t, []).text).status == -1
  {
    EmptyQuotedKey();
    var e, it := Entry("", "v"), Item([""], "v");
    assert [e][1..] == [] && Own([e]) == [it] && FlatAll([]) == [] && [it] + [] == [it];
    assert Flat(t) == [it];
    ParseWritten(t);
    assert InsertKey(Empty(""), Join([""]), "v") == Outcome(-1, Empty(""));
  }

  // ---------- files on which the reader leaves its buffer ----------

  /** A property line for `x` whose value is `"a\"`. */
  const DANGLING_LINE := "x = \"a\\\""

  /** The steps of reading a property line, one by one. */
  lemma PropertyLine(line: string, end: nat, rest: string, value: string)
    requires Strip(line) == line && Printable(line) && PropertyEnd(line) == end
    requires Strip(line[end..]) == rest && rest != "" && rest[0] == '=' && Strip(rest[1..]) == value
    ensures ReadProperty(line).Overrun? <==> ReadValue(value).Overrun?
  {
  }

  lemma DanglingProperty()
    ensures ReadProperty(DANGLING_LINE).Overrun?
  {
    hide ReadProperty, ReadValue, Strip, IndexOf;
    var line, v := DANGLING_LINE, "\"a\\\"";
    TightStrip(line);
    assert line == "x " + ['='] + (" " + v);
    IndexOfPrefix("x ", '=', " " + v);
    assert PropertyEnd(line) == 2 && line[2..] == "= " + v;
    TightStrip("= " + v);
    assert ("= " + v)[1..] == " " + v + "";
    StripMiddle(" ", v, "");
    DanglingValue(v);
    PropertyLine(line, 2, "= " + v, v);
  }

  lemma DanglingValue(v: string)
    requires v == "\"a\\\""
    ensures ReadValue(v).Overrun?
  {
    assert v[1..|v| - 1] == "a\\" && "a\\"[1..] == "\\";
    assert Dangles("\\");
  }

  lemma FirstLineOverruns(line: string, rest: string)
    requires '\n' !in line && Strip(line) == line != ""
    requires SectionKey(line).None? && ReadProperty(line).Overrun?
    ensures Parse(line + "\n" + rest).status == OVERRUN
  {
    hide SectionKey, ReadProperty;
    LinesFirst(line, rest);
    assert Lines(line + "\n" + rest)[0] == line;
  }

  /** A file with a value that ends in a backslash inside its quotes, whatever follows. */
  lemma DanglingFile(rest: string, key: string)
    ensures Parse(DANGLING_LINE + "\n" + rest).status == OVERRUN
    ensures Step(DANGLING_LINE + "\n" + rest, Query(key)).ending == Overran
  {
    hide Parse, ReadProperty;
    assert Tight(DANGLING_LINE) && SectionKey(DANGLING_LINE).None? by {
      TightStrip(DANGLING_LINE);
    }
    TightStrip(DANGLING_LINE);
    DanglingProperty();
    hide Strip, SectionKey;
    FirstLineOverruns(DANGLING_LINE, rest);
  }

  /** Setting a value with a quote in front of a line feed succeeds and writes such a file. */
  lemma LineFeedValue()
    ensures var s := Step("", Set("x", "a\"\nb"));
            s.ending == Exit(0, None) && Parse(s.file).status == OVERRUN
  {
    hide ParseLines, EntryLine;
    var e := Entry("x", "a\"\nb");
    var t := Tree("", [e], []);
    assert Parse("") == Outcome(0, Empty("")) by {
      EmptyFile();
    }
    KeyX();
    assert [] + [e] == [e];
    assert Insert(Empty(""), ["x"], e.value) == Outcome(0, t);
    LineFeedText(e, e.value);
    OneEntry(t, e);
    DanglingFile("b\"\n", "x");
  }

  lemma EmptyFile()
    ensures Parse("") == Outcome(0, Empty(""))
  {
    assert Strip("") == "" && Lines("") == [];
  }

  lemma KeyX()
    ensures Isolate("x") == Some(["x"])
  {
    assert WordEnd("x", 1) == 1 && WordEnd("x", 0) == 1 && ComponentEnd("x", 0) == 1;
    assert "x"[0..1] == "x" && "x"[1..] == "" && Unescape("x") == "x";
    assert DecodeAll(["x"]) == [Decode("x")];
  }

  lemma OneEntry(t: Tree, e: Entry)
    requires t == Tree("", [e], [])
    ensures Write(t, []) == Written(true, EntryLine(false, e))
  {
    hide EntryLine;
    assert [e][1..] == [] && EntryLines(false, []) == "" && WriteAll([], []) == Written(true, "");
    assert EntryLine(false, e) + "" == EntryLine(false, e);
    assert SectionHead([]) + EntryLine(false, e) == EntryLine(false, e);
  }

  lemma LineFeedText(e: Entry, v: string)
    requires v == "a\"\nb" && e == Entry("x", v)
    ensures EntryLine(false, e) == DANGLING_LINE + "\n" + "b\"\n"
  {
    hide EscapeBody, Escape;
    LineFeedEscaped(v);
    WordX();
    LineFeedJoins();
    assert "" + "x" == "x";
  }

  lemma WordX()
    ensures Escape("x") == "x"
  {
    assert AllWord("x");
  }

  lemma LineFeedEscaped(v: string)
    requires v == "a\"\nb"
    ensures Escape(v) == "\"" + ("a\\\"\nb" + "\"")
  {
    EscapeFirst('b', "");
    EscapeFirst('\n', "b");
    EscapeFirst('"', "\nb");
    EscapeFirst('a', "\"\nb");
    assert v == ['a'] + "\"\nb" && "\"\nb" == ['"'] + "\nb" && "\nb" == ['\n'] + "b" && "b" == ['b'] + "";
    hide EscapeBody;
    assert !IsWord(v[1]);
  }

  lemma LineFeedJoins()
    ensures "x" + " = " + ("\"" + ("a\\\"\nb" + "\"")) + "\n" == DANGLING_LINE + "\n" + "b\"\n"
  {
    assert "x" + " = " + ("\"" + ("a\\\"\nb" + "\"")) == DANGLING_LINE + "\nb\"";
  }

  lemma EscapeFirst(c: char, s: string)
    ensures EscapeBody([c] + s) == EscapeChar(c) + EscapeBody(s) && EscapeBody("") == ""
  {
    assert ([c] + s)[1..] == s;
  }

  // ---------- files that are not read ----------

  /** On a file that is not read no command changes anything, and every one fails. */
  lemma UnreadUntouched(file: string, c: Command)
    requires Parse(file).status != 0
    ensures Step(file, c).file == file && (Step(file, c).ending == Died || Step(file, c).ending == Overran)
    ensures Step(file, c).ending == Overran <==> Parse(file).status == OVERRUN
  {
  }

  // ---------- operations with a textual key ----------

  /** With a key of the grammar the operations act at what its parts mean; any other text gives -1 and no change. */
  lemma KeyOperations(t: Tree, key: string, value: string)
    ensures (forall parts: seq<Part> :: ProperParts(parts) ==> KeyText(parts) != key) ==>
              InsertKey(t, key, value) == UpdateKey(t, key, value) == DeleteKey(t, key) == Outcome(-1, t) &&
              FindKey(t, key) == None
    ensures forall parts: seq<Part> :: ProperParts(parts) && KeyText(parts) == key ==>
              && InsertKey(t, key, value) == Insert(t, Meanings(parts), value)
              && UpdateKey(t, key, value) == Update(t, Meanings(parts), value)
              && DeleteKey(t, key) == Delete(t, Meanings(parts))
              && FindKey(t, key) == Get(t, Meanings(parts))
  {
    hide KeyText, ProperPart, Isolate, ValidKey, Insert, Update, Delete, Get;
    ValidKeyIff(key);
    forall parts: seq<Part> | ProperParts(parts) && KeyText(parts) == key
      ensures Isolate(key) == Some(Meanings(parts))
    {
      KeyReads(parts);
    }
  }
}
