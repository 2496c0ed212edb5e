/**
  The config file format (src/config/parse-config.c) on values: reading lines, section and property
  lines, parsing a text into a tree and printing a tree, and the round trip between the two.
 */
module ConfigFile {
  import opened Wrappers
  import opened Text
  import opened KeyLanguage
  import opened ConfigTree

  // ---------- reading ----------

  function NonBlank(line: string): seq<string> {
    if line == "" then [] else [line]
  }

  /** The trimmed lines of a text that are not blank; the last one need not be terminated. */
  function Lines(text: string): seq<string>
    decreases |text|
  {
    var n := IndexOf(text, '\n');
    if n < 0 then NonBlank(Strip(text))
    else NonBlank(Strip(text[..n])) + Lines(text[n + 1..])
  }

  /** The key of a section line `[ key ]`; `[]` gives the empty key. */
  function SectionKey(line: string): Option<string> {
    var t := Strip(line);
    if |t| < 2 || t[0] != '[' || t[|t| - 1] != ']' then None
    else
      var key := Strip(t[1..|t| - 1]);
      if key != "" && !ValidKey(key) then None else Some(key)
  }

  /** Position of the quote `q` that closes a quoted property, from `i` on, or -1. */
  function CloseOf(s: string, q: char, i: nat): (r: int)
    requires i <= |s|
    ensures r == -1 || (i <= r < |s| && s[r] == q)
    decreases |s| - i
  {
    if i == |s| then -1
    else if s[i] == q then i
    else if s[i] == '\\' then (if i + 1 == |s| then -1 else CloseOf(s, q, i + 2))
    else CloseOf(s, q, i + 1)
  }

  /** Where the property part of a property line ends, or -1. */
  function PropertyEnd(s: string): (r: int)
    ensures -1 <= r <= |s|
  {
    if s != "" && IsQuote(s[0]) then
      var c := CloseOf(s, s[0], 1);
      if c < 0 then -1 else c + 1
    else IndexOf(s, '=')
  }

  /** What reading gives: something, nothing because of an error, or a search that leaves its buffer. */
  datatype Reading<+T> = Read(value: T) | Malformed | Overrun

  /** The value meant by the text after the equals sign: unquoted if it starts with a quote. */
  function ReadValue(s: string): Reading<string> {
    if s != "" && IsQuote(s[0]) then
      if s[|s| - 1] != s[0] then Malformed
      else if |s| == 1 then Read("")
      else if Dangles(s[1..|s| - 1]) then Overrun
      else Read(Unescape(s[1..|s| - 1]))
    else Read(s)
  }

  datatype Property = Property(prop: string, value: string)

  /** The two sides of a property line `prop = value`. A quoted property keeps its quotes. */
  function ReadProperty(line: string): Reading<Property> {
    var t := Strip(line);
    if !Printable(t) then Malformed
    else
      var end := PropertyEnd(t);
      if end < 0 then Malformed
      else
        var rest := Strip(t[end..]);
        if rest == "" || rest[0] != '=' then Malformed
        else
          match ReadValue(Strip(rest[1..]))
          case Malformed => Malformed
          case Overrun => Overrun
          case Read(value) => Read(Property(Strip(t[..end]), value))
  }

  /** Not a status of the source: reading a value has left its buffer. */
  const OVERRUN: int := -2

  /** `config_data_insert`: -1 if the key is not valid. */
  function InsertKey(t: Tree, key: string, value: string): Outcome {
    if ValidKey(key) then Insert(t, Isolate(key).value, value) else Outcome(-1, t)
  }

  function FullKey(section: string, prop: string): string {
    if section == "" then prop else section + "." + prop
  }

  /** Read the lines one by one into a tree; the status is non-zero at the first line that is in error. */
  function ParseLines(lines: seq<string>, section: string, t: Tree): Outcome
    decreases |lines|
  {
    if lines == [] then Outcome(0, t)
    else
      match SectionKey(lines[0])
      case Some(key) => ParseLines(lines[1..], key, t)
      case None =>
        match ReadProperty(lines[0])
        case Malformed => Outcome(1, t)
        case Overrun => Outcome(OVERRUN, t)
        case Read(p) =>
          var r := InsertKey(t, FullKey(section, p.prop), p.value);
          if r.status != 0 then r else ParseLines(lines[1..], section, r.tree)
  }

  function Parse(text: string): Outcome {
    ParseLines(Lines(text), "", Empty(""))
  }

  // ---------- writing ----------

  function SectionHead(path: Path): string {
    if path == [] then "" else "[ " + Join(path) + " ]\n"
  }

  function EntryLine(indent: bool, e: Entry): string {
    (if indent then "\t" else "") + Escape(e.prop) + " = " + Escape(e.value) + "\n"
  }

  function EntryLines(indent: bool, entries: seq<Entry>): string {
    if entries == [] then "" else EntryLine(indent, entries[0]) + EntryLines(indent, entries[1..])
  }

  /** The outcome of writing: whether it went through, and the text that was written. */
  datatype Written = Written(ok: bool, text: string)

  /** Nodes without properties are skipped; a section whose key cannot be merged stops the writing. */
  function WriteNode(path: Path, entries: seq<Entry>): Written {
    if entries == [] then Written(true, "")
    else if path != [] && Merge(path).None? then Written(false, "")
    else Written(true, SectionHead(path) + EntryLines(path != [], entries))
  }

  function Write(t: Tree, path: Path): Written
    decreases t, 0
  {
    var r := WriteNode(path, t.entries);
    if !r.ok then r
    else
      var rest := WriteAll(t.subs, path);
      Written(rest.ok, r.text + rest.text)
  }

  function WriteAll(subs: seq<Tree>, path: Path): Written
    decreases subs, 0
  {
    if subs == [] then Written(true, "")
    else
      var r := Write(subs[0], path + [subs[0].name]);
      if !r.ok then r
      else
        var rest := WriteAll(subs[1..], path);
        Written(rest.ok, r.text + rest.text)
  }

  // ---------- when reading leaves its buffer ----------

  /** Exactly if a value is in quotes and ends, in front of the closing one, in an odd number of backslashes. */
  lemma OverrunIff(s: string)
    ensures ReadValue(s).Overrun? <==>
            |s| >= 2 && IsQuote(s[0]) && s[|s| - 1] == s[0] && TrailingBackslashes(s[1..|s| - 1]) % 2 == 1
  {
    if |s| >= 2 {
      DanglesIff(s[1..|s| - 1]);
    }
  }

  // ---------- one line read back ----------

  lemma LinesFirst(line: string, rest: string)
    requires '\n' !in line
    ensures Lines(line + "\n" + rest) == NonBlank(Strip(line)) + Lines(rest)
  {
    var text := line + "\n" + rest;
    IndexOfPrefix(line, '\n', rest);
    assert line + ['\n'] + rest == text;
    assert text[..|line|] == line && text[|line| + 1..] == rest;
  }

  lemma SectionLineReads(key: string)
    requires ValidKey(key) && Tight(key) && key != ""
    ensures Strip("[ " + key + " ]") == "[ " + key + " ]"
    ensures SectionKey("[ " + key + " ]") == Some(key)
  {
    var t := "[ " + key + " ]";
    TightStrip(t);
    assert t[1..|t| - 1] == " " + key + " ";
    StripMiddle(" ", key, " ");
  }

  lemma {:induction false} CloseOfEscaped(s: string, p: string, q: string)
    ensures CloseOf(p + EscapeBody(s) + "\"" + q, '"', |p|) == |p + EscapeBody(s)|
    decreases |s|
  {
    var t := p + EscapeBody(s) + "\"" + q;
    if s == "" {
      assert t[|p|] == '"';
    } else {
      var h := EscapeChar(s[0]);
      assert p + EscapeBody(s) == (p + h) + EscapeBody(s[1..]);
      assert t[|p|] == h[0];
      CloseOfEscaped(s[1..], p + h, q);
    }
  }

  /** The written property is found again in front of ` = `. */
  lemma PropertyEndOfWritten(p: string, rest: string)
    ensures var t := Escape(p) + " =" + rest;
            if AllWord(p) then PropertyEnd(if p == "" then t[1..] else t) == if p == "" then 0 else |p| + 1
            else PropertyEnd(t) == |Escape(p)|
  {
    var t := Escape(p) + " =" + rest;
    if p == "" {
      assert t[1..][0] == '=';
    } else if AllWord(p) {
      assert t == (p + " ") + ['='] + rest;
      assert '=' !in p + " ";
      IndexOfPrefix(p + " ", '=', rest);
      assert !IsQuote(t[0]);
    } else {
      assert t == "\"" + EscapeBody(p) + "\"" + (" =" + rest);
      CloseOfEscaped(p, "\"", " =" + rest);
    }
  }

  lemma ReadValueOfWritten(v: string)
    ensures ReadValue(Escape(v)) == Read(v)
  {
    if !AllWord(v) {
      UnescapeEscapeBody(v);
      EscapeBodyCloses(v);
      var e := Escape(v);
      assert e[1..|e| - 1] == EscapeBody(v);
    }
  }

  /** The line written for a property, trimmed. */
  function WrittenLine(p: string, v: string): string {
    (if p == "" then "" else Escape(p) + " ") + "=" + (if v == "" then "" else " " + Escape(v))
  }

  lemma RegroupBoth(i: string, p: string, v: string)
    ensures i + p + " = " + v + "\n" == i + (p + " " + "=" + (" " + v)) + "" + "\n"
  {
  }

  lemma RegroupNoProp(i: string, v: string)
    ensures i + "" + " = " + v + "\n" == (i + " ") + ("" + "=" + (" " + v)) + "" + "\n"
  {
  }

  lemma RegroupNoValue(i: string, p: string)
    ensures i + p + " = " + "" + "\n" == i + (p + " " + "=" + "") + " " + "\n"
  {
  }

  lemma RegroupNeither(i: string)
    ensures i + "" + " = " + "" + "\n" == (i + " ") + ("" + "=" + "") + " " + "\n"
  {
  }

  /** The parts of a written line: white space, the trimmed line, white space. */
  lemma EntryLineParts(indent: bool, p: string, v: string) returns (a: string, b: string)
    ensures AllSpace(a) && AllSpace(b) && '\n' !in a && '\n' !in b
    ensures EntryLine(indent, Entry(p, v)) == a + WrittenLine(p, v) + b + "\n"
  {
    var i := if indent then "\t" else "";
    a, b := i + (if p == "" then " " else ""), if v == "" then " " else "";
    if p != "" {
      assert a == i;
      if v != "" {
        RegroupBoth(i, Escape(p), Escape(v));
      } else {
        RegroupNoValue(i, Escape(p));
      }
    } else if v != "" {
      RegroupNoProp(i, Escape(v));
    } else {
      RegroupNeither(i);
    }
  }

  lemma WrittenLineTight(p: string, v: string)
    requires Printable(p) && Printable(v)
    ensures Tight(WrittenLine(p, v)) && Printable(WrittenLine(p, v)) && WrittenLine(p, v)[0] != '['
  {
    EscapePrintable(p);
    EscapePrintable(v);
    EscapeTight(p);
    EscapeTight(v);
    var l, r := if p == "" then "" else Escape(p) + " ", if v == "" then "" else " " + Escape(v);
    assert Printable(l) && Printable(r);
    assert WrittenLine(p, v) == l + "=" + r;
  }

  lemma EntryLineStrips(indent: bool, p: string, v: string) returns (line: string)
    requires Printable(p) && Printable(v)
    ensures EntryLine(indent, Entry(p, v)) == line + "\n" && '\n' !in line && Strip(line) == WrittenLine(p, v)
  {
    var a, b := EntryLineParts(indent, p, v);
    line := a + WrittenLine(p, v) + b;
    WrittenLineTight(p, v);
    StripMiddle(a, WrittenLine(p, v), b);
    assert '\n' !in WrittenLine(p, v);
  }

  lemma EmptyValueReads()
    ensures Strip("") == "" && ReadValue("") == Read("")
  {
  }

  lemma WrittenValueReads(v: string)
    ensures var rest := if v == "" then "" else " " + Escape(v);
            Tight("=" + rest) && ReadValue(Strip(("=" + rest)[1..])) == Read(v)
  {
    hide Escape, ReadValue;
    var rest := if v == "" then "" else " " + Escape(v);
    EscapeTight(v);
    ReadValueOfWritten(v);
    EmptyValueReads();
    assert ("=" + rest)[1..] == rest;
    if v != "" {
      StripMiddle(" ", Escape(v), "");
      assert " " + Escape(v) + "" == rest;
      assert ("=" + rest)[|rest|] == Escape(v)[|Escape(v)| - 1];
    }
  }

  lemma WrittenPropertyEnd(p: string, rest: string)
    requires Tight("=" + rest) && Printable(p)
    ensures var t, end := (if p == "" then "" else Escape(p) + " ") + "=" + rest,
                          (if p == "" then 0 else if AllWord(p) then |p| + 1 else |Escape(p)|);
            PropertyEnd(t) == end && Strip(t[..end]) == Escape(p) && Strip(t[end..]) == "=" + rest
  {
    hide PropertyEnd, Strip, EscapeBody, Printable;
    PropertyEndOfWritten(p, rest);
    PropertyPart(p, rest);
    if p == "" {
      assert (Escape(p) + " =" + rest)[1..] == "" + "=" + rest;
    } else {
      assert Escape(p) + " =" + rest == Escape(p) + " " + "=" + rest;
    }
  }

  /** A written property line is read as the property that was written. */
  lemma WrittenLineReads(p: string, v: string)
    requires Printable(p) && Printable(v)
    ensures SectionKey(WrittenLine(p, v)).None?
    ensures ReadProperty(WrittenLine(p, v)) == Read(Property(Escape(p), v))
  {
    WrittenLineTight(p, v);
    TightStrip(WrittenLine(p, v));
    WrittenValueReads(v);
    WrittenPropertyEnd(p, if v == "" then "" else " " + Escape(v));
  }

  lemma PropertyPart(p: string, rest: string)
    requires Tight("=" + rest) && Printable(p)
    ensures var t := (if p == "" then "" else Escape(p) + " ") + "=" + rest;
            var end := if p == "" then 0 else if AllWord(p) then |p| + 1 else |Escape(p)|;
            Strip(t[..end]) == Escape(p) && Strip(t[end..]) == "=" + rest
  {
    hide Strip, EscapeBody;
    var t := (if p == "" then "" else Escape(p) + " ") + "=" + rest;
    EscapeTight(p);
    TightStrip(Escape(p));
    TightStrip("=" + rest);
    if p == "" {
      assert t[..0] == "" && t[0..] == "=" + rest;
    } else if AllWord(p) {
      assert t[..|p| + 1] == "" + p + " " && t[|p| + 1..] == "=" + rest;
      StripMiddle("", p, " ");
    } else {
      assert t[..|Escape(p)|] == Escape(p);
      assert t[|Escape(p)|..] == " " + ("=" + rest) + "";
      StripMiddle(" ", "=" + rest, "");
    }
  }
}
