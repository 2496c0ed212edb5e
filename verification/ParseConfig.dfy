/**
  Reading and writing config files (src/config/parse-config.c): lines are read from a source that
  delivers arbitrary chunks, buffers are trimmed and shifted in place, and the tree is filled and
  walked in the heap.
 */
module ParseConfigs {
  import opened Wrappers
  import opened Text
  import opened KeyInverses
  import opened ConfigTree
  import opened TreePaths
  import opened ConfigFile
  import opened StrBufs
  import opened ConfigDatas
  import opened NodeVisitors
  import opened Sources
  import KeyScanner

  // ---------- lines ----------

  /** A line is taken off the front of `before`, leaving `after`; `end` says that there is none left. */
  ghost predicate TakesLine(before: string, end: bool, line: string, after: string) {
    Lines(before) == (if end then [] else [line] + Lines(after)) && (end ==> line == "")
  }

  /** Read from `fd` until there is a feed in the input buffer or nothing is left to read. */
  method FillBuffer(input: StrBuf, fd: Source) returns (feed: int)
    requires input.Valid() && fd.Valid()
    modifies input, input.buff, fd
    ensures input.Valid() && fd.Valid() && (fresh(input.buff) || input.buff == old(input.buff))
    ensures input.Text() + fd.Rest() == old(input.Text() + fd.Rest())
    ensures feed == IndexOf(input.Text(), '\n') && (feed < 0 ==> fd.Rest() == "")
  {
    ghost var all := input.Text() + fd.Rest();
    feed := -1;
    var more := true;
    while feed < 0 && more
      invariant input.Valid() && fd.Valid() && (fresh(input.buff) || input.buff == old(input.buff))
      invariant input.Text() + fd.Rest() == all
      invariant !more ==> fd.Rest() == "" && feed == IndexOf(input.Text(), '\n')
      invariant feed >= 0 ==> feed == IndexOf(input.Text(), '\n')
      decreases if feed < 0 && more then 1 + |fd.chunks| else 0
    {
      ghost var before, rest := input.Text(), fd.Rest();
      var bytes := fd.Read();
      more := bytes != "";
      if more {
        KeyScanner.UpToNulWhole(bytes);
        input.Attach(bytes);
        assert before + (bytes + fd.Rest()) == before + bytes + fd.Rest();
      }
      feed := IndexOf(input.buff[..input.len], '\n');
    }
  }

  /** `read_line_fd`: the next trimmed line that is not blank; what is read too far stays in `input`. */
  method ReadLine(input: StrBuf, line: StrBuf, fd: Source) returns (end: bool)
    requires input.Valid() && line.Valid() && fd.Valid() && line.Text() == ""
    requires input != line && input.buff != line.buff
    modifies input, input.buff, line, line.buff, fd
    ensures input.Valid() && line.Valid() && fd.Valid() && input.buff != line.buff
    ensures fresh(input.buff) || input.buff == old(input.buff)
    ensures fresh(line.buff) || line.buff == old(line.buff)
    ensures TakesLine(old(input.Text() + fd.Rest()), end, line.Text(), input.Text() + fd.Rest())
    ensures |input.Text() + fd.Rest()| < |old(input.Text() + fd.Rest())| || end
  {
    ghost var all := input.Text() + fd.Rest();
    while true
      invariant input.Valid() && line.Valid() && fd.Valid() && input.buff != line.buff
      invariant fresh(input.buff) || input.buff == old(input.buff)
      invariant fresh(line.buff) || line.buff == old(line.buff)
      invariant line.Text() == "" && Lines(input.Text() + fd.Rest()) == Lines(all)
      invariant |input.Text() + fd.Rest()| <= |all|
      decreases |input.Text() + fd.Rest()|
    {
      var last := ReadOne(input, line, fd);
      if last {
        return line.len == 0;
      }
      if line.len != 0 {
        return false;
      }
    }
  }

  /** One round of `ReadLine`: the trimmed text up to the next feed, or, at the last, up to the end. */
  method ReadOne(input: StrBuf, line: StrBuf, fd: Source) returns (last: bool)
    requires input.Valid() && line.Valid() && fd.Valid() && line.Text() == ""
    requires input != line && input.buff != line.buff
    modifies input, input.buff, line, line.buff, fd
    ensures input.Valid() && line.Valid() && fd.Valid() && input.buff != line.buff
    ensures fresh(input.buff) || input.buff == old(input.buff)
    ensures fresh(line.buff) || line.buff == old(line.buff)
    ensures Lines(old(input.Text() + fd.Rest())) == NonBlank(line.Text()) + Lines(input.Text() + fd.Rest())
    ensures if last then input.Text() + fd.Rest() == "" && Lines("") == []
            else |input.Text() + fd.Rest()| < |old(input.Text() + fd.Rest())|
  {
    hide Lines, NonBlank, Strip, Removed;
    var feed := FillBuffer(input, fd);
    ghost var text, rest := input.Text(), fd.Rest();
    last := feed < 0;
    if last {
      // nothing left to read and no trailing line feed: the rest is the line
      LastLine(text, rest);
      TakeRest(input, line);
    } else {
      NextLine(text, rest);
      TakeUpTo(input, line, feed);
    }
  }

  /** Move all text to the line buffer. */
  method TakeRest(input: StrBuf, line: StrBuf)
    requires input.Valid() && line.Valid() && line.Text() == ""
    requires input != line && input.buff != line.buff
    modifies input, input.buff, line, line.buff
    ensures input.Valid() && line.Valid() && input.buff == old(input.buff)
    ensures fresh(line.buff) || line.buff == old(line.buff)
    ensures line.Text() == Strip(old(input.Text())) && input.Text() == ""
  {
    TakeText(line, input.buff[..input.len]);
    input.Clear();
  }

  /** Move the text in front of a feed to the line buffer, and drop the feed. */
  method TakeUpTo(input: StrBuf, line: StrBuf, feed: nat)
    requires input.Valid() && line.Valid() && line.Text() == ""
    requires input != line && input.buff != line.buff && feed < input.len
    modifies input, input.buff, line, line.buff
    ensures input.Valid() && line.Valid() && input.buff == old(input.buff)
    ensures fresh(line.buff) || line.buff == old(line.buff)
    ensures line.Text() == Strip(old(input.Text())[..feed])
    ensures input.Text() == Removed(old(input.Text()), 0, feed + 1)
  {
    var part := input.buff[..feed];
    assert part == input.Text()[..feed];
    TakeText(line, part);
    input.Remove(0, feed + 1);
  }

  lemma LastLine(text: string, rest: string)
    requires IndexOf(text, '\n') < 0 && rest == ""
    ensures Lines(text + rest) == NonBlank(Strip(text)) + Lines("" + rest) && Lines("") == [] && "" + rest == ""
  {
    assert text + rest == text;
    assert Strip("") == "";
  }

  lemma NextLine(text: string, rest: string)
    requires IndexOf(text, '\n') >= 0
    ensures var n := IndexOf(text, '\n');
            && Lines(text + rest) == NonBlank(Strip(text[..n])) + Lines(Removed(text, 0, n + 1) + rest)
            && |Removed(text, 0, n + 1)| < |text|
  {
    var n := IndexOf(text, '\n');
    FirstFeed(text, rest);
    assert (text + rest)[..n] == text[..n];
    assert (text + rest)[n + 1..] == Removed(text, 0, n + 1) + rest;
  }

  /** Put the trimmed text into an empty line buffer. */
  method TakeText(line: StrBuf, text: string)
    requires line.Valid() && line.Text() == "" && CString(text)
    modifies line, line.buff
    ensures line.Valid() && (fresh(line.buff) || line.buff == old(line.buff))
    ensures line.Text() == Strip(text)
  {
    KeyScanner.UpToNulWhole(text);
    line.Attach(text);
    assert line.Text() == text;
    var n := line.Trim();
  }

  // ---------- section and property lines ----------

  /** A fresh buffer that holds the trimmed text. */
  method Trimmed(text: string) returns (b: StrBuf)
    requires CString(text)
    ensures fresh(b) && b.Valid() && fresh(b.buff) && b.Text() == Strip(text)
  {
    b := new StrBuf();
    TakeText(b, text);
  }

  /** `extract_section_key` */
  method ExtractSectionKey(line: string) returns (key: Option<string>)
    requires CString(line)
    ensures key == SectionKey(line)
  {
    var temporary := Trimmed(line);
    ghost var t := temporary.Text();
    // the first and last characters must be brackets
    if temporary.len < 2 || temporary.buff[0] != '[' || temporary.buff[temporary.len - 1] != ']' {
      return None;
    }
    Unbracket(temporary);
    var text := temporary.buff[..temporary.len];
    if temporary.len != 0 {
      var valid := KeyScanner.IsValidKey(text);
      if !valid {
        return None;
      }
    }
    return Some(text);
  }

  /** Drop the first and the last character, and trim. */
  method Unbracket(b: StrBuf)
    requires b.Valid() && b.len >= 2
    modifies b`len, b.buff
    ensures b.Valid() && b.Text() == Strip(old(b.Text())[1..old(b.len) - 1])
  {
    ghost var t := b.Text();
    b.Remove(0, 1);
    assert b.Text() == t[1..];
    b.Remove(b.len - 1, 1);
    assert b.Text() == t[1..|t| - 1];
    var n := b.Trim();
  }

  /** The scan for the end of the property in `extract_property`, or -1. */
  method FindPropertyEnd(t: string) returns (end: int)
    ensures end == PropertyEnd(t)
  {
    if t != "" && IsQuote(t[0]) {
      var quote := t[0];
      var i := 1;
      while i < |t| && t[i] != quote
        invariant 1 <= i <= |t| && CloseOf(t, quote, 1) == CloseOf(t, quote, i)
      {
        // if backslash, skip the next character, or stop at the end of the text
        if t[i] == '\\' {
          i := i + 1;
          if i == |t| {
            return -1;
          }
        }
        i := i + 1;
      }
      if i == |t| {
        return -1;
      }
      return i + 1;
    }
    return IndexOf(t, '=');
  }

  /** The loop at the front of `extract_property`. */
  method OnlyPrintable(b: StrBuf) returns (ok: bool)
    requires b.Valid()
    ensures ok <==> Printable(b.Text())
  {
    ghost var t := b.Text();
    for i := 0 to b.len
      invariant Printable(t[..i])
    {
      assert b.buff[i] == t[i];
      if !IsPrint(b.buff[i]) {
        return false;
      }
    }
    assert t[..b.len] == t;
    return true;
  }

  /** The last part of `extract_property`: the value, unquoted if it starts with a quote. */
  method ExtractValue(b: StrBuf) returns (value: Reading<string>)
    requires b.Valid() && Tight(b.Text())
    modifies b`len, b.buff
    ensures value == ReadValue(old(b.Text()))
  {
    ghost var t := b.Text();
    assert b.len > 0 ==> b.buff[0] == t[0] && b.buff[b.len - 1] == t[|t| - 1];
    var quoted := IsQuote(b.buff[0]);
    if quoted {
      var quote := b.buff[0];
      if b.buff[b.len - 1] != quote {
        return Malformed;
      }
      b.Remove(0, 1);
      assert b.Text() == t[1..];
      if b.len > 0 {
        b.Remove(b.len - 1, 1);
        assert b.Text() == t[1..|t| - 1];
      }
      assert |t| == 1 ==> b.Text() == "";
      var overran := UnescapeBuffer(b);
      if overran {
        return Overrun;
      }
      return Read(b.buff[..b.len]);
    }
    TightStrip(t);
    var n := b.Trim();
    return Read(b.buff[..b.len]);
  }

  /** `extract_property` */
  method ExtractProperty(line: string) returns (property: Reading<Property>)
    requires CString(line)
    ensures property == ReadProperty(line)
  {
    hide ReadValue, PropertyEnd, Strip, AllWord;
    var temporary := Trimmed(line);
    ghost var t := temporary.Text();
    var printable := OnlyPrintable(temporary);
    if !printable {
      return Malformed;
    }
    var text := temporary.buff[..temporary.len];
    var end := FindPropertyEnd(text);
    if end < 0 {
      return Malformed;
    }
    assert CString(text[..end]);
    var prop := Trimmed(text[..end]);
    temporary.Remove(0, end);
    assert temporary.Text() == t[end..];
    var n := temporary.Trim();
    ghost var rest := temporary.Text();
    assert temporary.len > 0 ==> temporary.buff[0] == rest[0];
    if temporary.buff[0] != '=' {
      return Malformed;
    }
    temporary.Remove(0, 1);
    assert temporary.Text() == rest[1..];
    n := temporary.Trim();
    StripTight(rest[1..]);
    var value := ExtractValue(temporary);
    match value
    case Malformed => return Malformed;
    case Overrun => return Overrun;
    case Read(v) => return Read(Property(prop.buff[..prop.len], v));
  }

  // ---------- parsing ----------

  lemma FullKeyClean(section: string, prop: string)
    requires CString(section) && CString(prop)
    ensures CString(FullKey(section, prop))
  {
  }

  /** Nothing that is read from a line contains a NUL. */
  lemma ReadClean(line: string)
    requires CString(line)
    ensures SectionKey(line).Some? ==> CString(SectionKey(line).value)
    ensures ReadProperty(line).Read? ==>
              CString(ReadProperty(line).value.prop) && CString(ReadProperty(line).value.value)
  {
    StripClean(line);
    var t := Strip(line);
    if SectionKey(line).Some? {
      StripClean(t[1..|t| - 1]);
    }
    if ReadProperty(line).Read? {
      var end := PropertyEnd(t);
      StripClean(t[..end]);
      StripClean(t[end..]);
      var rest := Strip(t[end..]);
      StripClean(rest[1..]);
      var v := Strip(rest[1..]);
      if |v| > 1 {
        UnescapeClean(v[1..|v| - 1]);
      }
    }
  }

  lemma StripClean(s: string)
    requires CString(s)
    ensures CString(Strip(s))
  {
    var a, b := StripSplits(s);
    assert forall c | c in Strip(s) :: c in s;
  }

  /** `parse_config_fd`: read all lines into the tree; the status is zero if there was no error. */
  method ParseConfigFd(conf: ConfigData, fd: Source) returns (status: int)
    requires conf.Valid() && fd.Valid()
    modifies conf.Repr, fd
    ensures conf.Valid() && fresh(conf.Repr - old(conf.Repr))
    ensures Outcome(status, conf.tree) == ParseLines(Lines(old(fd.Rest())), "", old(conf.tree))
  {
    hide ParseLines, Lines, ConfigData.Valid, ConfigData.IsLinked, ConfigData.Fields, Source.Valid;
    var input := new StrBuf();
    var line := new StrBuf();
    var currentSection := "";
    ghost var parsed := ParseLines(Lines(fd.Rest()), "", conf.tree);
    var end := false;
    status := 0;
    assert "" + fd.Rest() == fd.Rest();
    while status == 0 && !end
      invariant conf.Valid() && fresh(conf.Repr - old(conf.Repr)) && fd.Valid()
      invariant Buffers(input, line) && fresh(input) && fresh(line) && fresh(input.buff) && fresh(line.buff)
      invariant CString(currentSection)
      invariant Parsing(parsed, status, end, input.Text() + fd.Rest(), currentSection, conf.tree)
      decreases if status == 0 && !end then 1 else 0, |input.Text() + fd.Rest()|
    {
      ghost var repr := conf.Repr;
      status, end, currentSection := ParseNext(conf, input, line, fd, currentSection, parsed);
      assert conf.Repr - old(conf.Repr) <= (conf.Repr - repr) + (repr - old(conf.Repr));
    }
  }

  ghost predicate Buffers(input: StrBuf, line: StrBuf)
    reads input, input.buff, line, line.buff
  {
    input.Valid() && line.Valid() && input != line && input.buff != line.buff && line.Text() == ""
  }

  /** The body of the loop above: the next line, if there is one. */
  method ParseNext(conf: ConfigData, input: StrBuf, line: StrBuf, fd: Source, section: string, ghost parsed: Outcome)
    returns (status: int, end: bool, next: string)
    requires conf.Valid() && fd.Valid() && Buffers(input, line) && CString(section)
    requires Parsing(parsed, 0, false, input.Text() + fd.Rest(), section, conf.tree)
    modifies conf.Repr, fd, input, input.buff, line, line.buff
    ensures conf.Valid() && fresh(conf.Repr - old(conf.Repr)) && fd.Valid()
    ensures Buffers(input, line) && CString(next)
    ensures fresh(input.buff) || input.buff == old(input.buff)
    ensures fresh(line.buff) || line.buff == old(line.buff)
    ensures Parsing(parsed, status, end, input.Text() + fd.Rest(), next, conf.tree)
    ensures end || |input.Text() + fd.Rest()| < |old(input.Text() + fd.Rest())|
  {
    hide ParseLines, Lines, LineParsed;
    status, next := 0, section;
    var text;
    end, text := ReadAndClear(input, line, fd);
    assert ParseLines([], section, conf.tree) == Outcome(0, conf.tree) by {
      NothingToParse(section, conf.tree);
    }
    if !end {
      ParseLinesStep(text, Lines(input.Text() + fd.Rest()), section, conf.tree);
      status, next := ParseLine(conf, text, section);
    }
  }

  lemma NothingToParse(section: string, t: Tree)
    ensures ParseLines([], section, t) == Outcome(0, t)
  {
  }

  /** Read a line and clear the line buffer for the next one. */
  method ReadAndClear(input: StrBuf, line: StrBuf, fd: Source) returns (end: bool, text: string)
    requires fd.Valid() && Buffers(input, line)
    modifies fd, input, input.buff, line, line.buff
    ensures fd.Valid() && Buffers(input, line)
    ensures fresh(input.buff) || input.buff == old(input.buff)
    ensures fresh(line.buff) || line.buff == old(line.buff)
    ensures TakesLine(old(input.Text() + fd.Rest()), end, text, input.Text() + fd.Rest()) && CString(text)
    ensures end || |input.Text() + fd.Rest()| < |old(input.Text() + fd.Rest())|
  {
    end := ReadLine(input, line, fd);
    text := line.buff[..line.len];
    line.Clear();
  }

  /** What remains to be parsed leads to `parsed`, unless the status or the end of the text says so already. */
  ghost predicate Parsing(parsed: Outcome, status: int, end: bool, rest: string, section: string, t: Tree) {
    parsed == if status == 0 && !end then ParseLines(Lines(rest), section, t) else Outcome(status, t)
  }

  /** The outcome of one line. */
  ghost predicate LineParsed(line: string, section: string, t: Tree, status: int, next: string, t': Tree) {
    match SectionKey(line)
    case Some(key) => status == 0 && next == key && t' == t
    case None =>
      match ReadProperty(line)
      case Malformed => status == 1 && t' == t
      case Overrun => status == OVERRUN && t' == t
      case Read(p) => next == section && Outcome(status, t') == InsertKey(t, FullKey(section, p.prop), p.value)
  }

  lemma ParseLinesStep(line: string, more: seq<string>, section: string, t: Tree)
    ensures forall status, next, t' {:trigger LineParsed(line, section, t, status, next, t')} ::
              LineParsed(line, section, t, status, next, t') ==>
                ParseLines([line] + more, section, t) ==
                if status == 0 then ParseLines(more, next, t') else Outcome(status, t')
  {
    assert ([line] + more)[0] == line && ([line] + more)[1..] == more;
  }

  /** The body of the loop above: a section line, a property line, or an error. */
  method ParseLine(conf: ConfigData, line: string, section: string) returns (status: int, next: string)
    requires conf.Valid() && CString(line) && CString(section)
    modifies conf.Repr
    ensures conf.Valid() && fresh(conf.Repr - old(conf.Repr)) && CString(next)
    ensures LineParsed(line, section, old(conf.tree), status, next, conf.tree)
  {
    next := section;
    ReadClean(line);
    var key := ExtractSectionKey(line);
    if key.Some? {
      return 0, key.value;
    }
    var property := ExtractProperty(line);
    if property.Malformed? {
      return 1, section;
    }
    if property.Overrun? {
      return OVERRUN, section;
    }
    var full := if section != "" then section + "." + property.value.prop else property.value.prop;
    FullKeyClean(section, property.value.prop);
    status := conf.InsertAtKey(full, property.value.value);
  }

  // ---------- writing ----------

  /** `write_for_node`: the text for one section, or status 1 if its key cannot be merged. */
  method WriteForNode(conf: ConfigData, node: ConfigData) returns (status: int, text: string)
    requires conf.IsLinked() && node in conf.Repr && node.entries != []
    ensures Written(status == 0, text) == WriteNode(conf.Names(node), node.entries)
  {
    conf.AtNode(node);
    conf.NamesStep(node);
    MergeIsolate(conf.Names(node));
    var invalid, key := conf.GetSectionKey(node);
    if invalid != 0 {
      return 1, "";
    }
    text := "";
    ghost var names := conf.Names(node);
    if names != [] {
      JoinPrintable(names);
    }
    // the heading comes first, except for the root
    if key != "" {
      text := "[ " + key + " ]\n";
    }
    var lines := WriteEntries(key != "", node.entries);
    return 0, text + lines;
  }

  /** The loop of `WriteForNode`. */
  method WriteEntries(indent: bool, entries: seq<Entry>) returns (text: string)
    requires forall i | 0 <= i < |entries| :: CString(entries[i].prop) && CString(entries[i].value)
    ensures text == EntryLines(indent, entries)
  {
    text := "";
    assert entries[0..] == entries;
    for i := 0 to |entries|
      invariant EntryLines(indent, entries) == text + EntryLines(indent, entries[i..])
    {
      var line := if indent then "\t" else "";
      var prop := KeyScanner.EscapeComponent(entries[i].prop);
      line := line + prop + " = ";
      var value := KeyScanner.EscapeComponent(entries[i].value);
      line := line + value + "\n";
      EntryLinesStep(indent, entries, i, text);
      text := text + line;
    }
    assert text + "" == text;
  }

  lemma EntryLinesStep(indent: bool, entries: seq<Entry>, i: nat, text: string)
    requires i < |entries|
    ensures text + EntryLines(indent, entries[i..]) ==
            text + EntryLine(indent, entries[i]) + EntryLines(indent, entries[i + 1..])
  {
    assert entries[i..][1..] == entries[i + 1..];
    var a, b := EntryLine(indent, entries[i]), EntryLines(indent, entries[i + 1..]);
    assert text + (a + b) == text + a + b;
  }

  /** Writing the sections at the given positions, one after the other, up to the first failure. */
  function WritePositions(t: Tree, path: Path, ps: seq<Position>): Written
    requires forall i | 0 <= i < |ps| :: IsPosition(t, ps[i])
    decreases |ps|
  {
    if ps == [] then Written(true, "")
    else
      var r := WriteNode(path + NamesAt(t, ps[0]), SubAt(t, ps[0]).entries);
      if !r.ok then r else Appended(r.text, WritePositions(t, path, ps[1..]))
  }

  lemma {:induction false} WritePositionsConcat(t: Tree, path: Path, a: seq<Position>, b: seq<Position>)
    requires forall i | 0 <= i < |a| :: IsPosition(t, a[i])
    requires forall i | 0 <= i < |b| :: IsPosition(t, b[i])
    ensures WritePositions(t, path, a + b) ==
            var r := WritePositions(t, path, a);
            if r.ok then Appended(r.text, WritePositions(t, path, b)) else r
    decreases |a|
  {
    if a == [] {
      assert a + b == b && forall s: string :: "" + s == s;
    } else {
      WritePositionsConcat(t, path, a[1..], b);
      ConcatStep(t, path, a, b);
    }
  }

  lemma ConcatStep(t: Tree, path: Path, a: seq<Position>, b: seq<Position>)
    requires a != [] && forall i | 0 <= i < |a| :: IsPosition(t, a[i])
    requires forall i | 0 <= i < |b| :: IsPosition(t, b[i])
    requires WritePositions(t, path, a[1..] + b) ==
             var r := WritePositions(t, path, a[1..]);
             if r.ok then Appended(r.text, WritePositions(t, path, b)) else r
    ensures WritePositions(t, path, a + b) ==
            var r := WritePositions(t, path, a);
            if r.ok then Appended(r.text, WritePositions(t, path, b)) else r
  {
    hide WriteNode, NamesAt, SubAt, IsPosition;
    assert (a + b)[0] == a[0] && (a + b)[1..] == a[1..] + b;
    AppendedTwice(WriteNode(path + NamesAt(t, a[0]), SubAt(t, a[0]).entries).text,
                  WritePositions(t, path, a[1..]).text, WritePositions(t, path, b));
  }

  lemma {:induction false} WritePositionsBelow(t: Tree, path: Path, k: nat, ps: seq<Position>)
    requires k < |t.subs| && forall i | 0 <= i < |ps| :: IsPosition(t.subs[k], ps[i])
    ensures forall i | 0 <= i < |ps| :: IsPosition(t, PrefixedPositions(k, ps)[i])
    ensures WritePositions(t, path, PrefixedPositions(k, ps)) ==
            WritePositions(t.subs[k], path + [t.subs[k].name], ps)
    decreases |ps|
  {
    if ps != [] {
      var p := [k] + ps[0];
      assert p[1..] == ps[0];
      assert path + NamesAt(t, p) == path + [t.subs[k].name] + NamesAt(t.subs[k], ps[0]);
      WritePositionsBelow(t, path, k, ps[1..]);
      assert PrefixedPositions(k, ps)[1..] == PrefixedPositions(k, ps[1..]);
    }
  }

  /** Writing in preorder is writing the tree section by section. */
  lemma {:induction false} WritePreorder(t: Tree, path: Path)
    ensures forall i | 0 <= i < |Preorder(t)| :: IsPosition(t, Preorder(t)[i])
    ensures WritePositions(t, path, Preorder(t)) == Write(t, path)
    decreases t, |t.subs| + 1
  {
    PreorderLists(t);
    assert forall p | p in Preorder(t) :: IsPosition(t, p);
    assert Preorder(t)[1..] == PreorderFrom(t, 0);
    assert path + [] == path && t.subs[0..] == t.subs;
    WritePreorderFrom(t, path, 0);
  }

  lemma {:induction false} WritePreorderFrom(t: Tree, path: Path, k: nat)
    requires k <= |t.subs|
    ensures forall i | 0 <= i < |PreorderFrom(t, k)| :: IsPosition(t, PreorderFrom(t, k)[i])
    ensures WritePositions(t, path, PreorderFrom(t, k)) == WriteAll(t.subs[k..], path)
    decreases t, |t.subs| - k
  {
    if k < |t.subs| {
      var s := t.subs[k];
      WritePreorder(s, path + [s.name]);
      WritePositionsBelow(t, path, k, Preorder(s));
      WritePreorderFrom(t, path, k + 1);
      WritePositionsConcat(t, path, PrefixedPositions(k, Preorder(s)), PreorderFrom(t, k + 1));
      assert t.subs[k..][0] == s && t.subs[k..][1..] == t.subs[k + 1..];
    }
  }

  /** `write_config_fd`: visit all sections and write those that have properties. */
  method WriteConfigFd(conf: ConfigData) returns (status: int, text: string)
    requires conf.IsLinked()
    ensures Written(status == 0, text) == Write(conf.tree, [])
  {
    hide WritePositions, Preorder, Write, ConfigData.IsLinked, ConfigData.Fields, AllLinked;
    ghost var t := conf.tree;
    WritePreorder(t, []);
    var visitor := new NodeVisitor(conf);
    text := "";
    status := 0;
    var done := 0;
    assert Preorder(t)[0..] == Preorder(t);
    while done == 0 && status == 0
      invariant done == 0 && status == 0 ==> visitor.Valid() && visitor.seen <= |Preorder(t)|
      invariant visitor.root == conf && fresh(visitor)
      invariant Writing(t, text, done == 0 && status == 0, status == 0, visitor.seen)
      decreases if done == 0 && status == 0 then 1 + |Preorder(t)| - visitor.seen else 0
    {
      ghost var k := visitor.seen;
      var node;
      done, node := visitor.Next();
      if done == 0 {
        var part;
        status, part := WriteVisited(conf, node);
        WritingStep(t, text, k, Written(status == 0, part));
        text := text + part;
      } else {
        WritingDone(t, text);
      }
    }
  }

  /** The text so far, followed by that of the sections not seen yet, unless the writing is over. */
  ghost predicate Writing(t: Tree, text: string, more: bool, ok: bool, seen: nat)
    requires forall i | 0 <= i < |Preorder(t)| :: IsPosition(t, Preorder(t)[i])
  {
    if more then seen <= |Preorder(t)| && Write(t, []) == Appended(text, WritePositions(t, [], Preorder(t)[seen..]))
    else Write(t, []) == Written(ok, text)
  }

  lemma WritingDone(t: Tree, text: string)
    requires forall i | 0 <= i < |Preorder(t)| :: IsPosition(t, Preorder(t)[i])
    requires Writing(t, text, true, true, |Preorder(t)|)
    ensures Writing(t, text, false, true, |Preorder(t)|)
  {
    assert Preorder(t)[|Preorder(t)|..] == [] && text + "" == text;
  }

  lemma WritingStep(t: Tree, text: string, k: nat, part: Written)
    requires forall i | 0 <= i < |Preorder(t)| :: IsPosition(t, Preorder(t)[i])
    requires k < |Preorder(t)| && Writing(t, text, true, true, k)
    requires part == WriteNode(NamesAt(t, Preorder(t)[k]), SubAt(t, Preorder(t)[k]).entries)
    ensures Writing(t, text + part.text, part.ok, part.ok, k + 1)
  {
    PositionsStep(t, k);
    AppendedTwice(text, part.text, WritePositions(t, [], Preorder(t)[k + 1..]));
  }

  function Appended(text: string, w: Written): Written {
    Written(w.ok, text + w.text)
  }

  lemma AppendedTwice(text: string, part: string, w: Written)
    ensures Appended(text, Appended(part, w)) == Appended(text + part, w)
  {
    assert text + (part + w.text) == text + part + w.text;
  }

  lemma PositionsStep(t: Tree, k: nat)
    requires k < |Preorder(t)| && forall i | 0 <= i < |Preorder(t)| :: IsPosition(t, Preorder(t)[i])
    ensures var r, rest := WriteNode(NamesAt(t, Preorder(t)[k]), SubAt(t, Preorder(t)[k]).entries),
                           WritePositions(t, [], Preorder(t)[k + 1..]);
            WritePositions(t, [], Preorder(t)[k..]) == if r.ok then Appended(r.text, rest) else r
  {
    var ps := Preorder(t)[k..];
    assert ps[0] == Preorder(t)[k] && ps[1..] == Preorder(t)[k + 1..];
    assert [] + NamesAt(t, ps[0]) == NamesAt(t, ps[0]);
  }

  /** The body of the loop above: nothing for a section without properties. */
  method WriteVisited(conf: ConfigData, node: ConfigData) returns (status: int, text: string)
    requires conf.IsLinked() && node in conf.Repr
    ensures IsPosition(conf.tree, node.position)
    ensures Written(status == 0, text) ==
            WriteNode(NamesAt(conf.tree, node.position), SubAt(conf.tree, node.position).entries)
  {
    conf.Located(node);
    conf.AtNode(node);
    if node.entries == [] {
      return 0, "";
    }
    status, text := WriteForNode(conf, node);
  }
}
