/**
  The grammar of config lines (src/config/parse-config.c), without any scanning: what may be written by hand
  as a section head or a property line and what it means, for every text.
 */
module LineGrammar {
  import opened Text
  import opened KeyLanguage
  import opened KeyGrammar
  import opened ConfigTree
  import opened ConfigFile

  // ---------- values ----------

  /**
    A value: text as it is, pieces between two equal quotes of either kind, a quote that stands alone, or
    quoted pieces behind which a backslash escapes nothing.
   */
  datatype Value = Bare(text: string) | InQuotes(q: char, body: seq<Piece>) | LoneQuote(q: char)
                 | Unfinished(q: char, body: seq<Piece>)

  function ValueText(v: Value): string {
    match v
    case Bare(text) => text
    case InQuotes(q, body) => [q] + PiecesText(body) + [q]
    case LoneQuote(q) => [q]
    case Unfinished(q, body) => [q] + PiecesText(body) + ['\\', q]
  }

  predicate StartsWithQuote(s: string) {
    s != "" && IsQuote(s[0])
  }

  ghost predicate ProperValue(v: Value) {
    match v
    case Bare(text) => Tight(text) && !StartsWithQuote(text)
    case InQuotes(q, body) => IsQuote(q) && Unambiguous(body)
    case LoneQuote(q) => IsQuote(q)
    case Unfinished(q, body) => IsQuote(q) && Unambiguous(body)
  }

  function ValueMeaning(v: Value): Reading<string> {
    match v
    case Bare(text) => Read(text)
    case InQuotes(_, body) => Read(Meant(body))
    case LoneQuote(_) => Read("")
    case Unfinished(_, _) => Overrun
  }

  lemma {:induction false} UnfinishedDangles(body: seq<Piece>)
    requires Unambiguous(body)
    ensures Dangles(PiecesText(body) + "\\")
  {
    if body == [] {
      assert PiecesText(body) + "\\" == "\\";
    } else {
      assert body[0] != Plain('\\');
      UnfinishedDangles(body[1..]);
      var h, r := PieceText(body[0]), PiecesText(body[1..]) + "\\";
      assert PiecesText(body) + "\\" == h + r && (h + r)[|h|..] == r;
    }
  }

  lemma {:induction false} PiecesOfDangling(s: string) returns (body: seq<Piece>)
    requires Dangles(s)
    ensures Unambiguous(body) && PiecesText(body) + "\\" == s
    decreases |s|
  {
    if s == "\\" {
      return [];
    }
    var p, n := if s[0] == '\\' then Escaped(s[1]) else Plain(s[0]), if s[0] == '\\' then 2 else 1;
    var rest := PiecesOfDangling(s[n..]);
    assert s == PieceText(p) + (PiecesText(rest) + "\\");
    return [p] + rest;
  }

  lemma ValueReads(v: Value)
    requires ProperValue(v)
    ensures Tight(ValueText(v)) && ReadValue(ValueText(v)) == ValueMeaning(v)
  {
    var s := ValueText(v);
    match v
    case InQuotes(q, body) =>
      assert s[1..|s| - 1] == PiecesText(body);
      UnescapePieces(body);
    case Unfinished(q, body) =>
      assert s[1..|s| - 1] == PiecesText(body) + "\\";
      UnfinishedDangles(body);
    case _ =>
  }

  lemma ValueOf(s: string) returns (v: Value)
    requires Tight(s) && ReadValue(s) != Malformed
    ensures ProperValue(v) && ValueText(v) == s
  {
    if !StartsWithQuote(s) {
      return Bare(s);
    }
    if |s| == 1 {
      return LoneQuote(s[0]);
    }
    var inside := s[1..|s| - 1];
    assert s == [s[0]] + inside + [s[0]];
    if Dangles(inside) {
      var body := PiecesOfDangling(inside);
      assert s == [s[0]] + PiecesText(body) + ['\\', s[0]];
      return Unfinished(s[0], body);
    }
    var body := PiecesOf(inside);
    return InQuotes(s[0], body);
  }

  // ---------- properties ----------

  /** A property: text as it is up to the equals sign, or pieces between two equal quotes, which are kept. */
  datatype Name = Unquoted(text: string) | QuotedName(q: char, body: seq<Piece>)

  function NameText(p: Name): string {
    match p
    case Unquoted(text) => text
    case QuotedName(q, body) => [q] + PiecesText(body) + [q]
  }

  ghost predicate ProperName(p: Name) {
    match p
    case Unquoted(text) => Tight(text) && !StartsWithQuote(text) && '=' !in text
    case QuotedName(q, body) => IsQuote(q) && Unambiguous(body) && forall i | 0 <= i < |body| :: body[i] != Plain(q)
  }

  lemma {:induction false} CloseOfPieces(q: char, p: string, body: seq<Piece>, t: string)
    requires q != '\\' && Unambiguous(body) && forall i | 0 <= i < |body| :: body[i] != Plain(q)
    ensures CloseOf(p + PiecesText(body) + [q] + t, q, |p|) == |p| + |PiecesText(body)|
    decreases |body|
  {
    var s := p + PiecesText(body) + [q] + t;
    if body == [] {
      assert s[|p|] == q;
    } else {
      var h := PieceText(body[0]);
      assert body[0] != Plain(q) && body[0] != Plain('\\');
      assert s == (p + h) + PiecesText(body[1..]) + [q] + t;
      assert s[|p|] == h[0];
      CloseOfPieces(q, p + h, body[1..], t);
    }
  }

  lemma {:induction false} PiecesUpTo(s: string, q: char, i: nat) returns (body: seq<Piece>)
    requires q != '\\' && i <= |s| && CloseOf(s, q, i) >= 0
    ensures PiecesText(body) == s[i..CloseOf(s, q, i)]
    ensures Unambiguous(body) && forall k | 0 <= k < |body| :: body[k] != Plain(q)
    decreases |s| - i
  {
    var c := CloseOf(s, q, i);
    if i == c {
      return [];
    }
    var p, n := if s[i] == '\\' then Escaped(s[i + 1]) else Plain(s[i]), if s[i] == '\\' then 2 else 1;
    var rest := PiecesUpTo(s, q, i + n);
    assert s[i..c] == PieceText(p) + s[i + n..c];
    return [p] + rest;
  }

  // ---------- property lines ----------

  /** A property line with its white space: around it, before and after the equals sign. */
  datatype PropertyLine = PropertyLine(a: string, p: Name, b: string, c: string, v: Value, d: string)

  function LineText(l: PropertyLine): string {
    l.a + (NameText(l.p) + l.b) + ("=" + l.c + ValueText(l.v)) + l.d
  }

  /** White space inside the line is printable, which leaves blanks. */
  ghost predicate ProperLine(l: PropertyLine) {
    && ProperName(l.p) && ProperValue(l.v)
    && AllSpace(l.a) && AllSpace(l.b) && AllSpace(l.c) && AllSpace(l.d)
    && Printable(NameText(l.p)) && Printable(ValueText(l.v))
    && (NameText(l.p) != "" ==> Printable(l.b)) && (ValueText(l.v) != "" ==> Printable(l.c))
  }

  function LineMeaning(l: PropertyLine): Reading<Property> {
    match ValueMeaning(l.v)
    case Read(v) => Read(Property(NameText(l.p), v))
    case _ => Overrun
  }

  /** The line without the white space around it, in two parts. */
  function Front(name: string, b: string): string {
    if name == "" then "" else name + b
  }

  function Back(c: string, value: string): string {
    if value == "" then "=" else "=" + c + value
  }

  lemma Regrouped(a: string, n: string, b: string, c: string, v: string, d: string)
    returns (lead: string, trail: string)
    ensures lead == (if n == "" then a + b else a) && trail == if v == "" then c + d else d
    ensures a + (n + b) + ("=" + c + v) + d == lead + (Front(n, b) + Back(c, v)) + trail
  {
    lead, trail := if n == "" then a + b else a, if v == "" then c + d else d;
    var front, back := Front(n, b), Back(c, v);
    assert a + (n + b) == lead + front;
    assert ("=" + c + v) + d == back + trail;
    Regroup(a + (n + b), "=" + c + v, d);
    Regroup(lead + front, back, trail);
    Regroup(lead, front, back);
  }

  lemma Regroup(x: string, y: string, z: string)
    ensures x + y + z == x + (y + z)
  {
  }

  lemma BackTight(c: string, v: string)
    requires Tight(v)
    ensures Back(c, v) != "" && Tight(Back(c, v)) && Back(c, v)[0] == '='
  {
  }

  lemma FrontBackTight(n: string, b: string, c: string, v: string)
    requires Tight(n) && Tight(v)
    ensures Tight(Front(n, b) + Back(c, v))
  {
    BackTight(c, v);
    var t := Front(n, b) + Back(c, v);
    assert t[|t| - 1] == Back(c, v)[|Back(c, v)| - 1];
  }

  lemma LineTrims(l: PropertyLine)
    requires ProperLine(l)
    ensures Strip(LineText(l)) == Front(NameText(l.p), l.b) + Back(l.c, ValueText(l.v))
  {
    hide Strip, Front, Back, NameText, ValueText;
    var n, v := NameText(l.p), ValueText(l.v);
    var lead, trail := Regrouped(l.a, n, l.b, l.c, v, l.d);
    ValueReads(l.v);
    NameTight(l.p);
    FrontBackTight(n, l.b, l.c, v);
    StripMiddle(lead, Front(n, l.b) + Back(l.c, v), trail);
  }

  lemma LinePrints(l: PropertyLine)
    requires ProperLine(l)
    ensures Printable(Front(NameText(l.p), l.b) + Back(l.c, ValueText(l.v)))
  {
    var f, b := Front(NameText(l.p), l.b), Back(l.c, ValueText(l.v));
    assert Printable(f) && Printable(b);
  }

  lemma NameTight(p: Name)
    requires ProperName(p)
    ensures Tight(NameText(p))
  {
  }

  /** Where the property ends in front of the equals sign. */
  lemma NameEnds(p: Name, b: string, back: string)
    requires ProperName(p) && AllSpace(b) && Tight(back) && back != "" && back[0] == '='
    ensures var t := Front(NameText(p), b) + back;
            var end := PropertyEnd(t);
            0 <= end && Strip(t[..end]) == NameText(p) && Strip(t[end..]) == back
  {
    match p
    case Unquoted(text) => UnquotedEnds(text, b, back);
    case QuotedName(q, body) => QuotedEnds(q, body, b, back);
  }

  lemma UnquotedEnds(text: string, b: string, back: string)
    requires ProperName(Unquoted(text)) && AllSpace(b) && Tight(back) && back != "" && back[0] == '='
    ensures var t := Front(text, b) + back;
            var end := PropertyEnd(t);
            0 <= end && Strip(t[..end]) == text && Strip(t[end..]) == back
  {
    hide Strip;
    var front := Front(text, b);
    assert front + back == front + ['='] + back[1..];
    assert '=' !in b by {
      assert forall i | 0 <= i < |b| :: IsSpace(b[i]);
    }
    IndexOfPrefix(front, '=', back[1..]);
    assert (front + back)[..|front|] == front && (front + back)[|front|..] == back;
    StripMiddle("", text, if text == "" then "" else b);
    assert "" + text + (if text == "" then "" else b) == front;
    TightStrip(back);
  }

  lemma QuotedEnds(q: char, body: seq<Piece>, b: string, back: string)
    requires ProperName(QuotedName(q, body)) && AllSpace(b) && Tight(back)
    ensures var name := NameText(QuotedName(q, body));
            var t := name + b + back;
            var end := PropertyEnd(t);
            0 <= end && Strip(t[..end]) == name && Strip(t[end..]) == back
  {
    hide Strip, CloseOf;
    var name := NameText(QuotedName(q, body));
    var t := name + b + back;
    CloseOfPieces(q, [q], body, b + back);
    assert t == [q] + PiecesText(body) + [q] + (b + back);
    assert t[..|name|] == name && t[|name|..] == b + back + "";
    TightStrip(name);
    StripMiddle(b, back, "");
  }

  lemma BackReads(c: string, v: Value)
    requires ProperValue(v) && AllSpace(c)
    ensures ReadValue(Strip(Back(c, ValueText(v))[1..])) == ValueMeaning(v)
  {
    hide Strip, ReadValue;
    var s := ValueText(v);
    ValueReads(v);
    if s == "" {
      TightStrip("");
      assert Back(c, s)[1..] == "";
    } else {
      StripMiddle(c, s, "");
      assert Back(c, s)[1..] == c + s + "";
    }
  }

  /** Every line of the grammar is read as what it means. */
  lemma LineReads(l: PropertyLine)
    requires ProperLine(l)
    ensures ReadProperty(LineText(l)) == LineMeaning(l)
  {
    hide Strip, ReadValue, PropertyEnd, NameText, ValueText, LineText, Front, Back, ProperName, ProperValue, Printable;
    var back := Back(l.c, ValueText(l.v));
    LineTrims(l);
    LinePrints(l);
    ValueReads(l.v);
    BackTight(l.c, ValueText(l.v));
    NameEnds(l.p, l.b, back);
    BackReads(l.c, l.v);
  }

  lemma NameOf(t: string) returns (p: Name, b: string)
    requires Tight(t) && PropertyEnd(t) >= 0
    ensures ProperName(p) && AllSpace(b) && NameText(p) == Strip(t[..PropertyEnd(t)])
    ensures t[..PropertyEnd(t)] == NameText(p) + b
  {
    hide Strip;
    var end := PropertyEnd(t);
    if StartsWithQuote(t) {
      var body := PiecesUpTo(t, t[0], 1);
      p, b := QuotedName(t[0], body), "";
      assert t[..end] == [t[0]] + t[1..end - 1] + [t[0]] == NameText(p) + "";
      TightStrip(NameText(p));
      assert t[..end] == NameText(p);
    } else {
      var a;
      a, b := StripSplits(t[..end]);
      var n := Strip(t[..end]);
      p := Unquoted(n);
      assert a == "";
      assert t[..end] == n + b;
      assert forall i | 0 <= i < |n| :: n[i] == t[..end][i];
    }
  }

  lemma NoTail(t: string, x: string, f: string)
    requires t == x + f && Tight(t) && AllSpace(f)
    ensures f == ""
  {
    assert forall i | 0 <= i < |f| :: t[|x| + i] == f[i];
  }

  /** The text behind a property: white space, an equals sign, white space, and a value. */
  lemma BackOf(s: string) returns (e: string, c: string, v: Value)
    requires Strip(s) != "" && Strip(s)[0] == '=' && (s == "" || !IsSpace(s[|s| - 1]))
    requires ReadValue(Strip(Strip(s)[1..])) != Malformed
    ensures AllSpace(e) && AllSpace(c) && ProperValue(v) && s == e + ("=" + c + ValueText(v))
    ensures ValueText(v) == Strip(Strip(s)[1..])
  {
    hide Strip, ReadValue;
    var f, h;
    e, f := StripSplits(s);
    var rest := Strip(s);
    StripTight(s);
    assert f == "" && s == e + rest;
    c, h := StripSplits(rest[1..]);
    var value := Strip(rest[1..]);
    v := ValueOf(value);
    assert rest == "=" + (c + value) + h;
    NoTail(rest, "=" + (c + value), h);
    assert rest == "=" + c + ValueText(v);
  }

  lemma PartsPrint(x: string, y: string)
    requires Printable(x + y)
    ensures Printable(x) && Printable(y)
  {
    assert forall i | 0 <= i < |x| :: (x + y)[i] == x[i];
    assert forall i | 0 <= i < |y| :: (x + y)[|x| + i] == y[i];
  }

  /** Every property line that is not malformed is in the grammar. */
  lemma LineOf(line: string) returns (l: PropertyLine)
    requires ReadProperty(line) != Malformed
    ensures ProperLine(l) && LineText(l) == line
  {
    hide Strip, ReadValue, PropertyEnd, NameText, ValueText, ProperName, ProperValue, Printable;
    var t := Strip(line);
    var a, d := StripSplits(line);
    var p, b := NameOf(t);
    var end := PropertyEnd(t);
    var e, c, v := BackOf(t[end..]);
    l := PropertyLine(a, p, b + e, c, v, d);
    var n, w := NameText(p), "=" + c + ValueText(v);
    assert t == t[..end] + t[end..] == (n + (b + e)) + w;
    PartsPrint(n + (b + e), w);
    PartsPrint(n, b + e);
    PartsPrint("=" + c, ValueText(v));
    PartsPrint("=", c);
    assert a + ((n + (b + e)) + w) + d == a + (n + (b + e)) + w + d;
  }

  /** A line is read as the property `p` with the value `v` exactly if it is written so. */
  lemma ReadPropertyIff(line: string, r: Reading<Property>)
    requires r != Malformed
    ensures ReadProperty(line) == r <==> exists l :: ProperLine(l) && LineText(l) == line && LineMeaning(l) == r
  {
    hide ReadProperty, ProperLine, LineText, LineMeaning;
    if ReadProperty(line) == r {
      var l := LineOf(line);
      LineReads(l);
    }
    if l :| ProperLine(l) && LineText(l) == line && LineMeaning(l) == r {
      LineReads(l);
    }
  }

  // ---------- what is written ----------

  /** A property is written with one blank on both sides of the equals sign, behind a tab if it is in a section. */
  lemma EntryLineIs(indent: bool, e: Entry)
    ensures EntryLine(indent, e) ==
            (if indent then ['\t'] else []) + PartText(Spelled(e.prop)) + [' ', '=', ' '] + PartText(Spelled(e.value))
            + ['\n']
  {
    EscapeIs(e.prop);
    EscapeIs(e.value);
  }

  /** A section head is written with one blank inside each bracket. */
  lemma SectionHeadIs(path: Path)
    requires path != []
    ensures SectionHead(path) == ['[', ' '] + KeyText(SpelledAll(path)) + [' ', ']', '\n']
  {
    JoinIs(path);
  }
}
