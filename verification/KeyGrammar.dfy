/**
  The grammar of keys (src/config/config-key.c), without any scanning: what may be written as a key and what
  it means, for every text.
 */
module KeyGrammar {
  import opened Wrappers
  import opened Text
  import opened KeyLanguage
  import opened KeyInverses

  // ---------- text with escapes ----------

  /** A character as it is, or any character behind a backslash. */
  datatype Piece = Plain(c: char) | Escaped(c: char)

  function PieceText(p: Piece): string {
    if p.Plain? then [p.c] else ['\\', p.c]
  }

  function PiecesText(ps: seq<Piece>): string {
    if ps == [] then "" else PieceText(ps[0]) + PiecesText(ps[1..])
  }

  function Meant(ps: seq<Piece>): (s: string)
    ensures |s| == |ps|
  {
    if ps == [] then "" else [ps[0].c] + Meant(ps[1..])
  }

  /** No character stands as it is that is a backslash. */
  ghost predicate Unambiguous(ps: seq<Piece>) {
    forall i | 0 <= i < |ps| :: ps[i] != Plain('\\')
  }

  lemma PiecesFirst(ps: seq<Piece>)
    requires ps != []
    ensures PiecesText(ps)[|PieceText(ps[0])|..] == PiecesText(ps[1..])
  {
  }

  /** Unescaping drops the backslash of each escape and keeps everything else. */
  lemma {:induction false} UnescapePieces(ps: seq<Piece>)
    requires Unambiguous(ps)
    ensures Unescape(PiecesText(ps)) == Meant(ps) && !Dangles(PiecesText(ps))
  {
    if ps != [] {
      PiecesFirst(ps);
      assert ps[0] != Plain('\\');
      UnescapePieces(ps[1..]);
    }
  }

  /** Every text that does not dangle is made of pieces. */
  lemma {:induction false} PiecesOf(s: string) returns (ps: seq<Piece>)
    requires !Dangles(s)
    ensures Unambiguous(ps) && PiecesText(ps) == s
    decreases |s|
  {
    if s == "" {
      return [];
    }
    var p, n := if s[0] == '\\' then Escaped(s[1]) else Plain(s[0]), if s[0] == '\\' then 2 else 1;
    var rest := PiecesOf(s[n..]);
    ps := [p] + rest;
    assert s == PieceText(p) + s[n..];
  }

  // ---------- components and keys ----------

  /** A bare word, or pieces in double quotes. */
  datatype Part = Word(text: string) | Quoted(body: seq<Piece>)

  /** Inside double quotes quotes and backslashes are escaped, and what is not escaped is printable. */
  predicate QuotedPiece(p: Piece) {
    p.Plain? ==> IsPrint(p.c) && p.c != '"' && p.c != '\\'
  }

  predicate ProperPart(p: Part) {
    match p
    case Word(text) => text != "" && AllWord(text)
    case Quoted(body) => forall i | 0 <= i < |body| :: QuotedPiece(body[i])
  }

  function PartText(p: Part): string {
    match p
    case Word(text) => text
    case Quoted(body) => "\"" + PiecesText(body) + "\""
  }

  function PartMeaning(p: Part): string {
    match p
    case Word(text) => text
    case Quoted(body) => Meant(body)
  }

  /** At least one part, each of them well formed. */
  ghost predicate ProperParts(parts: seq<Part>) {
    parts != [] && forall i | 0 <= i < |parts| :: ProperPart(parts[i])
  }

  function KeyText(parts: seq<Part>): string
    requires parts != []
  {
    if |parts| == 1 then PartText(parts[0]) else PartText(parts[0]) + "." + KeyText(parts[1..])
  }

  function Meanings(parts: seq<Part>): (cs: seq<string>)
    ensures |cs| == |parts|
  {
    if parts == [] then [] else [PartMeaning(parts[0])] + Meanings(parts[1..])
  }

  // ---------- what is written by the grammar is read by the scanner ----------

  lemma {:induction false} CloseQuoteOfPieces(body: seq<Piece>, t: string)
    requires forall i | 0 <= i < |body| :: QuotedPiece(body[i])
    ensures CloseQuote(PiecesText(body) + "\"" + t, 0) == |PiecesText(body)|
  {
    if body == [] {
      assert PiecesText(body) + "\"" + t == "\"" + t;
    } else {
      var h, r := PieceText(body[0]), PiecesText(body[1..]) + "\"" + t;
      assert PiecesText(body) + "\"" + t == h + r;
      assert QuotedPiece(body[0]);
      CloseQuoteOfPieces(body[1..], t);
      CloseQuoteAfter(h, r, 0);
    }
  }

  lemma PartEnd(p: Part)
    requires ProperPart(p)
    ensures ComponentEnd(PartText(p), 0) == |PartText(p)| > 0
  {
    match p
    case Word(text) =>
      WordEndOfWord(text, "", 0);
      assert text + "" == text;
    case Quoted(body) =>
      CloseQuoteOfPieces(body, "");
      assert PiecesText(body) + "\"" + "" == PiecesText(body) + "\"";
      QuotedEnd(PiecesText(body), "");
      assert "\"" + PiecesText(body) + "\"" + "" == PartText(p);
  }

  lemma PartDecodes(p: Part)
    requires ProperPart(p)
    ensures Decode(PartText(p)) == PartMeaning(p)
  {
    var s := PartText(p);
    match p
    case Word(text) => UnescapeNothing(text);
    case Quoted(body) =>
      assert s[1..|s| - 1] == PiecesText(body);
      UnescapePieces(body);
  }

  lemma PartReads(p: Part)
    requires ProperPart(p)
    ensures Isolate(PartText(p)) == Some([PartMeaning(p)])
  {
    var s := PartText(p);
    PartEnd(p);
    PartDecodes(p);
    assert s[0..|s|] == s && DecodeAll([s]) == [Decode(s)];
  }

  /** Every key of the grammar is valid, and isolating gives what its parts mean. */
  lemma {:induction false} KeyReads(parts: seq<Part>)
    requires ProperParts(parts)
    ensures Isolate(KeyText(parts)) == Some(Meanings(parts))
    decreases |parts|
  {
    hide Isolate, ProperPart;
    PartReads(parts[0]);
    if |parts| > 1 {
      KeyReads(parts[1..]);
      IsolateDotted(PartText(parts[0]), KeyText(parts[1..]));
    } else {
      assert Meanings(parts) == [PartMeaning(parts[0])];
    }
  }

  lemma IsolateDotted(k1: string, k2: string)
    requires Isolate(k1).Some? && Isolate(k2).Some?
    ensures Isolate(k1 + "." + k2) == Some(Isolate(k1).value + Isolate(k2).value)
  {
    IsolateConcat(k1, k2);
  }

  // ---------- what the scanner accepts is in the grammar ----------

  lemma {:induction false} PiecesOfQuoted(s: string, i: nat) returns (body: seq<Piece>)
    requires i <= |s| && CloseQuote(s, i) >= 0
    ensures PiecesText(body) == s[i..CloseQuote(s, i)] && forall k | 0 <= k < |body| :: QuotedPiece(body[k])
    decreases |s| - i
  {
    var q := CloseQuote(s, i);
    if i == q {
      return [];
    }
    var p, n := if s[i] == '\\' then Escaped(s[i + 1]) else Plain(s[i]), if s[i] == '\\' then 2 else 1;
    var rest := PiecesOfQuoted(s, i + n);
    assert s[i..q] == PieceText(p) + s[i + n..q];
    return [p] + rest;
  }

  lemma {:induction false} WordOf(s: string, i: nat)
    requires i <= |s| && WordEnd(s, i) >= 0
    ensures AllWord(s[i..WordEnd(s, i)])
    decreases |s| - i
  {
    var e := WordEnd(s, i);
    if i < e {
      WordOf(s, i + 1);
      assert s[i..e] == [s[i]] + s[i + 1..e];
    }
  }

  lemma PartOf(s: string, i: nat) returns (p: Part)
    requires i <= |s| && ComponentEnd(s, i) > i
    ensures ProperPart(p) && PartText(p) == s[i..ComponentEnd(s, i)]
  {
    var e := ComponentEnd(s, i);
    if s[i] == '"' {
      var body := PiecesOfQuoted(s, i + 1);
      assert s[i..e] == "\"" + s[i + 1..e - 1] + "\"";
      return Quoted(body);
    }
    WordOf(s, i);
    return Word(s[i..e]);
  }

  lemma {:induction false} PartsFrom(key: string, i: nat) returns (parts: seq<Part>)
    requires i <= |key| && Components(key, i).Some?
    ensures ProperParts(parts) && KeyText(parts) == key[i..]
    decreases |key| - i
  {
    hide ComponentEnd, ProperPart;
    var e := ComponentEnd(key, i);
    var p := PartOf(key, i);
    if e == |key| {
      return [p];
    }
    var rest := PartsFrom(key, e + 1);
    ComponentDot(key, i);
    assert key[i..] == key[i..e] + "." + key[e + 1..];
    return [p] + rest;
  }

  lemma ComponentDot(key: string, i: nat)
    requires i <= |key| && 0 <= ComponentEnd(key, i) < |key|
    ensures key[ComponentEnd(key, i)] == '.'
  {
  }

  lemma KeyParts(key: string) returns (parts: seq<Part>)
    requires ValidKey(key)
    ensures ProperParts(parts) && KeyText(parts) == key
  {
    parts := PartsFrom(key, 0);
    assert key[0..] == key;
  }

  // ---------- the language ----------

  /** A key is valid exactly if it is one or more parts with periods between them. */
  lemma ValidKeyIff(key: string)
    ensures ValidKey(key) <==> exists parts: seq<Part> :: ProperParts(parts) && KeyText(parts) == key
  {
    hide KeyText, ProperPart;
    if ValidKey(key) {
      var parts := KeyParts(key);
    }
    if parts: seq<Part> :| ProperParts(parts) && KeyText(parts) == key {
      KeyReads(parts);
    }
  }

  /** Isolating a key gives what its parts mean: words as they are, quoted text without the backslashes of escapes. */
  lemma IsolateIff(key: string, cs: seq<string>)
    ensures Isolate(key) == Some(cs) <==>
            exists parts: seq<Part> :: ProperParts(parts) && KeyText(parts) == key && Meanings(parts) == cs
  {
    hide KeyText, ProperPart, Meanings;
    if Isolate(key) == Some(cs) {
      var parts := KeyParts(key);
      KeyReads(parts);
    }
    if parts: seq<Part> :| ProperParts(parts) && KeyText(parts) == key && Meanings(parts) == cs {
      KeyReads(parts);
    }
  }

  /** Without quotes a key is valid exactly if it is made of word characters, with single periods inside. */
  lemma BareKeyIff(key: string)
    requires '"' !in key
    ensures ValidKey(key) <==>
            && key != "" && key[0] != '.' && key[|key| - 1] != '.'
            && (forall i | 0 <= i < |key| :: IsWord(key[i]) || key[i] == '.')
            && (forall i | 0 <= i < |key| - 1 :: !(key[i] == '.' && key[i + 1] == '.'))
  {
    BareFrom(key, 0);
  }

  lemma {:induction false} BareEnd(key: string, i: nat)
    requires '"' !in key && i < |key|
    ensures ComponentEnd(key, i) < 0 ==> exists k | i <= k < |key| :: !IsWord(key[k]) && key[k] != '.'
    ensures ComponentEnd(key, i) >= 0 ==> forall k | i <= k < ComponentEnd(key, i) :: IsWord(key[k])
    decreases |key| - i
  {
    if IsWord(key[i]) && i + 1 < |key| {
      BareEnd(key, i + 1);
    }
  }

  lemma {:induction false} BareFrom(key: string, i: nat)
    requires '"' !in key && i <= |key|
    ensures Components(key, i).Some? <==> BareText(key, i)
    decreases |key| - i
  {
    if i < |key| {
      hide IsWord;
      BareEnd(key, i);
      var e := ComponentEnd(key, i);
      if i < e < |key| {
        ComponentDot(key, i);
        BareFrom(key, e + 1);
        hide ComponentEnd;
        BareStep(key, i, e);
      }
    }
  }

  /** The text from position `i` on is word characters and single periods inside. */
  ghost predicate BareText(key: string, i: nat)
    requires i <= |key|
  {
    && i < |key| && key[i] != '.' && key[|key| - 1] != '.'
    && (forall k | i <= k < |key| :: IsWord(key[k]) || key[k] == '.')
    && (forall k | i <= k < |key| - 1 :: !(key[k] == '.' && key[k + 1] == '.'))
  }

  lemma BareStep(key: string, i: nat, e: nat)
    requires i < e < |key| && key[e] == '.' && forall k | i <= k < e :: IsWord(key[k])
    ensures BareText(key, i) <==> BareText(key, e + 1)
  {
    assert IsWord(key[i]);
  }

  // ---------- the shortest spelling ----------

  lemma {:induction false} EscapeBodyShortest(body: seq<Piece>)
    requires forall i | 0 <= i < |body| :: QuotedPiece(body[i])
    ensures |EscapeBody(Meant(body))| <= |PiecesText(body)|
    ensures |EscapeBody(Meant(body))| == |PiecesText(body)| ==> EscapeBody(Meant(body)) == PiecesText(body)
  {
    if body != [] {
      assert Meant(body)[1..] == Meant(body[1..]);
      assert QuotedPiece(body[0]);
      EscapeBodyShortest(body[1..]);
    }
  }

  lemma {:induction false} EscapedLength(s: string)
    ensures |EscapeBody(s)| >= |s|
  {
    if s != "" {
      EscapedLength(s[1..]);
    }
  }

  /** Of all spellings of a component, escaping writes the one that is the shortest. */
  lemma EscapeIsShortest(p: Part)
    requires ProperPart(p)
    ensures |Escape(PartMeaning(p))| <= |PartText(p)|
    ensures |Escape(PartMeaning(p))| == |PartText(p)| ==> Escape(PartMeaning(p)) == PartText(p)
  {
    if p.Quoted? {
      EscapeBodyShortest(p.body);
      EscapedLength(Meant(p.body));
    }
  }

  // ---------- the spelling that is written ----------

  /** Quotes and backslashes are escaped, everything else is not. */
  function SpelledPieces(s: string): (ps: seq<Piece>)
    ensures Meant(ps) == s && |ps| == |s|
  {
    if s == "" then []
    else [if s[0] in ['"', '\\'] then Escaped(s[0]) else Plain(s[0])] + SpelledPieces(s[1..])
  }

  /** A word is written as it is, anything else in double quotes. */
  function Spelled(c: string): Part {
    if forall i | 0 <= i < |c| :: IsWord(c[i]) then Word(c) else Quoted(SpelledPieces(c))
  }

  function SpelledAll(cs: seq<string>): (parts: seq<Part>)
    ensures |parts| == |cs|
  {
    if cs == [] then [] else [Spelled(cs[0])] + SpelledAll(cs[1..])
  }

  lemma {:induction false} EscapeBodyIs(s: string)
    ensures EscapeBody(s) == PiecesText(SpelledPieces(s))
  {
    if s != "" {
      EscapeBodyIs(s[1..]);
      assert SpelledPieces(s)[1..] == SpelledPieces(s[1..]);
    }
  }

  lemma EscapeIs(c: string)
    ensures Escape(c) == PartText(Spelled(c))
  {
    EscapeBodyIs(c);
  }

  /** A key is written with its components spelled so, and periods between them. */
  lemma {:induction false} JoinIs(cs: seq<string>)
    requires cs != []
    ensures Join(cs) == KeyText(SpelledAll(cs))
    decreases |cs|
  {
    hide Escape, PartText;
    EscapeIs(cs[0]);
    if |cs| > 1 {
      JoinIs(cs[1..]);
      assert SpelledAll(cs)[1..] == SpelledAll(cs[1..]);
    }
  }

  /** A hyphen is no word character, so that it makes a bare key invalid. */
  lemma HyphenNeedsQuotes(a: string, b: string)
    requires '"' !in a && '"' !in b
    ensures !ValidKey(a + "-" + b)
  {
    var key := a + "-" + b;
    assert key[|a|] == '-' && !IsWord('-');
    BareKeyIff(key);
  }
}
