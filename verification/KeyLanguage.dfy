/**
  The dotted key language (src/config/config-key.c): a key is a sequence of components separated by
  periods; a component is a word, or is put in double quotes with `\` escapes.

  The functions describe the language on values; the scanners that walk over a key are in KeyScanner.
 */
module KeyLanguage {
  import opened Text
  import opened Wrappers

  /** A component that survives being written and read back. */
  predicate Good(c: string) {
    c != "" && Printable(c)
  }

  predicate AllGood(cs: seq<string>) {
    forall i | 0 <= i < |cs| :: Good(cs[i])
  }

  // ---------- escaping ----------

  function EscapeChar(c: char): string {
    if c == '"' || c == '\\' then ['\\', c] else [c]
  }

  function EscapeBody(s: string): string {
    if s == "" then "" else EscapeChar(s[0]) + EscapeBody(s[1..])
  }

  function Escape(s: string): string {
    if AllWord(s) then s else "\"" + EscapeBody(s) + "\""
  }

  /** The text without its escapes. It is not asked for a text that dangles. */
  function Unescape(s: string): string {
    if s == "" then ""
    else if s[0] == '\\' then (if |s| == 1 then "" else [s[1]] + Unescape(s[2..]))
    else [s[0]] + Unescape(s[1..])
  }

  /** The last backslash escapes nothing. */
  predicate Dangles(s: string) {
    s != "" && if s[0] == '\\' then |s| == 1 || Dangles(s[2..]) else Dangles(s[1..])
  }

  /** The number of backslashes at the end of a text. */
  function TrailingBackslashes(s: string): (n: nat)
    ensures n <= |s| && (n < |s| ==> s[|s| - 1 - n] != '\\')
    ensures forall i | |s| - n <= i < |s| :: s[i] == '\\'
  {
    if s == "" || s[|s| - 1] != '\\' then 0 else 1 + TrailingBackslashes(s[..|s| - 1])
  }

  lemma {:induction false} TrailingTail(s: string, k: nat)
    requires k <= |s| && TrailingBackslashes(s) <= |s| - k
    ensures TrailingBackslashes(s[k..]) == TrailingBackslashes(s)
  {
    if s != "" && s[|s| - 1] == '\\' {
      assert s[k..][..|s| - k - 1] == s[..|s| - 1][k..];
      TrailingTail(s[..|s| - 1], k);
    }
  }

  /** A text dangles exactly if it ends in an odd number of backslashes. */
  lemma {:induction false} DanglesIff(s: string)
    ensures Dangles(s) <==> TrailingBackslashes(s) % 2 == 1
    decreases |s|
  {
    var n := TrailingBackslashes(s);
    if s != "" {
      if s[0] != '\\' {
        TrailingTail(s, 1);
        DanglesIff(s[1..]);
      } else if |s| > 1 {
        DanglesIff(s[2..]);
        if n <= |s| - 2 {
          TrailingTail(s, 2);
        } else {
          AllBackslashes(s[2..]);
        }
      }
    }
  }

  lemma {:induction false} AllBackslashes(s: string)
    requires forall i | 0 <= i < |s| :: s[i] == '\\'
    ensures TrailingBackslashes(s) == |s|
  {
    if s != "" {
      AllBackslashes(s[..|s| - 1]);
    }
  }

  /** Escaped text does not dangle. */
  lemma {:induction false} EscapeBodyCloses(s: string)
    ensures !Dangles(EscapeBody(s))
  {
    if s != "" {
      var e := EscapeBody(s);
      assert e[|EscapeChar(s[0])|..] == EscapeBody(s[1..]);
      EscapeBodyCloses(s[1..]);
    }
  }

  lemma {:induction false} UnescapeNothing(s: string)
    requires forall i | 0 <= i < |s| :: s[i] != '\\'
    ensures Unescape(s) == s && !Dangles(s)
  {
    if s != "" {
      UnescapeNothing(s[1..]);
    }
  }

  lemma {:induction false} UnescapeEscapeBody(s: string)
    ensures Unescape(EscapeBody(s)) == s
  {
    if s != "" {
      var e := EscapeBody(s);
      assert e[|EscapeChar(s[0])|..] == EscapeBody(s[1..]);
      UnescapeEscapeBody(s[1..]);
    }
  }

  lemma {:induction false} UnescapePrintable(s: string)
    requires Printable(s)
    ensures Printable(Unescape(s))
    decreases |s|
  {
    if s == "" {
    } else if s[0] == '\\' {
      if |s| > 1 {
        UnescapePrintable(s[2..]);
      }
    } else {
      UnescapePrintable(s[1..]);
    }
  }

  lemma {:induction false} EscapeBodyPrintable(s: string)
    ensures Printable(EscapeBody(s)) <==> Printable(s)
  {
    if s != "" {
      EscapeBodyPrintable(s[1..]);
      var h := EscapeChar(s[0]);
      assert s == [s[0]] + s[1..];
      assert Printable(s) <==> IsPrint(s[0]) && Printable(s[1..]);
      assert forall i | 0 <= i < |EscapeBody(s[1..])| ::
          EscapeBody(s)[|h| + i] == EscapeBody(s[1..])[i];
      assert EscapeBody(s)[|h| - 1] == s[0];
    }
  }

  lemma EscapePrintable(s: string)
    ensures Printable(Escape(s)) <==> Printable(s)
  {
    EscapeBodyPrintable(s);
    if !AllWord(s) {
      var e, b := Escape(s), EscapeBody(s);
      assert forall i | 0 <= i < |b| :: e[i + 1] == b[i];
    }
  }

  /** Escaping leaves no white space at either end. */
  lemma EscapeTight(s: string)
    ensures Tight(Escape(s))
    ensures s != "" ==> Escape(s) != "" && Escape(s)[0] != '[' && (IsWord(Escape(s)[0]) || Escape(s)[0] == '"')
    ensures s == "" ==> Escape(s) == ""
  {
  }

  // ---------- scanning ----------

  /** Position of the closing quote of a quoted component whose text starts at `i`, or -1 if there is none. */
  function CloseQuote(s: string, i: nat): (r: int)
    requires i <= |s|
    ensures r == -1 || (i <= r < |s| && s[r] == '"')
    decreases |s| - i
  {
    if i == |s| then -1
    else if s[i] == '"' then i
    else if !IsPrint(s[i]) then -1
    else if s[i] == '\\' then
      if i + 1 == |s| then -1 else CloseQuote(s, i + 2)
    else CloseQuote(s, i + 1)
  }

  /** End of the run of word characters from `i` on, or -1 if it does not run up to a period or the end. */
  function WordEnd(s: string, i: nat): (r: int)
    requires i <= |s|
    ensures r == -1 || (i <= r <= |s| && (r == |s| || s[r] == '.'))
    decreases |s| - i
  {
    if i == |s| || s[i] == '.' then i
    else if !IsWord(s[i]) then -1
    else WordEnd(s, i + 1)
  }

  /** End of the component that starts at `i`, quotes included, or -1 if there is no valid one. */
  function ComponentEnd(s: string, i: nat): (r: int)
    requires i <= |s|
    ensures r == -1 || (i <= r <= |s| && (r == |s| || s[r] == '.'))
    ensures r >= 0 ==> i < |s| && (s[i] == '"' ==> i + 2 <= r)
  {
    if i == |s| then -1
    else if s[i] == '"' then
      var q := CloseQuote(s, i + 1);
      if q < 0 || (q + 1 < |s| && s[q + 1] != '.') then -1 else q + 1
    else WordEnd(s, i)
  }

  /** The component meant by its text in a key: quotes and escapes removed. */
  function Decode(s: string): string {
    if |s| >= 2 && s[0] == '"' then Unescape(s[1..|s| - 1]) else Unescape(s)
  }

  /** The texts of the components from position `i` on, or None if the key is not valid from there. */
  function Components(key: string, i: nat): (r: Option<seq<string>>)
    requires i <= |key|
    ensures r.Some? ==> r.value != []
    decreases |key| - i
  {
    var e := ComponentEnd(key, i);
    if e <= i then None
    else if e == |key| then Some([key[i..e]])
    else
      var rest := Components(key, e + 1);
      if rest.None? then None else Some([key[i..e]] + rest.value)
  }

  predicate ValidKey(key: string) {
    Components(key, 0).Some?
  }

  function DecodeAll(texts: seq<string>): (r: seq<string>)
    ensures |r| == |texts|
  {
    if texts == [] then [] else [Decode(texts[0])] + DecodeAll(texts[1..])
  }

  /** The components of a key, or None if the key is not valid. */
  function Isolate(key: string): Option<seq<string>> {
    if ValidKey(key) then Some(DecodeAll(Components(key, 0).value)) else None
  }

  lemma {:induction false} DecodeAllConcat(a: seq<string>, b: seq<string>)
    ensures DecodeAll(a + b) == DecodeAll(a) + DecodeAll(b)
  {
    if a == [] {
      assert a + b == b;
    } else {
      assert (a + b)[1..] == a[1..] + b;
      DecodeAllConcat(a[1..], b);
    }
  }

  function Join(cs: seq<string>): string
    requires cs != []
  {
    if |cs| == 1 then Escape(cs[0]) else Escape(cs[0]) + "." + Join(cs[1..])
  }

  function Merge(cs: seq<string>): Option<string> {
    if cs == [] then None
    else if ValidKey(Join(cs)) then Some(Join(cs)) else None
  }
}
