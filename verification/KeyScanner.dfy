/**
  The scanners of src/config/config-key.c, which walk over a key with moving positions, proved against
  the key language.
 */
module KeyScanner {
  import opened Wrappers
  import opened Text
  import opened KeyLanguage
  import opened KeyInverses
  import opened StrBufs

  method IsValidQuotedComponent(key: string, start: nat) returns (valid: bool, tail: nat)
    requires start < |key| && key[start] == '"'
    ensures valid <==> ComponentEnd(key, start) >= 0
    ensures valid ==> tail == ComponentEnd(key, start)
  {
    tail := start;
    var end := start + 1;
    while end < |key| && key[end] != '"'
      invariant start < end <= |key| && CloseQuote(key, start + 1) == CloseQuote(key, end)
    {
      if !IsPrint(key[end]) {
        return false, tail;
      }
      if key[end] == '\\' {
        // skip the escaped character, or stop at the end of the key
        end := end + 1;
        if end == |key| {
          return false, tail;
        }
      }
      end := end + 1;
    }
    if end == |key| {
      return false, tail;
    }
    end := end + 1;
    if end < |key| && key[end] != '.' {
      return false, tail;
    }
    return true, end;
  }

  method IsValidUnquotedComponent(key: string, start: nat) returns (valid: bool, tail: nat)
    requires start < |key| && key[start] != '"'
    ensures valid <==> ComponentEnd(key, start) >= 0
    ensures valid ==> tail == ComponentEnd(key, start)
  {
    tail := start;
    var end := start;
    while end < |key| && key[end] != '.'
      invariant start <= end <= |key| && WordEnd(key, start) == WordEnd(key, end)
    {
      if !IsWord(key[end]) {
        return false, tail;
      }
      end := end + 1;
    }
    return true, end;
  }

  method IsValidComponent(key: string, start: nat) returns (valid: bool, tail: nat)
    requires start <= |key|
    ensures valid <==> ComponentEnd(key, start) >= 0
    ensures valid ==> tail == ComponentEnd(key, start)
  {
    if start == |key| {
      return false, start;
    }
    if key[start] == '"' {
      valid, tail := IsValidQuotedComponent(key, start);
    } else {
      valid, tail := IsValidUnquotedComponent(key, start);
    }
  }

  method IsValidKey(key: string) returns (valid: bool)
    ensures valid <==> ValidKey(key)
  {
    if key == "" {
      return false;
    }
    var start := 0;
    while start < |key|
      invariant start <= |key|
      invariant if start < |key| then Components(key, start).Some? == ValidKey(key) else ValidKey(key)
    {
      var ok, end := IsValidComponent(key, start);
      // empty components and a trailing period are not allowed
      if !ok || start == end {
        return false;
      }
      if end < |key| && key[end] == '.' && end + 1 == |key| {
        return false;
      }
      start := end;
      if end < |key| {
        start := end + 1;
      }
    }
    return true;
  }

  /** Append the components of `key` to `components`; status 1 and no change if the key is not valid. */
  method IsolateKey(key: string, components: seq<string>) returns (status: int, all: seq<string>)
    requires CString(key)
    ensures status == if ValidKey(key) then 0 else 1
    ensures all == components + (if ValidKey(key) then Isolate(key).value else [])
  {
    all := components;
    var valid := IsValidKey(key);
    if !valid {
      return 1, components;
    }
    var start := 0;
    ghost var texts := [];
    ReadStart(key);
    while start < |key|
      invariant start <= |key| && all == components + DecodeAll(texts)
      invariant IsRead(key, start, texts)
    {
      var component, next, text := ReadAt(key, start, texts);
      Snoc(components, texts, text);
      start, texts, all := next, texts + [text], all + [component];
    }
    return 0, all;
  }

  /** One round of the loop above. */
  method ReadAt(key: string, start: nat, ghost texts: seq<string>)
    returns (component: string, next: nat, ghost text: string)
    requires CString(key) && start < |key| && IsRead(key, start, texts)
    ensures start < next <= |key| && component == Decode(text) && IsRead(key, next, texts + [text])
  {
    hide Unescape, UpToNul, Dangles, Decode, IsRead, ComponentEnd;
    var ok, end := IsValidComponent(key, start);
    ReadNext(key, start, texts);
    ReadIsDecode(key, start, end);
    text := key[start..end];
    var quote := if key[start] == '"' then 1 else 0;
    component := ReadComponent(key[start + quote..end - quote]);
    next := end;
    if end < |key| {
      next := end + 1;
    }
  }

  /** `texts` are the components before position `start`, and the key is valid from there on. */
  ghost predicate IsRead(key: string, start: nat, texts: seq<string>)
    requires start <= |key|
  {
    if start < |key|
    then Components(key, start).Some? && Components(key, 0) == Some(texts + Components(key, start).value)
    else Components(key, 0) == Some(texts)
  }

  lemma ReadStart(key: string)
    requires ValidKey(key)
    ensures key != "" && IsRead(key, 0, [])
  {
    assert [] + Components(key, 0).value == Components(key, 0).value;
  }

  lemma ReadNext(key: string, start: nat, texts: seq<string>)
    requires start < |key| && IsRead(key, start, texts)
    ensures var end := ComponentEnd(key, start);
            && start < end
            && end + 1 != |key|
            && IsRead(key, if end < |key| then end + 1 else end, texts + [key[start..end]])
  {
    var end := ComponentEnd(key, start);
    if end < |key| {
      SeqAssoc(texts, [key[start..end]], Components(key, end + 1).value);
    }
  }

  lemma Snoc(components: seq<string>, texts: seq<string>, text: string)
    ensures components + DecodeAll(texts + [text]) == components + DecodeAll(texts) + [Decode(text)]
  {
    DecodeAllConcat(texts, [text]);
    assert DecodeAll([text]) == [Decode(text)];
  }

  method ReadComponent(text: string) returns (component: string)
    requires !Dangles(UpToNul(text))
    ensures component == Unescape(UpToNul(text))
  {
    var b := new StrBuf();
    b.Attach(text);
    assert b.Text() == UpToNul(text);
    var overran := UnescapeBuffer(b);
    component := b.buff[..b.len];
  }

  lemma {:induction false} CloseQuoteCloses(s: string, i: nat)
    requires i <= |s| && CloseQuote(s, i) >= 0
    ensures !Dangles(s[i..CloseQuote(s, i)])
    decreases |s| - i
  {
    var q := CloseQuote(s, i);
    if i < q {
      if s[i] == '\\' {
        CloseQuoteCloses(s, i + 2);
        assert s[i..q][2..] == s[i + 2..q];
      } else {
        CloseQuoteCloses(s, i + 1);
        assert s[i..q][1..] == s[i + 1..q];
      }
    }
  }

  lemma {:induction false} WordCloses(s: string, i: nat)
    requires i <= |s| && WordEnd(s, i) >= 0
    ensures !Dangles(s[i..WordEnd(s, i)])
    decreases |s| - i
  {
    var e := WordEnd(s, i);
    if i < e {
      WordCloses(s, i + 1);
      assert s[i..e][1..] == s[i + 1..e];
    }
  }

  /** The text of a valid component never makes unescaping step over the end of its buffer. */
  lemma ComponentCloses(key: string, start: nat)
    requires start <= |key| && ComponentEnd(key, start) > start
    ensures var quote, end := if key[start] == '"' then 1 else 0, ComponentEnd(key, start);
            !Dangles(key[start + quote..end - quote])
  {
    if key[start] == '"' {
      CloseQuoteCloses(key, start + 1);
    } else {
      WordCloses(key, start);
    }
  }

  lemma ReadIsDecode(key: string, start: nat, end: nat)
    requires CString(key) && start < end <= |key| && end == ComponentEnd(key, start)
    ensures var quote := if key[start] == '"' then 1 else 0;
            && Decode(key[start..end]) == Unescape(UpToNul(key[start + quote..end - quote]))
            && !Dangles(UpToNul(key[start + quote..end - quote]))
  {
    hide Unescape, UpToNul, Dangles;
    ComponentCloses(key, start);
    if key[start] == '"' {
      SliceSlice(key, start, end, 1, end - start - 1);
      UpToNulWhole(key[start + 1..end - 1]);
    } else {
      UpToNulWhole(key[start..end]);
    }
  }

  lemma SliceSlice(s: string, a: nat, b: nat, c: nat, d: nat)
    requires a <= b <= |s| && c <= d <= b - a
    ensures s[a..b][c..d] == s[a + c..a + d]
  {
    var x, y := s[a..b][c..d], s[a + c..a + d];
    forall i | 0 <= i < d - c
      ensures x[i] == y[i]
    {
      assert x[i] == s[a..b][c + i];
      assert y[i] == s[a + c + i];
    }
  }

  lemma UpToNulWhole(s: string)
    requires CString(s)
    ensures UpToNul(s) == s
  {
  }

  /** Put the buffer in double quotes, with quotes and backslashes escaped, unless it is a word. */
  method EscapeBuffer(b: StrBuf)
    requires b.Valid()
    modifies b, b.buff
    ensures b.Valid() && (fresh(b.buff) || b.buff == old(b.buff))
    ensures b.Text() == Escape(old(b.Text()))
  {
    ghost var text := b.Text();
    var shouldQuote := NeedsQuotes(b);
    if !shouldQuote {
      return;
    }
    var quoted := QuotedText(b);
    UpToNulWhole(quoted);
    b.Clear();
    b.Attach(quoted);
    assert b.Text() == quoted;
  }

  method QuotedText(b: StrBuf) returns (result: string)
    requires b.Valid()
    ensures result == "\"" + EscapeBody(b.Text()) + "\"" && '\0' !in result
  {
    var quoted := new StrBuf();
    UpToNulWhole("\"");
    quoted.Attach("\"");
    AttachEscaped(quoted, b);
    quoted.Attach("\"");
    result := quoted.buff[..quoted.len];
  }

  /** The first loop of `EscapeBuffer`. */
  method NeedsQuotes(b: StrBuf) returns (shouldQuote: bool)
    requires b.Valid()
    ensures shouldQuote <==> !AllWord(b.Text())
  {
    for i := 0 to b.len
      invariant AllWord(b.Text()[..i])
    {
      var c := b.buff[i];
      assert c == b.Text()[i];
      if !IsWord(c) {
        return true;
      }
    }
    return false;
  }

  /** The second loop of `EscapeBuffer`. */
  method AttachEscaped(quoted: StrBuf, b: StrBuf)
    requires quoted.Valid() && b.Valid() && quoted != b && quoted.buff != b.buff
    modifies quoted, quoted.buff
    ensures quoted.Valid() && (fresh(quoted.buff) || quoted.buff == old(quoted.buff))
    ensures quoted.Text() == old(quoted.Text()) + EscapeBody(b.Text())
  {
    hide EscapeChar;
    ghost var text := b.Text();
    assert EscapeBody(text[..0]) == "";
    for i := 0 to b.len
      invariant quoted.Valid() && (fresh(quoted.buff) || quoted.buff == old(quoted.buff))
      invariant unchanged(b) && unchanged(b.buff)
      invariant quoted.Text() == old(quoted.Text()) + EscapeBody(text[..i])
    {
      EscapeBodyNext(text, i);
      assert b.buff[i] == text[i] && text[i] in text;
      AttachChar(quoted, b.buff[i]);
    }
    assert text[..b.len] == text;
  }

  /** One character, with a backslash in front if it is a quote or a backslash. */
  method AttachChar(quoted: StrBuf, c: char)
    requires quoted.Valid() && c != '\0'
    modifies quoted, quoted.buff
    ensures quoted.Valid() && (fresh(quoted.buff) || quoted.buff == old(quoted.buff))
    ensures quoted.Text() == old(quoted.Text()) + EscapeChar(c)
  {
    UpToNulWhole(EscapeChar(c));
    if c == '"' {
      quoted.Attach("\\\"");
    } else if c == '\\' {
      quoted.Attach("\\\\");
    } else {
      quoted.Attach([c]);
    }
  }

  lemma EscapeBodyNext(s: string, i: nat)
    requires i < |s|
    ensures EscapeBody(s[..i + 1]) == EscapeBody(s[..i]) + EscapeChar(s[i])
    ensures forall t: string :: t + EscapeBody(s[..i + 1]) == t + EscapeBody(s[..i]) + EscapeChar(s[i])
  {
    EscapeBodySnoc(s[..i], s[i]);
    assert s[..i] + [s[i]] == s[..i + 1];
  }

  lemma {:induction false} EscapeBodySnoc(s: string, c: char)
    ensures EscapeBody(s + [c]) == EscapeBody(s) + EscapeChar(c)
  {
    if s == "" {
      assert s + [c] == [c];
    } else {
      assert (s + [c])[1..] == s[1..] + [c];
      EscapeBodySnoc(s[1..], c);
    }
  }

  /** Write the components as one key onto `key`; status 1 and no change if some component is not good. */
  method MergeKey(components: seq<string>, key: string) returns (status: int, all: string)
    requires forall c | c in components :: CString(c)
    ensures status == if components != [] && AllGood(components) then 0 else 1
    ensures all == if status == 0 then key + Join(components) else key
  {
    hide Isolate, Escape;
    if components == [] {
      return 1, key;
    }
    var merged := EscapeComponent(components[0]);
    assert components[..1] == [components[0]] && Join([components[0]]) == Escape(components[0]);
    for i := 1 to |components|
      invariant merged == Join(components[..i])
    {
      var component := EscapeComponent(components[i]);
      JoinSnoc(components[..i], components[i]);
      assert components[..i] + [components[i]] == components[..i + 1];
      merged := merged + "." + component;
    }
    assert components[..|components|] == components;
    MergeIsolate(components);
    var valid := IsValidKey(merged);
    if !valid {
      return 1, key;
    }
    return 0, key + merged;
  }

  method EscapeComponent(text: string) returns (component: string)
    requires CString(text)
    ensures component == Escape(text)
  {
    var b := new StrBuf();
    UpToNulWhole(text);
    b.Attach(text);
    assert b.Text() == text;
    EscapeBuffer(b);
    component := b.buff[..b.len];
  }
}
