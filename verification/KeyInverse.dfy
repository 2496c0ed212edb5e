/** How isolating and merging keys undo each other (src/config/config-key.c). */
module KeyInverses {
  import opened Wrappers
  import opened Text
  import opened KeyLanguage

  // ---------- scanning does not depend on what stands around ----------

  /** A position in `k` seen in `p + k`; -1 stays -1. */
  function Shift(r: int, d: nat): int {
    if r < 0 then -1 else r + d
  }

  lemma {:induction false} CloseQuoteAfter(p: string, k: string, i: nat)
    requires i <= |k|
    ensures CloseQuote(p + k, |p| + i) == Shift(CloseQuote(k, i), |p|)
    decreases |k| - i
  {
    if i < |k| {
      assert (p + k)[|p| + i] == k[i];
      if i + 1 < |k| {
        CloseQuoteAfter(p, k, i + 2);
      }
      CloseQuoteAfter(p, k, i + 1);
    }
  }

  lemma {:induction false} WordEndAfter(p: string, k: string, i: nat)
    requires i <= |k|
    ensures WordEnd(p + k, |p| + i) == Shift(WordEnd(k, i), |p|)
    decreases |k| - i
  {
    if i < |k| {
      assert (p + k)[|p| + i] == k[i];
      WordEndAfter(p, k, i + 1);
    }
  }

  lemma ComponentEndAfter(p: string, k: string, i: nat)
    requires i <= |k|
    ensures ComponentEnd(p + k, |p| + i) == Shift(ComponentEnd(k, i), |p|)
  {
    if i < |k| {
      assert (p + k)[|p| + i] == k[i];
      CloseQuoteAfter(p, k, i + 1);
      WordEndAfter(p, k, i);
    }
  }

  lemma SliceAfter(p: string, k: string, i: nat, j: nat)
    requires i <= j <= |k|
    ensures (p + k)[|p| + i..|p| + j] == k[i..j]
  {
  }

  lemma {:induction false} ComponentsAfter(p: string, k: string, i: nat)
    requires i <= |k|
    ensures Components(p + k, |p| + i) == Components(k, i)
    decreases |k| - i
  {
    hide ComponentEnd;
    ComponentEndAfter(p, k, i);
    var e := ComponentEnd(k, i);
    if e > i {
      SliceAfter(p, k, i, e);
      if e < |k| {
        ComponentsAfter(p, k, e + 1);
      }
    }
  }

  lemma {:induction false} CloseQuoteBefore(s: string, t: string, i: nat)
    requires i <= |s| && CloseQuote(s, i) >= 0
    ensures CloseQuote(s + t, i) == CloseQuote(s, i)
    decreases |s| - i
  {
    if s[i] == '"' {
    } else if s[i] == '\\' {
      CloseQuoteBefore(s, t, i + 2);
    } else {
      CloseQuoteBefore(s, t, i + 1);
    }
  }

  lemma {:induction false} WordEndBefore(s: string, t: string, i: nat)
    requires i <= |s| && WordEnd(s, i) >= 0 && t != "" && t[0] == '.'
    ensures WordEnd(s + t, i) == WordEnd(s, i)
    decreases |s| - i
  {
    if i < |s| && s[i] != '.' {
      WordEndBefore(s, t, i + 1);
    }
  }

  /** A component keeps its end whatever follows the key, if that starts with a period. */
  lemma ComponentEndBefore(s: string, t: string, i: nat)
    requires i <= |s| && ComponentEnd(s, i) >= 0 && t != "" && t[0] == '.'
    ensures ComponentEnd(s + t, i) == ComponentEnd(s, i)
  {
    if s[i] == '"' {
      CloseQuoteBefore(s, t, i + 1);
    } else {
      WordEndBefore(s, t, i);
    }
  }

  /** Joining two keys with a period joins their component lists. */
  lemma {:induction false} ComponentsConcat(k1: string, k2: string, i: nat)
    requires i <= |k1| && Components(k1, i).Some?
    ensures Components(k1 + "." + k2, i) ==
            if ValidKey(k2) then Some(Components(k1, i).value + Components(k2, 0).value) else None
    decreases |k1| - i
  {
    hide ComponentEnd;
    var e := ComponentEnd(k1, i);
    DottedEnd(k1, k2, i);
    if e == |k1| {
      ComponentsAfter(k1 + ".", k2, 0);
    } else {
      ComponentsConcat(k1, k2, e + 1);
      if ValidKey(k2) {
        SeqAssoc([k1[i..e]], Components(k1, e + 1).value, Components(k2, 0).value);
      }
    }
  }

  lemma DottedEnd(k1: string, k2: string, i: nat)
    requires i <= |k1| && ComponentEnd(k1, i) > i
    ensures var e, k := ComponentEnd(k1, i), k1 + "." + k2;
            ComponentEnd(k, i) == e && k[i..e] == k1[i..e] && k[e] == '.' && |k1| < |k|
  {
    assert k1 + "." + k2 == k1 + ("." + k2);
    ComponentEndBefore(k1, "." + k2, i);
  }

  lemma SeqAssoc<T>(a: seq<T>, b: seq<T>, c: seq<T>)
    ensures a + (b + c) == a + b + c
  {
  }

  lemma IsolateConcat(k1: string, k2: string)
    requires ValidKey(k1)
    ensures Isolate(k1 + "." + k2) ==
            if ValidKey(k2) then Some(Isolate(k1).value + Isolate(k2).value) else None
  {
    ComponentsConcat(k1, k2, 0);
    if ValidKey(k2) {
      DecodeAllConcat(Components(k1, 0).value, Components(k2, 0).value);
    }
  }

  // ---------- the two directions are inverse ----------

  lemma {:induction false} CloseQuoteOfEscaped(s: string, t: string)
    ensures CloseQuote(EscapeBody(s) + "\"" + t, 0) == if Printable(s) then |EscapeBody(s)| else -1
  {
    if s == "" {
      assert EscapeBody(s) + "\"" + t == "\"" + t;
    } else {
      var h, r := EscapeChar(s[0]), EscapeBody(s[1..]) + "\"" + t;
      assert EscapeBody(s) + "\"" + t == h + r;
      assert s == [s[0]] + s[1..];
      assert Printable(s) <==> IsPrint(s[0]) && Printable(s[1..]);
      CloseQuoteAfter(h, r, 0);
      CloseQuoteOfEscaped(s[1..], t);
    }
  }

  lemma {:induction false} WordEndOfWord(s: string, t: string, i: nat)
    requires AllWord(s) && i <= |s| && (t == "" || t[0] == '.')
    ensures WordEnd(s + t, i) == |s|
    decreases |s| - i
  {
    if i < |s| {
      WordEndOfWord(s, t, i + 1);
    }
  }

  lemma QuotedEnd(body: string, t: string)
    requires t == "" || t[0] == '.'
    requires CloseQuote(body + "\"" + t, 0) in {-1, |body|}
    ensures ComponentEnd("\"" + body + "\"" + t, 0) == if CloseQuote(body + "\"" + t, 0) < 0 then -1 else |body| + 2
  {
    var r := body + "\"" + t;
    CloseQuoteAfter("\"", r, 0);
    assert "\"" + body + "\"" + t == "\"" + r;
  }

  /** The scanner finds the end of an escaped component exactly if the component is printable. */
  lemma ComponentOfEscaped(c: string, t: string)
    requires t == "" || t[0] == '.'
    requires c + t != ""
    ensures ComponentEnd(Escape(c) + t, 0) == if Printable(c) then |Escape(c)| else -1
  {
    if AllWord(c) {
      WordEndOfWord(c, t, 0);
    } else {
      CloseQuoteOfEscaped(c, t);
      QuotedEnd(EscapeBody(c), t);
    }
  }

  lemma DecodeEscape(c: string)
    ensures Decode(Escape(c)) == c
  {
    if AllWord(c) {
      UnescapeNothing(c);
    } else {
      UnescapeEscapeBody(c);
      assert Escape(c)[1..|Escape(c)| - 1] == EscapeBody(c);
    }
  }

  lemma IsolateOne(c: string)
    ensures Isolate(Escape(c)) == if Good(c) then Some([c]) else None
  {
    var e := Escape(c);
    if c != "" {
      DecodeEscape(c);
      ComponentOfEscaped(c, "");
      assert e + "" == e && e[0..|e|] == e;
      assert DecodeAll([e]) == [Decode(e)];
    }
  }

  lemma IsolateCons(c: string, k: string)
    ensures Isolate(Escape(c) + "." + k) ==
            if Good(c) && ValidKey(k) then Some([c] + Isolate(k).value) else None
  {
    IsolateOne(c);
    if Good(c) {
      IsolateConcat(Escape(c), k);
    } else {
      ComponentOfEscaped(c, "." + k);
      assert Escape(c) + "." + k == Escape(c) + ("." + k);
    }
  }

  /** Writing components and isolating them again gives the components, and works exactly if all are good. */
  lemma {:induction false} IsolateJoin(cs: seq<string>)
    requires cs != []
    ensures Isolate(Join(cs)) == if AllGood(cs) then Some(cs) else None
    decreases |cs|
  {
    assert cs == [cs[0]] + cs[1..];
    if |cs| == 1 {
      assert cs == [cs[0]];
      IsolateOne(cs[0]);
    } else {
      IsolateCons(cs[0], Join(cs[1..]));
      IsolateJoin(cs[1..]);
    }
  }

  /** `merge` succeeds exactly on non-empty lists of good components, and then `isolate` undoes it. */
  lemma MergeIsolate(cs: seq<string>)
    ensures Merge(cs).Some? <==> cs != [] && AllGood(cs)
    ensures Merge(cs).Some? ==> Isolate(Merge(cs).value) == Some(cs)
  {
    if cs != [] {
      IsolateJoin(cs);
    }
  }

  /** Isolating and merging gives a normal form that means the same and is stable. */
  lemma NormalForm(key: string)
    requires ValidKey(key) && AllGood(Isolate(key).value)
    ensures Merge(Isolate(key).value).Some?
    ensures var n := Merge(Isolate(key).value).value;
            Isolate(n) == Isolate(key) && Merge(Isolate(n).value) == Some(n)
  {
    MergeIsolate(Isolate(key).value);
  }

  lemma DottedAssoc(a: string, b: string, c: string)
    ensures a + "." + (b + "." + c) == a + "." + b + "." + c
  {
  }

  lemma {:induction false} JoinSnoc(cs: seq<string>, c: string)
    requires cs != []
    ensures Join(cs + [c]) == Join(cs) + "." + Escape(c)
    decreases |cs|
  {
    assert (cs + [c])[1..] == cs[1..] + [c];
    if |cs| > 1 {
      JoinSnoc(cs[1..], c);
      DottedAssoc(Escape(cs[0]), Join(cs[1..]), Escape(c));
    }
  }

  /** A joined key is printable and has no white space at its ends. */
  lemma {:induction false} JoinPrintable(cs: seq<string>)
    requires cs != [] && AllGood(cs)
    ensures Printable(Join(cs)) && Tight(Join(cs)) && Join(cs) != ""
    decreases |cs|
  {
    EscapePrintable(cs[0]);
    EscapeTight(cs[0]);
    if |cs| > 1 {
      JoinPrintable(cs[1..]);
      assert Join(cs)[0] == Escape(cs[0])[0];
    }
  }

}
