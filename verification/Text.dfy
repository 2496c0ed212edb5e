/**
  Bytes and byte strings. A `char` stands for one byte; the classes below are those of the C locale,
  so bytes above 0x7e are neither printable, nor alphanumeric, nor blank.
 */
module Text {

  predicate IsSpace(c: char) {
    c == ' ' || '\t' <= c <= '\r'
  }

  predicate IsPrint(c: char) {
    ' ' <= c <= '~'
  }

  predicate IsWord(c: char) {
    'a' <= c <= 'z' || 'A' <= c <= 'Z' || '0' <= c <= '9' || c == '_'
  }

  predicate IsQuote(c: char) {
    c == '\'' || c == '"'
  }

  const BLANKS := " \t\n\U{b}\U{c}\r"
  const LOWER := "abcdefghijklmnopqrstuvwxyz"
  const UPPER := "ABCDEFGHIJKLMNOPQRSTUVWXYZ"
  const DIGITS := "0123456789"
  const SIGNS := "!\"#$%&'()*+,-./"
  const MORE_SIGNS := ":;<=>?@[\\]^_`{|}~"

  /** The classes of the C locale, character by character. */
  lemma Classes(c: char)
    ensures IsSpace(c) <==> c in BLANKS
    ensures IsWord(c) <==> c in LOWER || c in UPPER || c in DIGITS || c == '_'
    ensures IsPrint(c) <==> c in LOWER || c in UPPER || c in DIGITS || c in SIGNS || c in MORE_SIGNS || c == ' '
  {
  }

  /** No NUL inside, as in every C string. */
  predicate CString(s: string) {
    '\0' !in s
  }

  predicate Printable(s: string) {
    forall i | 0 <= i < |s| :: IsPrint(s[i])
  }

  predicate AllWord(s: string) {
    forall i | 0 <= i < |s| :: IsWord(s[i])
  }

  predicate AllSpace(s: string) {
    forall i | 0 <= i < |s| :: IsSpace(s[i])
  }

  /** True if neither end of `s` is white space; the empty string qualifies. */
  predicate Tight(s: string) {
    s == "" || (!IsSpace(s[0]) && !IsSpace(s[|s| - 1]))
  }

  function StripLeft(s: string): (r: string)
    ensures r == "" || !IsSpace(r[0])
  {
    if s != "" && IsSpace(s[0]) then StripLeft(s[1..]) else s
  }

  function StripRight(s: string): (r: string)
    ensures r <= s
    ensures r == "" || !IsSpace(r[|r| - 1])
  {
    if s != "" && IsSpace(s[|s| - 1]) then StripRight(s[..|s| - 1]) else s
  }

  /** The string without its leading and trailing white space. */
  function Strip(s: string): string {
    StripRight(StripLeft(s))
  }

  lemma StripLeftSkips(a: string, s: string)
    requires AllSpace(a)
    ensures StripLeft(a + s) == StripLeft(s)
  {
    if a == "" {
      assert a + s == s;
    } else {
      assert (a + s)[1..] == a[1..] + s;
      StripLeftSkips(a[1..], s);
    }
  }

  lemma StripRightSkips(s: string, b: string)
    requires AllSpace(b)
    ensures StripRight(s + b) == StripRight(s)
  {
    if b == "" {
      assert s + b == s;
    } else {
      assert (s + b)[..|s + b| - 1] == s + b[..|b| - 1];
      StripRightSkips(s, b[..|b| - 1]);
    }
  }

  /** Stripping is the unique way to split off white space so that a tight middle is left. */
  lemma StripMiddle(a: string, m: string, b: string)
    requires AllSpace(a) && AllSpace(b) && Tight(m)
    ensures Strip(a + m + b) == m
  {
    assert a + m + b == a + (m + b);
    StripLeftSkips(a, m + b);
    if m == "" {
      assert m + b == b + "";
      StripLeftSkips(b, "");
    } else {
      StripRightSkips(m, b);
    }
  }

  lemma StripLeftSplits(s: string) returns (a: string)
    ensures AllSpace(a) && s == a + StripLeft(s)
  {
    if s != "" && IsSpace(s[0]) {
      var a' := StripLeftSplits(s[1..]);
      a := [s[0]] + a';
      assert s == [s[0]] + s[1..];
    } else {
      a := "";
    }
  }

  lemma StripRightSplits(s: string) returns (b: string)
    ensures AllSpace(b) && s == StripRight(s) + b
  {
    if s != "" && IsSpace(s[|s| - 1]) {
      var b' := StripRightSplits(s[..|s| - 1]);
      b := b' + [s[|s| - 1]];
      assert s == s[..|s| - 1] + [s[|s| - 1]];
    } else {
      b := "";
    }
  }

  /** What stripping leaves is tight and sits between two runs of white space. */
  lemma StripSplits(s: string) returns (a: string, b: string)
    ensures AllSpace(a) && AllSpace(b) && Tight(Strip(s)) && s == a + Strip(s) + b
  {
    a := StripLeftSplits(s);
    b := StripRightSplits(StripLeft(s));
    assert s == a + (Strip(s) + b);
  }

  lemma StripTight(s: string)
    ensures Tight(Strip(s)) && Strip(Strip(s)) == Strip(s)
  {
    var a, b := StripSplits(s);
    StripMiddle("", Strip(s), "");
    assert "" + Strip(s) + "" == Strip(s);
  }

  lemma TightStrip(s: string)
    requires Tight(s)
    ensures Strip(s) == s
  {
    StripMiddle("", s, "");
    assert "" + s + "" == s;
  }

  /** Index of the first `c` in `s`, or -1. */
  function IndexOf(s: string, c: char): (r: int)
    ensures -1 <= r < |s|
    ensures r >= 0 ==> s[r] == c && c !in s[..r]
    ensures r < 0 ==> c !in s
  {
    if s == "" then -1
    else if s[0] == c then 0
    else
      var r := IndexOf(s[1..], c);
      if r < 0 then -1 else
        assert s[..r + 1] == [s[0]] + s[1..][..r];
        r + 1
  }

  lemma {:induction false} IndexOfPrefix(a: string, c: char, b: string)
    requires c !in a
    ensures IndexOf(a + [c] + b, c) == |a|
  {
    if a != "" {
      assert (a + [c] + b)[1..] == a[1..] + [c] + b;
      IndexOfPrefix(a[1..], c, b);
    }
  }
}
