/**
  The growable NUL-terminated buffer (src/strbuf.c), on an array, and the in-place unescaping of
  src/config/config-key.c. `Text` is the string the buffer holds.
 */
module StrBufs {
  import opened Text
  import opened KeyLanguage
  import opened Wrappers

  const BUFF_SLOP: nat := 64

  /** What C sees of a byte string: everything before the first NUL. */
  function UpToNul(s: string): string {
    var n := IndexOf(s, '\0');
    if n < 0 then s else s[..n]
  }

  /** `s` without the `n` characters from position `pos` on, as far as there are any. */
  function Removed(s: string, pos: nat, n: nat): string {
    if pos >= |s| then s
    else if pos + n > |s| then s[..pos]
    else s[..pos] + s[pos + n..]
  }

  lemma NothingStripped()
    ensures StripRight("") == ""
  {
  }

  /** Put NULs over the first `n` characters. */
  method Fill(a: array<char>, n: nat)
    requires n < a.Length
    modifies a
    ensures (forall i | 0 <= i < n :: a[i] == '\0') && a[n] == old(a[n])
  {
    for index := 0 to n
      invariant a[n] == old(a[n]) && forall i | 0 <= i < index :: a[i] == '\0'
    {
      a[index] := '\0';
    }
  }

  /** Copy the text from `leading` on to the front; it ends at a NUL, at position `n`. */
  method CopyDown(a: array<char>, leading: nat, n: nat) returns (index: nat)
    requires 0 < leading <= n < a.Length && a[n] == '\0' && forall i | 0 <= i < n :: a[i] != '\0'
    modifies a
    ensures index == n - leading && a[..index] == old(a[leading..n])
  {
    var from := leading;
    index := 0;
    while from < a.Length && a[from] != '\0'
      invariant index + leading == from <= n
      invariant forall i | from <= i < a.Length :: a[i] == old(a[i])
      invariant a[..index] == old(a[leading..from])
    {
      a[index] := a[from];
      assert a[..index + 1] == a[..index] + [a[index]];
      index, from := index + 1, from + 1;
    }
  }

  class StrBuf {
    var buff: array<char>
    var len: nat
    var alloc: nat

    ghost predicate Valid()
      reads this, buff
    {
      && buff.Length == alloc
      && len < alloc
      && buff[len] == '\0'
      && '\0' !in buff[..len]
    }

    ghost function Text(): string
      requires Valid()
      reads this, buff
    {
      buff[..len]
    }

    constructor ()
      ensures Valid() && fresh(buff) && Text() == ""
    {
      buff := new char[BUFF_SLOP](_ => '\0');
      len, alloc := 0, BUFF_SLOP;
    }

    /** Make room for at least `size` bytes; the bytes already there stay. */
    method Grow(size: nat)
      requires size > 0 && buff.Length == alloc
      modifies this`buff, this`alloc
      ensures buff.Length == alloc && (fresh(buff) || buff == old(buff))
      ensures alloc == if size - 1 < old(alloc) then old(alloc) else size
      ensures forall i | 0 <= i < old(alloc) :: buff[i] == old(buff[i])
    {
      if size - 1 < alloc {
        return;
      }
      var bigger := new char[size];
      forall i | 0 <= i < alloc {
        bigger[i] := buff[i];
      }
      buff, alloc := bigger, size;
    }

    method Attach(str: string)
      requires Valid()
      modifies this, buff
      ensures Valid() && (fresh(buff) || buff == old(buff))
      ensures Text() == old(Text()) + UpToNul(str)
      ensures alloc >= old(alloc)
    {
      var eos := IndexOf(str, '\0');
      var strLen := if eos < 0 then |str| else eos;
      if len + strLen + 1 >= alloc {
        Grow(alloc + |str| + BUFF_SLOP);
      }
      assert str[..strLen] == UpToNul(str) && buff[..len] == old(Text());
      Copy(str[..strLen]);
      len := len + strLen;
    }

    /** Put a string and a NUL behind the text. */
    method Copy(str: string)
      requires buff.Length == alloc && len + |str| < alloc
      modifies buff
      ensures buff[..len + |str|] == old(buff[..len]) + str && buff[len + |str|] == '\0'
    {
      forall i | 0 <= i < |str| {
        buff[len + i] := str[i];
      }
      buff[len + |str|] := '\0';
    }

    /** The first step of `Trim`: count the white space in front. */
    method LeadingSpace() returns (leading: nat)
      requires Valid()
      ensures leading <= len && StripLeft(Text()) == Text()[leading..]
    {
      leading := 0;
      assert Text()[0..] == Text();
      while leading < alloc && IsSpace(buff[leading])
        invariant leading <= len
        invariant StripLeft(Text()[leading..]) == StripLeft(Text())
      {
        assert Text()[leading..][1..] == Text()[leading + 1..];
        leading := leading + 1;
      }
    }

    /** The second step of `Trim`: move the text from `leading` on, and its NUL, to the front. */
    method ShiftDown(leading: nat) returns (index: nat)
      requires Valid() && 0 < leading < len
      modifies buff
      ensures index == len - leading && buff[..index] == old(buff[leading..len]) && buff[index] == '\0'
    {
      assert forall i | 0 <= i < len :: buff[..len][i] == buff[i];
      index := CopyDown(buff, leading, len);
      buff[index] := '\0';
    }

    /** The last step of `Trim`: overwrite the white space at the end of the first `end` bytes with NULs. */
    method DropTrailing(end: nat) returns (index: nat)
      requires buff.Length == alloc && 0 < end < alloc && !IsSpace(buff[0]) && buff[end] == '\0'
      modifies buff
      ensures index < end && buff[..index + 1] == StripRight(old(buff[..end])) && buff[index + 1] == '\0'
    {
      ghost var text := buff[..end];
      index := end - 1;
      assert text[..index + 1] == text;
      while IsSpace(buff[index])
        invariant index < end
        invariant forall i | 0 <= i <= index :: buff[i] == text[i]
        invariant buff[index + 1] == '\0'
        invariant StripRight(text[..index + 1]) == StripRight(text)
        decreases index
      {
        assert text[..index + 1][..index] == text[..index];
        buff[index] := '\0';
        index := index - 1;
      }
      assert buff[..index + 1] == text[..index + 1];
    }

    /** Remove leading and trailing white space; returns how many characters were removed. */
    method Trim() returns (charsTrimmed: nat)
      requires Valid()
      modifies this`len, buff
      ensures Valid() && Text() == Strip(old(Text()))
      ensures charsTrimmed == |old(Text())| - |Text()|
    {
      hide StripLeft, StripRight;
      ghost var text := Text();
      var leading := LeadingSpace();
      charsTrimmed := leading;
      assert leading < len ==> buff[leading] == text[leading] && text[leading] in text;
      if leading >= alloc || buff[leading] == '\0' {
        Fill(buff, leading);
        len := len - charsTrimmed;
        assert StripRight("") == "" by {
          NothingStripped();
        }
        return;
      }
      var index := len;
      if leading != 0 {
        index := ShiftDown(leading);
      }
      assert buff[..index] == text[leading..];
      assert !IsSpace(buff[0]) by {
        assert text[leading..] == StripLeft(text);
        assert buff[0] == buff[..index][0];
      }
      var last := DropTrailing(index);
      charsTrimmed := charsTrimmed + (index - 1 - last);
      len := len - charsTrimmed;
    }

    method Remove(pos: nat, n: nat)
      requires Valid()
      modifies this`len, buff
      ensures Valid() && Text() == Removed(old(Text()), pos, n)
    {
      if pos >= len || n == 0 {
        assert n == 0 && pos < len ==> Removed(Text(), pos, n) == Text();
        return;
      }
      ghost var text := Text();
      if pos + n > len {
        len := pos;
      } else {
        var partition := len - (pos + n);
        forall i | 0 <= i < partition {
          buff[pos + i] := buff[pos + n + i];
        }
        assert buff[..pos + partition] == text[..pos] + text[pos + n..];
        len := pos + partition;
      }
      buff[len] := '\0';
      assert buff[..len] == Removed(text, pos, n);
    }

    method Clear()
      requires Valid()
      modifies this`len, buff
      ensures Valid() && Text() == ""
    {
      len := 0;
      buff[0] := '\0';
    }
  }

  /** What unescaping in place makes of a text, or none if it steps over the end of the buffer. */
  function Unescaped(s: string): Option<string> {
    if Dangles(s) then None else Some(Unescape(s))
  }

  /** What is left to do at position `e` of a text being unescaped in place. */
  ghost function Unescaping(s: string, e: nat): Option<string> {
    if e > |s| then None
    else match Unescaped(s[e..])
      case None => None
      case Some(u) => Some(s[..e] + u)
  }

  /**
    Drop every backslash that is not itself escaped, keeping the character after it. If there is no such
    character, the search goes on behind the end of the buffer: `overran`.
   */
  method UnescapeBuffer(b: StrBuf) returns (overran: bool)
    requires b.Valid()
    modifies b`len, b.buff
    ensures b.Valid() && overran == Dangles(old(b.Text()))
    ensures !overran ==> b.Text() == Unescape(old(b.Text()))
  {
    hide Dangles, Unescape;
    ghost var text := b.Text();
    var escape, more := 0, true;
    overran := false;
    UnescapingStart(text);
    while more
      invariant b.Valid() && 0 <= escape && (more ==> escape <= b.len)
      invariant if overran then Unescaped(text) == None
                else if more then Unescaping(b.Text(), escape) == Unescaped(text)
                else Some(b.Text()) == Unescaped(text)
      invariant overran ==> !more
      decreases more, b.len - escape
    {
      more, escape := UnescapeNext(b, escape);
      if more && escape > b.len {
        more, overran := false, true;
      }
    }
  }

  /**
    One round of the loop above: drop the next backslash, if any, and step over the character it escapes,
    whether there is one or not.
   */
  method UnescapeNext(b: StrBuf, escape: nat) returns (found: bool, next: nat)
    requires b.Valid() && escape <= b.len
    modifies b`len, b.buff
    ensures b.Valid()
    ensures !found ==> Unescaping(old(b.Text()), escape) == Some(b.Text())
    ensures found ==> Unescaping(b.Text(), next) == Unescaping(old(b.Text()), escape)
    ensures found ==> b.len - next < old(b.len) - escape
  {
    hide Unescaping;
    var i := IndexOf(b.buff[escape..b.len], '\\');
    assert b.buff[escape..b.len] == b.Text()[escape..];
    if i < 0 {
      UnescapingDone(b.Text(), escape);
      return false, escape;
    }
    UnescapingStep(b.Text(), escape, i);
    b.Remove(escape + i, 1);
    return true, escape + i + 1;
  }

  lemma UnescapingStart(s: string)
    ensures Unescaping(s, 0) == Unescaped(s)
  {
    assert s[0..] == s;
    assert Unescaped(s).Some? ==> s[..0] + Unescaped(s).value == Unescaped(s).value;
  }

  lemma UnescapingDone(s: string, e: nat)
    requires e <= |s| && '\\' !in s[e..]
    ensures Unescaping(s, e) == Some(s)
  {
    UnescapeNothing(s[e..]);
    assert s == s[..e] + s[e..];
  }

  /** Text without backslashes is passed over. */
  lemma {:induction false} UnescapePast(a: string, t: string)
    requires '\\' !in a
    ensures Unescape(a + t) == a + Unescape(t) && Dangles(a + t) == Dangles(t)
  {
    if a == "" {
      assert a + t == t;
    } else {
      assert (a + t)[0] == a[0] && (a + t)[1..] == a[1..] + t;
      UnescapePast(a[1..], t);
      assert [a[0]] + (a[1..] + Unescape(t)) == a + Unescape(t);
    }
  }

  lemma UnescapeAt(s: string, i: nat)
    requires i < |s| && '\\' !in s[..i] && s[i] == '\\'
    ensures Dangles(s) == (i + 1 == |s| || Dangles(s[i + 2..]))
    ensures Unescape(s) == s[..i] + (if i + 1 == |s| then "" else [s[i + 1]] + Unescape(s[i + 2..]))
  {
    var t := s[i..];
    UnescapePast(s[..i], t);
    assert s[..i] + t == s && t[0] == s[i];
    if i + 1 < |s| {
      assert t[1] == s[i + 1] && t[2..] == s[i + 2..];
    }
  }

  lemma UnescapingStep(s: string, e: nat, found: nat)
    requires e + found < |s| && s[e + found] == '\\' && '\\' !in s[e..][..found]
    ensures Unescaping(Removed(s, e + found, 1), e + found + 1) == Unescaping(s, e)
  {
    hide Dangles, Unescape;
    UnescapeAt(s[e..], found);
    var p := e + found;
    assert s[..e] + s[e..][..found] == s[..p];
    if p + 1 < |s| {
      var u := Unescape(s[p + 2..]);
      assert Removed(s, p, 1)[p + 1..] == s[p + 2..] == s[e..][found + 2..];
      assert Removed(s, p, 1)[..p + 1] == s[..p] + [s[p + 1]];
      Regroup(s[..e], s[e..][..found], [s[p + 1]], u);
    }
  }

  lemma Regroup(a: string, b: string, c: string, d: string)
    ensures a + (b + (c + d)) == a + b + c + d
  {
  }
}
