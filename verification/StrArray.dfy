/**
  The growable array of strings (src/str-array.c). Each entry has a string, or NULL, and a data pointer,
  or NULL; a NULL entry follows the last one.
 */
module StrArrays {
  import opened Wrappers

  const SLOP: nat := 8

  /** A pointer to data that belongs to an entry. */
  type Data = nat

  datatype Slot = Slot(text: Option<string>, data: Option<Data>)

  const NULL_SLOT := Slot(None, None)

  function Plain(s: string): Slot {
    Slot(Some(s), None)
  }

  /** `s` with `x` at position `pos`, or at the end if there is no such position. */
  function Inserted<T>(s: seq<T>, x: T, pos: nat): seq<T> {
    if pos < |s| then s[..pos] + [x] + s[pos..] else s + [x]
  }

  /** `s` without the elements from `pos` on, `n` at most. */
  function Without<T>(s: seq<T>, pos: nat, n: nat): seq<T> {
    if pos >= |s| then s else if pos + n >= |s| then s[..pos] else s[..pos] + s[pos + n..]
  }

  function Reversed<T>(s: seq<T>): (r: seq<T>)
    ensures |r| == |s| && forall i | 0 <= i < |s| :: r[i] == s[|s| - 1 - i]
  {
    seq(|s|, i requires 0 <= i < |s| => s[|s| - 1 - i])
  }

  function Plains(ss: seq<string>): (r: seq<Slot>)
    ensures |r| == |ss| && forall i | 0 <= i < |ss| :: r[i] == Plain(ss[i])
  {
    seq(|ss|, i requires 0 <= i < |ss| => Plain(ss[i]))
  }

  lemma InsertedSplit<T>(s: seq<T>, t: seq<T>, at: nat)
    requires at <= |s| && |t| == |s| + 1 && t[..at] == s[..at] && t[at + 1..] == s[at..]
    ensures t == Inserted(s, t[at], at)
  {
    assert t == t[..at] + [t[at]] + t[at + 1..];
  }

  lemma DeleteOneMore<T>(s: seq<T>, pos: nat, i: nat)
    requires pos < |Without(s, pos, i)|
    ensures Without(Without(s, pos, i), pos, 1) == Without(s, pos, i + 1)
    ensures |Without(s, pos, i + 1)| == |Without(s, pos, i)| - 1
  {
    var w := Without(s, pos, i);
    assert w[..pos] == s[..pos] && w[pos + 1..] == s[pos + i + 1..];
  }

  lemma DeleteEnds<T>(s: seq<T>, pos: nat, i: nat, n: nat)
    ensures Without(s, pos, 0) == s
    ensures i <= n && |Without(s, pos, i)| <= pos ==> Without(s, pos, i) == Without(s, pos, n)
  {
  }

  lemma PlainsSnoc(was: seq<Slot>, args: seq<string>, n: nat)
    requires n < |args|
    ensures was + Plains(args[..n]) + [Plain(args[n])] == was + Plains(args[..n + 1])
  {
  }

  lemma PlainsConcat(a: seq<string>, b: seq<string>)
    ensures Plains(a + b) == Plains(a) + Plains(b)
  {
  }

  lemma PlainsInserted(s: seq<string>, x: string, pos: nat)
    ensures Plains(Inserted(s, x, pos)) == Inserted(Plains(s), Plain(x), pos)
  {
  }

  class StrArray {
    var entries: array<Slot>
    var len: nat
    var alloc: nat

    /** There is room for the entries, and a NULL entry follows them unless nothing was ever allocated. */
    ghost predicate Valid()
      reads this, entries
    {
      && entries.Length == alloc
      && (if alloc == 0 then len == 0 else len < alloc && entries[len] == NULL_SLOT)
    }

    ghost function Contents(): seq<Slot>
      requires Valid()
      reads this, entries
    {
      entries[..len]
    }

    constructor ()
      ensures Valid() && fresh(entries) && Contents() == []
    {
      entries := new Slot[0](_ => NULL_SLOT);
      len, alloc := 0, 0;
    }

    /** `str_array_grow`: more room with the same entries. New room is not cleared. */
    method Grow(size: nat)
      requires size > alloc == entries.Length >= len
      modifies this`entries, this`alloc
      ensures entries.Length == alloc == size && fresh(entries) && entries[..old(alloc)] == old(entries[..])
    {
      var grown := new Slot[size](_ => NULL_SLOT);
      forall i | 0 <= i < alloc {
        grown[i] := entries[i];
      }
      entries, alloc := grown, size;
    }

    /** Room for one more entry and the NULL entry after it. */
    method MakeRoom()
      requires Valid()
      modifies this`entries, this`alloc
      ensures entries.Length == alloc && len + 2 < alloc + 1 && alloc >= old(alloc)
      ensures fresh(entries) || entries == old(entries)
      ensures entries[..len] == old(Contents())
    {
      if len + 2 >= alloc {
        Grow(alloc + SLOP);
        assert entries[..len] == entries[..old(alloc)][..len];
      }
    }

    /** `str_array_vpush` */
    method Push(args: seq<string>) returns (newStrings: nat)
      requires Valid()
      modifies this, entries
      ensures Valid() && (fresh(entries) || entries == old(entries)) && alloc >= old(alloc)
      ensures Contents() == old(Contents()) + Plains(args) && newStrings == |args|
    {
      newStrings := 0;
      ghost var was := Contents();
      assert Contents() == was + Plains([]);
      while newStrings < |args|
        invariant Valid() && (fresh(entries) || entries == old(entries)) && alloc >= old(alloc)
        invariant newStrings <= |args| && Contents() == was + Plains(args[..newStrings])
      {
        PushOne(args[newStrings]);
        PlainsSnoc(was, args, newStrings);
        newStrings := newStrings + 1;
      }
      assert args[..|args|] == args;
    }

    method PushOne(arg: string)
      requires Valid()
      modifies this, entries
      ensures Valid() && (fresh(entries) || entries == old(entries)) && alloc >= old(alloc)
      ensures Contents() == old(Contents()) + [Plain(arg)]
    {
      MakeRoom();
      entries[len] := Plain(arg);
      entries[len + 1] := NULL_SLOT;
      len := len + 1;
    }

    /** `str_array_insert_nodup`: shift the entries from `pos` on to make place. */
    method InsertSlot(text: Option<string>, pos: nat)
      requires Valid()
      modifies this, entries
      ensures Valid() && (fresh(entries) || entries == old(entries)) && alloc >= old(alloc)
      ensures Contents() == Inserted(old(Contents()), Slot(text, None), pos)
    {
      ghost var was := Contents();
      var at := OpenGap(pos);
      entries[at] := Slot(text, None);
      len := len + 1;
      assert entries[..len][..at] == was[..at] && entries[..len][at + 1..] == was[at..];
      InsertedSplit(was, entries[..len], at);
    }

    method OpenGap(pos: nat) returns (at: nat)
      requires Valid()
      modifies this`entries, this`alloc, entries
      ensures at == (if pos < len then pos else len)
      ensures (fresh(entries) || entries == old(entries)) && alloc >= old(alloc)
      ensures entries.Length == alloc && len + 1 < alloc && entries[len + 1] == NULL_SLOT
      ensures entries[..at] == old(Contents())[..at] && entries[at + 1..len + 1] == old(Contents())[at..]
    {
      MakeRoom();
      entries[len + 1] := NULL_SLOT;
      at := len;
      assert entries[..len] == old(Contents());
      if pos < len {
        ShiftUp(pos);
        at := pos;
      }
    }

    method ShiftUp(pos: nat)
      requires pos < len && len + 1 < entries.Length
      modifies entries
      ensures entries[..pos] == old(entries[..pos]) && entries[pos + 1..len + 1] == old(entries[pos..len])
      ensures entries[len + 1] == old(entries[len + 1])
    {
      var n, i := len, len;
      while i > pos
        invariant pos <= i <= n
        invariant forall k | 0 <= k <= i || k == n + 1 :: entries[k] == old(entries[k])
        invariant forall k | i < k <= n :: entries[k] == old(entries[k - 1])
      {
        entries[i] := entries[i - 1];
        i := i - 1;
      }
    }

    method Insert(str: string, pos: nat)
      requires Valid()
      modifies this, entries
      ensures Valid() && (fresh(entries) || entries == old(entries)) && alloc >= old(alloc)
      ensures Contents() == Inserted(old(Contents()), Plain(str), pos)
    {
      InsertSlot(Some(str), pos);
    }

    method Set(str: string, pos: nat) returns (status: int)
      requires Valid()
      modifies entries
      ensures Valid() && status == if pos < len then 0 else 1
      ensures Contents() == if pos < len then old(Contents())[pos := Plain(str)] else old(Contents())
    {
      if pos >= len {
        return 1;
      }
      entries[pos] := Plain(str);
      return 0;
    }

    /** `str_array_remove`: shift the later entries down and hand out the string. */
    method Remove(pos: nat) returns (removed: Option<string>)
      requires Valid()
      modifies this`len, entries
      ensures Valid() && Contents() == Without(old(Contents()), pos, 1)
      ensures removed == if pos < old(len) then old(entries[pos].text) else None
    {
      if pos >= len {
        return None;
      }
      ghost var was := Contents();
      removed := entries[pos].text;
      ShiftDown(pos);
      len := len - 1;
      entries[len] := NULL_SLOT;
      assert entries[..len] == entries[..pos] + entries[pos..len];
      assert was[pos + 1..] == old(entries[pos + 1..len]);
    }

    method ShiftDown(pos: nat)
      requires pos < len < entries.Length
      modifies entries
      ensures entries[..pos] == old(entries[..pos]) && entries[pos..len - 1] == old(entries[pos + 1..len])
    {
      var n, i := len, pos;
      while i < n - 1
        invariant pos <= i <= n - 1
        invariant forall k | 0 <= k < pos || i <= k < n :: entries[k] == old(entries[k])
        invariant forall k | pos <= k < i :: entries[k] == old(entries[k + 1])
      {
        entries[i] := entries[i + 1];
        i := i + 1;
      }
    }

    /** `str_array_delete` */
    method Delete(pos: nat, n: nat)
      requires Valid()
      modifies this`len, entries
      ensures Valid() && Contents() == Without(old(Contents()), pos, n)
    {
      hide Without;
      var i := 0;
      DeleteEnds(Contents(), pos, 0, n);
      while i < n && len > pos
        invariant Valid() && i <= n
        invariant Contents() == Without(old(Contents()), pos, i)
      {
        DeleteOneMore(old(Contents()), pos, i);
        var removed := Remove(pos);
        i := i + 1;
      }
      DeleteEnds(old(Contents()), pos, i, n);
    }

    /** `str_array_reverse` */
    method Reverse()
      requires Valid()
      modifies entries
      ensures Valid() && Contents() == Reversed(old(Contents()))
    {
      SwapEnds(len);
      assert entries[..len] == Reversed(old(Contents()));
    }

    /** The loop of `str_array_reverse`. */
    method SwapEnds(n: nat)
      requires n <= entries.Length
      modifies entries
      ensures forall k | 0 <= k < n :: entries[k] == old(entries[n - 1 - k])
      ensures forall k | n <= k < entries.Length :: entries[k] == old(entries[k])
    {
      var i := 0;
      while i < n / 2
        invariant 0 <= i <= n / 2
        invariant forall k | 0 <= k < i :: entries[k] == old(entries[n - 1 - k])
        invariant forall k | n - i <= k < n :: entries[k] == old(entries[n - 1 - k])
        invariant forall k | i <= k < n - i || n <= k < entries.Length :: entries[k] == old(entries[k])
      {
        entries[i], entries[n - 1 - i] := entries[n - 1 - i], entries[i];
        i := i + 1;
      }
    }

    /** `str_array_clear`: the room stays. */
    method Clear()
      requires Valid()
      modifies this`len, entries
      ensures Valid() && Contents() == []
    {
      for i := 0 to len
        invariant unchanged(this)
        invariant forall k | 0 <= k < i :: entries[k] == NULL_SLOT
        invariant alloc > 0 ==> entries[len] == NULL_SLOT
      {
        entries[i] := NULL_SLOT;
      }
      len := 0;
    }

    /** `str_array_detach`: hand out the strings, with a NULL after them, and start over. */
    method Detach() returns (strings: array<Option<string>>)
      requires Valid()
      modifies this, entries
      ensures Valid() && Contents() == [] && alloc == 0 && fresh(strings) && fresh(entries)
      ensures strings.Length == old(len) + 1 && strings[old(len)] == None
      ensures forall i | 0 <= i < old(len) :: strings[i] == old(entries[i].text)
    {
      strings := new Option<string>[len + 1](_ => None);
      for i := 0 to len
        invariant unchanged(this) && fresh(strings) && strings.Length == len + 1
        invariant forall k | 0 <= k < i :: strings[k] == old(entries[k].text)
        invariant forall k | i <= k < len :: entries[k] == old(entries[k])
        invariant strings[len] == None
      {
        strings[i] := entries[i].text;
        entries[i] := NULL_SLOT;
      }
      entries := new Slot[0](_ => NULL_SLOT);
      len, alloc := 0, 0;
    }
  }
}
