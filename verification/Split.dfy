/** Splitting a text at a delimiter (src/strbuf.c) and collapsing strings into a text (src/argv-array.c). */
module Splits {
  import opened Wrappers
  import opened StrArrays

  /** `strstr`: the first position where `d` starts in `s`, or the length of `s` if there is none. */
  function Find(s: string, d: string): (i: nat)
    ensures i <= |s|
    ensures i < |s| && d != "" ==> d <= s[i..]
    ensures forall j | 0 <= j < i :: !(d <= s[j..])
  {
    if s == "" || d <= s then 0
    else
      var i := 1 + Find(s[1..], d);
      assert forall j | 1 <= j <= |s| :: s[j..] == s[1..][j - 1..];
      i
  }

  predicate Contains(s: string, d: string) {
    exists i | 0 <= i <= |s| :: d <= s[i..]
  }

  /** `strbuf_split` with a delimiter that is not empty. */
  function Split(s: string, d: string): (pieces: seq<string>)
    requires d != ""
    ensures pieces != []
    decreases |s|
  {
    var i := Find(s, d);
    if i == |s| then [s] else [s[..i]] + Split(s[i + |d|..], d)
  }

  /** The strings with a delimiter between each two. */
  function Join(pieces: seq<string>, d: string): string {
    if pieces == [] then ""
    else if |pieces| == 1 then pieces[0]
    else pieces[0] + d + Join(pieces[1..], d)
  }

  /** Collapsing the pieces gives the text back. */
  lemma {:induction false} JoinSplit(s: string, d: string)
    requires d != ""
    ensures Join(Split(s, d), d) == s
    decreases |s|
  {
    var i := Find(s, d);
    if i < |s| {
      var tail := s[i + |d|..];
      JoinSplit(tail, d);
      assert Split(s, d)[1..] == Split(tail, d);
      PrefixSplit(s, i, d);
    }
  }

  lemma PrefixSplit(s: string, i: nat, d: string)
    requires i <= |s| && d <= s[i..]
    ensures i + |d| <= |s| && s == s[..i] + d + s[i + |d|..]
  {
    assert s[i..] == d + s[i..][|d|..];
    assert s[i..][|d|..] == s[i + |d|..];
  }

  /** No piece contains the delimiter. */
  lemma {:induction false} SplitClean(s: string, d: string)
    requires d != ""
    ensures forall k | 0 <= k < |Split(s, d)| :: !Contains(Split(s, d)[k], d)
    decreases |s|
  {
    hide Contains, Find;
    var i := Find(s, d);
    BeforeClean(s, i, d);
    if i < |s| {
      SplitClean(s[i + |d|..], d);
    } else {
      assert s[..i] == s;
    }
  }

  lemma BeforeClean(s: string, i: nat, d: string)
    requires d != "" && i <= |s| && forall j | 0 <= j < i :: !(d <= s[j..])
    ensures !Contains(s[..i], d)
  {
    forall j | 0 <= j <= i
      ensures !(d <= s[..i][j..])
    {
      assert s[j..] == s[..i][j..] + s[i..];
    }
  }

  /** For a delimiter of one character, strings without it are the pieces of what they collapse to. */
  lemma {:induction false} SplitJoin(pieces: seq<string>, c: char)
    requires pieces != [] && forall k | 0 <= k < |pieces| :: c !in pieces[k]
    ensures Split(Join(pieces, [c]), [c]) == pieces
  {
    var p := pieces[0];
    if |pieces| == 1 {
      FindChar(p, c, "");
      assert p + "" == p;
    } else {
      var tail := Join(pieces[1..], [c]);
      SplitJoin(pieces[1..], c);
      FindChar(p, c, [c] + tail);
      assert p + [c] + tail == p + ([c] + tail);
      assert (p + ([c] + tail))[..|p|] == p && (p + ([c] + tail))[|p| + 1..] == tail;
      assert pieces == [p] + pieces[1..];
    }
  }

  lemma {:induction false} FindChar(p: string, c: char, t: string)
    requires c !in p && (t == "" || t[0] == c)
    ensures Find(p + t, [c]) == |p|
  {
    if p == "" {
      assert p + t == t;
    } else {
      assert (p + t)[0] == p[0] && (p + t)[1..] == p[1..] + t;
      FindChar(p[1..], c, t);
    }
  }

  // ---------- in place ----------

  /** `strbuf_split`: append the pieces to `result`; without a delimiter the whole text is one piece. */
  method StrbufSplit(text: string, delim: string, result: StrArray) returns (inserted: nat)
    requires result.Valid()
    modifies result, result.entries
    ensures result.Valid() && (fresh(result.entries) || result.entries == old(result.entries))
    ensures var pieces := if delim == "" then [text] else Split(text, delim);
            inserted == |pieces| && result.Contents() == old(result.Contents()) + Plains(pieces)
  {
    if delim == "" {
      var n := result.Push([text]);
      return 1;
    }
    hide Split, Find, Plains;
    inserted := 0;
    ghost var all, done, was := Split(text, delim), [], result.Contents();
    var begin := 0;
    SplitStart(text, delim, was);
    var last := false;
    while !last
      invariant result.Valid() && (fresh(result.entries) || result.entries == old(result.entries))
      invariant begin <= |text| && inserted == |done|
      invariant all == if last then done else done + Split(text[begin..], delim)
      invariant result.Contents() == was + Plains(done)
      decreases if last then 0 else 1 + |text| - begin
    {
      ghost var piece;
      last, begin, piece := SplitNext(text, begin, delim, result, done, was);
      inserted := inserted + 1;
      done := done + [piece];
    }
  }

  /** One round of the loop above. */
  method SplitNext(text: string, begin: nat, delim: string, result: StrArray,
                   ghost done: seq<string>, ghost was: seq<Slot>)
    returns (last: bool, next: nat, ghost piece: string)
    requires delim != "" && begin <= |text| && result.Valid() && result.Contents() == was + Plains(done)
    modifies result, result.entries
    ensures result.Valid() && (fresh(result.entries) || result.entries == old(result.entries))
    ensures result.Contents() == was + Plains(done + [piece])
    ensures next <= |text| && (!last ==> begin < next)
    ensures done + Split(text[begin..], delim) ==
            if last then done + [piece] else done + [piece] + Split(text[next..], delim)
  {
    hide Split, Find, Plains;
    var rest := text[begin..];
    var i := Find(rest, delim);
    piece := rest[..i];
    SplitDef(rest, delim);
    PlainSnoc(was, done, piece);
    assert text[begin..begin + i] == piece;
    result.InsertSlot(Some(text[begin..begin + i]), result.len);
    if begin + i == |text| {
      return true, begin, piece;
    }
    PrefixSplit(rest, i, delim);
    SplitMore(done, piece, Split(rest[i + |delim|..], delim));
    assert rest[i + |delim|..] == text[begin + i + |delim|..];
    return false, begin + i + |delim|, piece;
  }

  lemma SplitDef(s: string, d: string)
    requires d != ""
    ensures var i := Find(s, d);
            Split(s, d) == if i == |s| then [s[..i]] else [s[..i]] + Split(s[i + |d|..], d)
  {
    hide Find;
    assert s[..|s|] == s;
  }

  lemma PlainSnoc(was: seq<Slot>, done: seq<string>, piece: string)
    ensures was + Plains(done) + [Plain(piece)] == was + Plains(done + [piece])
  {
    PlainsConcat(done, [piece]);
    assert Plains([piece]) == [Plain(piece)];
  }

  lemma SplitStart(text: string, delim: string, was: seq<Slot>)
    requires delim != ""
    ensures text[0..] == text && Split(text, delim) == [] + Split(text[0..], delim) && was == was + Plains([])
  {
    assert text[0..] == text;
  }

  lemma SplitMore(done: seq<string>, piece: string, rest: seq<string>)
    ensures done + ([piece] + rest) == done + [piece] + rest
  {
  }

  // ---------- collapsing ----------

  /** The strings that are there, each after the first with a delimiter in front. */
  function Tail(slots: seq<Slot>, d: string): string {
    if slots == [] then ""
    else (if slots[0].text.Some? then d + slots[0].text.value else "") + Tail(slots[1..], d)
  }

  function Collapsed(slots: seq<Slot>, d: string): string
    requires slots != [] && slots[0].text.Some?
  {
    slots[0].text.value + Tail(slots[1..], d)
  }

  lemma {:induction false} CollapsedJoins(pieces: seq<string>, d: string)
    requires pieces != []
    ensures Collapsed(Plains(pieces), d) == Join(pieces, d)
  {
    assert Plains(pieces)[1..] == Plains(pieces[1..]);
    if |pieces| > 1 {
      CollapsedJoins(pieces[1..], d);
      assert Plains(pieces[1..])[1..] == Plains(pieces[2..]) && pieces[1..][1..] == pieces[2..];
    }
  }

  /** The room that the first loop of `argv_array_collapse_delim` counts for strings after the first. */
  function Room(slots: seq<Slot>): nat {
    if slots == [] then 0 else (if slots[0].text.Some? then |slots[0].text.value| else 0) + Room(slots[1..])
  }

  lemma {:induction false} RoomSnoc(slots: seq<Slot>, x: Slot)
    ensures Room(slots + [x]) == Room(slots) + (if x.text.Some? then |x.text.value| else 0)
  {
    if slots == [] {
      assert slots + [x] == [x] && [x][1..] == [];
    } else {
      assert (slots + [x])[1..] == slots[1..] + [x];
      RoomSnoc(slots[1..], x);
    }
  }

  ghost predicate NoNulls(slots: seq<Slot>) {
    forall i | 0 <= i < |slots| :: slots[i].text.Some?
  }

  /** The counted room suffices, and is exact if no string is NULL. */
  lemma {:induction false} TailFits(slots: seq<Slot>, d: string)
    ensures |Tail(slots, d)| <= Room(slots) + |slots| * |d|
    ensures NoNulls(slots) ==> |Tail(slots, d)| == Room(slots) + |slots| * |d|
  {
    if slots != [] {
      TailFits(slots[1..], d);
      assert |slots| * |d| == |d| + |slots[1..]| * |d|;
      assert NoNulls(slots) ==> NoNulls(slots[1..]);
    }
  }

  lemma {:induction false} TailSnoc(slots: seq<Slot>, x: Slot, d: string)
    ensures Tail(slots + [x], d) == Tail(slots, d) + (if x.text.Some? then d + x.text.value else "")
  {
    if slots == [] {
      assert slots + [x] == [x] && [x][1..] == [];
    } else {
      assert (slots + [x])[1..] == slots[1..] + [x];
      TailSnoc(slots[1..], x, d);
    }
  }

  /** `strcat` onto a text of length `at` in a buffer with enough room. */
  method StrCat(buffer: array<char>, at: nat, s: string) returns (end: nat)
    requires at + |s| < buffer.Length
    modifies buffer
    ensures end == at + |s| && buffer[..end] == old(buffer[..at]) + s && buffer[end] == '\0'
  {
    for i := 0 to |s|
      invariant buffer[..at] == old(buffer[..at]) && buffer[at..at + i] == s[..i]
    {
      buffer[at + i] := s[i];
      assert buffer[at..at + i + 1] == buffer[at..at + i] + [s[i]];
    }
    end := at + |s|;
    buffer[end] := '\0';
    assert buffer[..end] == buffer[..at] + buffer[at..end];
  }

  /**
    `argv_array_collapse_delim`: a buffer that holds the collapsed text and a NUL after it, and has room for
    nothing else if no string is NULL. The first string must not be NULL.
   */
  method CollapseDelim(a: StrArray, delim: string) returns (buffer: array?<char>, ghost end: nat)
    requires a.Valid() && (a.Contents() != [] ==> a.Contents()[0].text.Some?)
    ensures buffer == null <==> a.Contents() == []
    ensures buffer != null ==>
              && fresh(buffer) && end < buffer.Length && buffer[end] == '\0'
              && buffer[..end] == Collapsed(a.Contents(), delim)
              && (NoNulls(a.Contents()) ==> end == buffer.Length - 1)
  {
    hide Tail, Room;
    end := 0;
    if a.len == 0 {
      return null, end;
    }
    ghost var slots := a.Contents();
    var room := CountRoom(a, delim);
    buffer := new char[room](_ => '\0');
    TailNone(slots, delim);
    var at: nat := StrCat(buffer, 0, a.entries[0].text.value);
    for i := 1 to a.len
      invariant at < buffer.Length && buffer[at] == '\0' && fresh(buffer)
      invariant buffer[..at] == slots[0].text.value + Tail(slots[1..i], delim)
    {
      TailPart(slots, i, delim);
      if a.entries[i].text.None? {
        continue;
      }
      assert a.entries[i] == slots[i];
      ghost var before := buffer[..at];
      at := StrCat(buffer, at, delim);
      at := StrCat(buffer, at, a.entries[i].text.value);
      assert before + delim + slots[i].text.value == before + (delim + slots[i].text.value);
      assert slots[0].text.value + (Tail(slots[1..i], delim) + (delim + slots[i].text.value))
          == slots[0].text.value + Tail(slots[1..i], delim) + (delim + slots[i].text.value);
    }
    assert slots[1..a.len] == slots[1..];
    TailPart(slots, a.len, delim);
    end := at;
  }

  /** The first loop of `argv_array_collapse_delim`. */
  method CountRoom(a: StrArray, delim: string) returns (room: nat)
    requires a.Valid() && a.Contents() != []
    ensures room == 1 + Room(a.Contents()) + (|a.Contents()| - 1) * |delim|
  {
    room := 1;
    if a.len > 1 {
      room := room + (a.len - 1) * |delim|;
    }
    ghost var fixed := room;
    for i := 0 to a.len
      invariant room == fixed + Room(a.Contents()[..i])
    {
      RoomSnoc(a.Contents()[..i], a.entries[i]);
      assert a.Contents()[..i] + [a.entries[i]] == a.Contents()[..i + 1];
      if a.entries[i].text.Some? {
        room := room + |a.entries[i].text.value|;
      }
    }
    assert a.Contents()[..a.len] == a.Contents();
  }

  lemma TailNone(slots: seq<Slot>, d: string)
    requires slots != [] && slots[0].text.Some?
    ensures "" + slots[0].text.value == slots[0].text.value + Tail(slots[1..1], d)
    ensures |slots[0].text.value| < 1 + Room(slots) + (|slots| - 1) * |d|
  {
    assert slots[1..1] == [] && Tail([], d) == "";
    MulGrows(0, |slots| - 1, |d|);
  }

  /** The text up to position `i`, and that all of it fits. */
  lemma TailPart(slots: seq<Slot>, i: nat, d: string)
    requires slots != [] && slots[0].text.Some? && 1 <= i <= |slots|
    ensures i < |slots| ==>
              (Tail(slots[1..i + 1], d) ==
               Tail(slots[1..i], d) + (if slots[i].text.Some? then d + slots[i].text.value else ""))
    ensures i < |slots| ==> |slots[0].text.value + Tail(slots[1..i + 1], d)| < 1 + Room(slots) + (|slots| - 1) * |d|
    ensures i == |slots| && NoNulls(slots) ==>
              |slots[0].text.value + Tail(slots[1..i], d)| == Room(slots) + (|slots| - 1) * |d|
  {
    if i < |slots| {
      assert slots[1..i + 1] == slots[1..i] + [slots[i]];
      TailSnoc(slots[1..i], slots[i], d);
      TailFits(slots[1..i + 1], d);
      RoomGrows(slots[1..], i);
      MulGrows(i, |slots| - 1, |d|);
      assert slots[1..][..i] == slots[1..i + 1];
    } else {
      TailFits(slots[1..], d);
      assert slots[1..i] == slots[1..];
    }
  }

  lemma MulGrows(a: nat, b: nat, c: nat)
    requires a <= b
    ensures a * c <= b * c
  {
  }

  lemma {:induction false} RoomGrows(slots: seq<Slot>, i: nat)
    requires i <= |slots|
    ensures Room(slots[..i]) <= Room(slots)
  {
    if i > 0 {
      assert slots[..i][1..] == slots[1..][..i - 1];
      RoomGrows(slots[1..], i - 1);
    }
  }
}
