/**
  The grammar of the `git cat-file` stream (src/git/graph-traversal.c), without any scanning: what the read
  loop takes for a record, what it waits for, and what it gives up on, for every stream.
 */
module StreamGrammar {
  import opened Wrappers
  import opened Text
  import opened Decimals
  import opened Numerals
  import opened ObjectIds
  import opened CommitParse
  import opened Sources
  import opened CommitStream

  // ---------- summary lines ----------

  /** The parts of a summary line behind the delimiter; the separators are not looked at. */
  datatype Head = Head(a: char, oid: string, b: char, c: char, length: Numeral)

  function HeadTail(h: Head): string {
    [h.a] + (h.oid + ([h.b] + (COMMIT_TYPE + ([h.c] + NumeralText(h.length)))))
  }

  function HeadLine(h: Head, delim: string): string {
    delim + HeadTail(h)
  }

  /** An id of the right length and a length that is not negative. */
  predicate ProperHead(h: Head) {
    && |h.oid| == GIT_HEX_OBJECT_ID && ProperNumeral(h.length) && h.length.Numeral?
    && NumeralValue(h.length) >= 0
  }

  /** The announced length, at most the largest `long`. */
  function Announced(h: Head): nat
    requires ProperHead(h)
  {
    Clamp(NumeralValue(h.length))
  }

  lemma HeadLayout(h: Head, delim: string)
    requires |h.oid| == GIT_HEX_OBJECT_ID && |delim| == DELIM_LEN
    ensures var line := HeadLine(h, delim);
            && |line| == 65 + |NumeralText(h.length)| && line[..16] == delim && line[17..57] == h.oid
            && line[58..64] == COMMIT_TYPE && line[65..] == NumeralText(h.length)
  {
    var t := COMMIT_TYPE + ([h.c] + NumeralText(h.length));
    var s := h.oid + ([h.b] + t);
    var line := delim + ([h.a] + s);
    assert line == HeadLine(h, delim);
    Slices(delim, [h.a], s);
    Slices(h.oid, [h.b], t);
    Slices(COMMIT_TYPE, [h.c], NumeralText(h.length));
    assert line[17..57] == line[17..][..40];
    assert line[58..] == line[17..][41..] == t;
    assert line[58..64] == t[..6] && line[65..] == t[7..];
  }

  lemma Slices(x: string, y: string, z: string)
    ensures (x + (y + z))[..|x|] == x && (x + (y + z))[|x| + |y|..] == z
  {
  }

  lemma LengthOfNumeral(n: Numeral)
    requires ProperNumeral(n) && n.Numeral? && NumeralValue(n) >= 0
    ensures NumeralText(n) != "" && ParseLength(NumeralText(n)) == Some(Clamp(NumeralValue(n)))
  {
    NumeralReads(n);
  }

  /** Every line of the grammar is read as its parts. */
  lemma HeadReads(h: Head, delim: string)
    requires ProperHead(h) && |delim| == DELIM_LEN
    ensures SummaryOf(HeadLine(h, delim), delim) == Summary(h.oid, Announced(h), |HeadLine(h, delim)|)
  {
    hide ParseLength, NumeralText, NumeralValue, HeadLine;
    HeadLayout(h, delim);
    LengthOfNumeral(h.length);
  }

  /** Every line that is read is in the grammar. */
  lemma HeadOf(line: string, delim: string) returns (h: Head)
    requires |delim| == DELIM_LEN && SummaryOf(line, delim).Summary?
    ensures ProperHead(h) && HeadLine(h, delim) == line
  {
    hide StrToL;
    var n := NumeralOf(line[65..]);
    NumeralReads(n);
    h := Head(line[16], line[17..57], line[57], line[64], n);
    assert line[57..] == [line[57]] + (line[58..64] + ([line[64]] + line[65..]));
    assert line == line[..16] + ([line[16]] + (line[17..57] + line[57..]));
  }

  // ---------- records ----------

  /** A summary line, an object of the announced length, and one more character. */
  datatype Frame = Frame(head: Head, content: string, d: char)

  predicate ProperFrame(f: Frame, delim: string) {
    && |delim| == DELIM_LEN && ProperHead(f.head) && '\n' !in HeadLine(f.head, delim)
    && |f.content| == Announced(f.head) && ParseCommit(f.head.oid, f.content).Good?
  }

  function FrameCommit(f: Frame): Commit
    requires |f.head.oid| == GIT_HEX_OBJECT_ID && ParseCommit(f.head.oid, f.content).Good?
  {
    ParseCommit(f.head.oid, f.content).value
  }

  function FrameText(f: Frame, delim: string): string {
    HeadLine(f.head, delim) + ['\n'] + (f.content + [f.d])
  }

  lemma SummaryReads(h: Head, more: string, delim: string)
    requires ProperHead(h) && |delim| == DELIM_LEN && '\n' !in HeadLine(h, delim)
    ensures ParseSummary(HeadLine(h, delim) + ['\n'] + more, delim) ==
            Summary(h.oid, Announced(h), |HeadLine(h, delim)|)
  {
    hide SummaryOf, HeadLine, Announced;
    var line := HeadLine(h, delim);
    IndexOfPrefix(line, '\n', more);
    assert (line + ['\n'] + more)[..|line|] == line;
    HeadReads(h, delim);
  }

  /** A record is delivered, whatever follows. */
  lemma FrameReads(f: Frame, rest: string, delim: string)
    requires ProperFrame(f, delim)
    ensures ParseOne(FrameText(f, delim) + rest, delim) == Deliver(FrameCommit(f), |FrameText(f, delim)|)
  {
    hide ParseCommit, ParseSummary, HeadLine;
    var line := HeadLine(f.head, delim);
    var s := line + ['\n'] + (f.content + [f.d] + rest);
    assert FrameText(f, delim) + rest == s;
    SummaryReads(f.head, f.content + [f.d] + rest, delim);
    assert s[|line| + 1..|line| + 1 + |f.content|] == f.content;
  }

  /** What is delivered is a record at the front of the buffer. */
  lemma FrameOf(buffer: string, delim: string) returns (f: Frame)
    requires |delim| == DELIM_LEN && ParseOne(buffer, delim).Deliver?
    ensures ProperFrame(f, delim) && ParseOne(buffer, delim) == Deliver(FrameCommit(f), |FrameText(f, delim)|)
    ensures buffer == FrameText(f, delim) + buffer[|FrameText(f, delim)|..]
  {
    hide ParseCommit, SummaryOf, HeadLine, Announced;
    var lf := IndexOf(buffer, '\n');
    var line := buffer[..lf];
    var h := HeadOf(line, delim);
    HeadReads(h, delim);
    var end := lf + 1 + Announced(h);
    f := Frame(h, buffer[lf + 1..end], buffer[end]);
    var text := FrameText(f, delim);
    assert text == buffer[..end + 1];
  }

  /** The beginning of a line, or a summary line and too little behind it. */
  ghost predicate Partial(s: string, delim: string) {
    '\n' !in s ||
    exists h: Head, part: string ::
      ProperHead(h) && '\n' !in HeadLine(h, delim) && |part| <= Announced(h) && s == HeadLine(h, delim) + ['\n'] + part
  }

  lemma SummaryOfLine(buffer: string, delim: string)
    requires |delim| == DELIM_LEN
    ensures var lf := IndexOf(buffer, '\n');
            ParseSummary(buffer, delim) == if lf < 0 then More else SummaryOf(buffer[..lf], delim)
  {
    hide SummaryOf;
  }

  lemma SummaryNotMore(line: string, delim: string)
    requires |delim| == DELIM_LEN
    ensures SummaryOf(line, delim) != More
  {
    hide ParseLength;
  }

  lemma WaitForMore(buffer: string, delim: string)
    requires |delim| == DELIM_LEN && ParseOne(buffer, delim) == Wait && ParseSummary(buffer, delim) != More
    ensures var s := ParseSummary(buffer, delim); s.Summary? && |buffer| <= s.line + 1 + s.length
  {
    hide ParseCommit, ParseSummary;
  }

  /** The loop waits exactly for the rest of a line or of an object. */
  lemma WaitIff(buffer: string, delim: string)
    requires |delim| == DELIM_LEN
    ensures ParseOne(buffer, delim) == Wait <==> Partial(buffer, delim)
  {
    hide ParseCommit, SummaryOf, HeadLine, Announced, ProperHead;
    var lf := IndexOf(buffer, '\n');
    SummaryOfLine(buffer, delim);
    if lf >= 0 {
      if ParseOne(buffer, delim) == Wait {
        SummaryNotMore(buffer[..lf], delim);
        WaitForMore(buffer, delim);
        var h := HeadOf(buffer[..lf], delim);
        HeadReads(h, delim);
        assert buffer == HeadLine(h, delim) + ['\n'] + buffer[lf + 1..];
      }
      if h: Head, part: string :|
        && ProperHead(h) && '\n' !in HeadLine(h, delim) && |part| <= Announced(h)
        && buffer == HeadLine(h, delim) + ['\n'] + part
      {
        SummaryReads(h, part, delim);
      }
    }
  }

  // ---------- streams ----------

  ghost predicate ProperFrames(fs: seq<Frame>, delim: string) {
    forall i | 0 <= i < |fs| :: ProperFrame(fs[i], delim)
  }

  function FramesText(fs: seq<Frame>, delim: string): string {
    if fs == [] then "" else FrameText(fs[0], delim) + FramesText(fs[1..], delim)
  }

  function FrameCommits(fs: seq<Frame>, delim: string): seq<Commit>
    requires ProperFrames(fs, delim)
  {
    if fs == [] then [] else [FrameCommit(fs[0])] + FrameCommits(fs[1..], delim)
  }

  /** Draining a stream of records gives their commits and goes on behind them. */
  lemma {:induction false} FramesDrain(fs: seq<Frame>, rest: string, delim: string)
    requires |delim| == DELIM_LEN && ProperFrames(fs, delim)
    ensures var d := Drain(rest, delim);
            Drain(FramesText(fs, delim) + rest, delim) == CommitStream.After(FrameCommits(fs, delim), d)
  {
    if fs == [] {
      assert FramesText(fs, delim) + rest == rest && [] + Drain(rest, delim).commits == Drain(rest, delim).commits;
    } else {
      hide *;
      AllFrames(fs, delim);
      FramesDrain(fs[1..], rest, delim);
      FramesStep(fs, rest, delim);
    }
  }

  lemma AllFrames(fs: seq<Frame>, delim: string)
    requires ProperFrames(fs, delim) && fs != []
    ensures ProperFrame(fs[0], delim) && ProperFrames(fs[1..], delim)
  {
    hide ProperFrame;
  }

  lemma FramesStep(fs: seq<Frame>, rest: string, delim: string)
    requires |delim| == DELIM_LEN && fs != [] && ProperFrame(fs[0], delim)
    requires ProperFrames(fs, delim) && ProperFrames(fs[1..], delim)
    requires var d := Drain(rest, delim);
             Drain(FramesText(fs[1..], delim) + rest, delim) == CommitStream.After(FrameCommits(fs[1..], delim), d)
    ensures var d := Drain(rest, delim);
            Drain(FramesText(fs, delim) + rest, delim) == CommitStream.After(FrameCommits(fs, delim), d)
  {
    hide ParseOne, ProperFrame, FrameText, FrameCommit, Drain, CommitStream.After, ProperFrames;
    var f, more := fs[0], FramesText(fs[1..], delim) + rest;
    FrameReads(f, more, delim);
    assert FramesText(fs, delim) + rest == FrameText(f, delim) + more;
    FrameParses(f, delim);
    DrainFirst(FrameText(f, delim), more, FrameCommit(f), delim);
    CommitStream.AfterAfter([FrameCommit(f)], FrameCommits(fs[1..], delim), Drain(rest, delim));
  }

  lemma FrameParses(f: Frame, delim: string)
    requires ProperFrame(f, delim)
    ensures |f.head.oid| == GIT_HEX_OBJECT_ID && ParseCommit(f.head.oid, f.content).Good?
  {
  }

  /** Every stream is a list of records and something that is waited for or given up on. */
  lemma {:induction false} FramesOf(stream: string, delim: string) returns (fs: seq<Frame>, rest: string)
    requires |delim| == DELIM_LEN
    ensures ProperFrames(fs, delim) && stream == FramesText(fs, delim) + rest
    ensures Drain(stream, delim) == Drained(FrameCommits(fs, delim), rest, Partial(rest, delim))
    ensures !ParseOne(rest, delim).Deliver?
    decreases |stream|
  {
    hide ParseOne, FrameText, ProperFrame, FrameCommit, Partial, Drain;
    WaitIff(stream, delim);
    if !ParseOne(stream, delim).Deliver? {
      NothingDrained(stream, delim);
      assert "" + stream == stream;
      return [], stream;
    }
    var f := FrameOf(stream, delim);
    TextNotEmpty(f, delim);
    var more := stream[|FrameText(f, delim)|..];
    var gs;
    gs, rest := FramesOf(more, delim);
    fs := [f] + gs;
    assert fs[1..] == gs && forall i | 1 <= i < |fs| :: fs[i] == gs[i - 1];
    assert stream == FrameText(f, delim) + (FramesText(gs, delim) + rest);
    FrameParses(f, delim);
    DrainFirst(FrameText(f, delim), more, FrameCommit(f), delim);
    Regroup(FrameText(f, delim), FramesText(gs, delim), rest);
  }

  lemma Regroup(a: string, b: string, c: string)
    ensures a + b + c == a + (b + c)
  {
  }

  lemma NothingDrained(stream: string, delim: string)
    requires |delim| == DELIM_LEN && !ParseOne(stream, delim).Deliver?
    ensures Drain(stream, delim) == Drained([], stream, ParseOne(stream, delim) == Wait)
  {
    hide ParseOne;
  }

  lemma TextNotEmpty(f: Frame, delim: string)
    ensures FrameText(f, delim) != ""
  {
  }

  /** The stream consists of these records and this rest. */
  ghost predicate Consists(stream: string, fs: seq<Frame>, rest: string, delim: string) {
    ProperFrames(fs, delim) && stream == FramesText(fs, delim) + rest
  }

  /** The rest is no beginning of a record, and no record is at its front. */
  ghost predicate Garbage(rest: string, delim: string) {
    !Partial(rest, delim) && forall f: Frame :: ProperFrame(f, delim) ==> !(FrameText(f, delim) <= rest)
  }

  lemma GarbageFails(rest: string, delim: string)
    requires |delim| == DELIM_LEN
    ensures ParseOne(rest, delim) == Fail <==> Garbage(rest, delim)
  {
    hide ParseOne, Partial, ProperFrame, FrameText, FrameCommit;
    WaitIff(rest, delim);
    if ParseOne(rest, delim).Deliver? {
      var f := FrameOf(rest, delim);
      assert FrameText(f, delim) <= rest;
    }
    if f: Frame :| ProperFrame(f, delim) && FrameText(f, delim) <= rest {
      assert rest == FrameText(f, delim) + rest[|FrameText(f, delim)|..];
      FrameReads(f, rest[|FrameText(f, delim)|..], delim);
      assert ParseOne(rest, delim).Deliver?;
    }
  }

  /** What draining leaves behind the records of a stream. */
  lemma RestDrains(stream: string, fs: seq<Frame>, rest: string, delim: string)
    requires |delim| == DELIM_LEN && Consists(stream, fs, rest, delim)
    ensures Partial(rest, delim) ==> Drain(stream, delim) == Drained(FrameCommits(fs, delim), rest, true)
    ensures Garbage(rest, delim) ==> !Drain(stream, delim).ok
  {
    hide ParseOne, Drain, Partial, Garbage, ProperFrames, FrameCommits, FramesText;
    FramesDrain(fs, rest, delim);
    WaitIff(rest, delim);
    GarbageFails(rest, delim);
    if ParseOne(rest, delim) != Wait && ParseOne(rest, delim) != Fail {
    } else {
      NothingDrained(rest, delim);
    }
    assert FrameCommits(fs, delim) + [] == FrameCommits(fs, delim);
  }

  lemma NothingPartial(delim: string)
    ensures Partial("", delim)
  {
  }

  lemma GarbageNotPartial(rest: string, delim: string)
    ensures Garbage(rest, delim) ==> !Partial(rest, delim)
  {
    hide Partial;
  }

  /**
    The end of every run, for every stream and every way to cut it into chunks: the loop stops exactly if the
    stream consists of whole records, and has then delivered their commits, once and in order; it goes on
    forever exactly if a beginning of a record is left behind them; and it fails exactly if anything else is.
   */
  lemma RunEndsIff(chunks: seq<string>, n: nat, delim: string)
    requires |delim| == DELIM_LEN && n > |chunks|
    ensures var stream, s := Joined(chunks), Passes(Start(chunks), n, delim);
            && (s.status == Stopped <==> exists fs: seq<Frame> :: Consists(stream, fs, "", delim))
            && (s.status == Running <==>
                  exists fs: seq<Frame>, rest ::
                    Consists(stream, fs, rest, delim) && rest != "" && Partial(rest, delim))
            && (s.status == Failed <==>
                  exists fs: seq<Frame>, rest :: Consists(stream, fs, rest, delim) && Garbage(rest, delim))
            && (forall fs: seq<Frame> :: Consists(stream, fs, "", delim) ==> s.delivered == FrameCommits(fs, delim))
  {
    hide Drain, Passes, Partial, Garbage, ProperFrame, FramesText, Joined;
    var stream, s := Joined(chunks), Passes(Start(chunks), n, delim);
    RunEnds(chunks, n, delim);
    NothingPartial(delim);
    forall fs: seq<Frame>, rest | Consists(stream, fs, rest, delim)
      ensures Partial(rest, delim) ==> Drain(stream, delim) == Drained(FrameCommits(fs, delim), rest, true)
      ensures Garbage(rest, delim) ==> !Drain(stream, delim).ok
    {
      RestDrains(stream, fs, rest, delim);
    }
    var fs, rest := SomeFrames(stream, delim);
    assert Consists(stream, fs, rest, delim);
    assert Drain(stream, delim).ok ==> Drain(stream, delim).rest == rest;
  }

  /** Every stream consists of records and a rest of one of the three kinds. */
  lemma SomeFrames(stream: string, delim: string) returns (fs: seq<Frame>, rest: string)
    requires |delim| == DELIM_LEN
    ensures Consists(stream, fs, rest, delim)
    ensures if Drain(stream, delim).ok then Partial(rest, delim) && Drain(stream, delim).rest == rest
            else Garbage(rest, delim)
  {
    hide ParseOne, Drain, Partial, ProperFrame, FrameText;
    fs, rest := FramesOf(stream, delim);
    WaitIff(rest, delim);
    GarbageFails(rest, delim);
  }
}
