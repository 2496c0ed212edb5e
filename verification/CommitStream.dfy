/**
  The reader of batched `git cat-file` output (src/git/graph-traversal.c). A stream is a sequence of
  records, each a summary line, an object of the length that line announces, and a line feed. It arrives
  in arbitrary chunks.
 */
module CommitStream {
  import opened Wrappers
  import opened Text
  import opened Decimals
  import opened ObjectIds
  import opened CommitParse
  import opened Sources

  const DELIM_LEN: nat := 16
  const COMMIT_TYPE: string := "commit"

  // ---------- one record ----------

  /** `More` if the line is not complete yet. */
  datatype Summary = More | Malformed | Summary(oid: string, length: nat, line: nat)

  /** A length, all of which `strtol` must use; like there, a number that is too large counts as the largest. */
  function ParseLength(t: string): Option<nat> {
    var n := StrToL(t);
    if t != "" && n.used == |t| && n.value >= 0 then Some(n.value) else None
  }

  /** A complete summary line, without the line feed. */
  function SummaryOf(line: string, delim: string): (r: Summary)
    requires |delim| == DELIM_LEN
    ensures r.Summary? ==> |r.oid| == GIT_HEX_OBJECT_ID && r.line == |line|
  {
    if |line| < DELIM_LEN || line[..DELIM_LEN] != delim then Malformed
    else
      var id := DELIM_LEN + 1;
      if |line| < id + GIT_HEX_OBJECT_ID then Malformed
      else
        var kind := id + GIT_HEX_OBJECT_ID + 1;
        if |line| < kind + |COMMIT_TYPE| || line[kind..kind + |COMMIT_TYPE|] != COMMIT_TYPE then Malformed
        else
          var length := kind + |COMMIT_TYPE| + 1;
          if |line| <= length then Malformed
          else
            match ParseLength(line[length..])
            case None => Malformed
            case Some(n) => Summary(line[id..id + GIT_HEX_OBJECT_ID], n, |line|)
  }

  /** `parse_git_cat_file_output_summary_line` */
  function ParseSummary(buffer: string, delim: string): (r: Summary)
    requires |delim| == DELIM_LEN
    ensures r.Summary? ==> |r.oid| == GIT_HEX_OBJECT_ID && r.line < |buffer|
  {
    var lf := IndexOf(buffer, '\n');
    if lf < 0 then More else SummaryOf(buffer[..lf], delim)
  }

  /** `Wait` for more bytes, give up, or deliver a commit and drop what it took from the buffer. */
  datatype Attempt = Wait | Fail | Deliver(commit: Commit, used: nat)

  /** One round of `parse_git_cat_file_output`. */
  function ParseOne(buffer: string, delim: string): (r: Attempt)
    requires |delim| == DELIM_LEN
    ensures r.Deliver? ==> 0 < r.used <= |buffer|
  {
    match ParseSummary(buffer, delim)
    case More => Wait
    case Malformed => Fail
    case Summary(oid, length, line) =>
      var end := line + 1 + length;
      if end + 1 > |buffer| then Wait
      else
        match ParseCommit(oid, buffer[line + 1..end])
        case Good(commit, _) => Deliver(commit, end + 1)
        case Bad => Fail
        case Died => Fail
  }

  // ---------- all records in the buffer ----------

  datatype Drained = Drained(commits: seq<Commit>, rest: string, ok: bool)

  /** `parse_git_cat_file_output` */
  function Drain(buffer: string, delim: string): Drained
    requires |delim| == DELIM_LEN
    decreases |buffer|
  {
    match ParseOne(buffer, delim)
    case Wait => Drained([], buffer, true)
    case Fail => Drained([], buffer, false)
    case Deliver(commit, used) => After([commit], Drain(buffer[used..], delim))
  }

  function After(commits: seq<Commit>, d: Drained): Drained {
    Drained(commits + d.commits, d.rest, d.ok)
  }

  lemma AfterAfter(a: seq<Commit>, b: seq<Commit>, d: Drained)
    ensures After(a + b, d) == After(a, After(b, d))
  {
    assert a + b + d.commits == a + (b + d.commits);
  }

  /** Once a round does not wait, later bytes do not change what it does. */
  lemma ParseOneMore(a: string, b: string, delim: string)
    requires |delim| == DELIM_LEN && ParseOne(a, delim) != Wait
    ensures ParseOne(a + b, delim) == ParseOne(a, delim)
  {
    hide ParseCommit, SummaryOf;
    var lf := IndexOf(a, '\n');
    FirstFeed(a, b);
    assert (a + b)[..lf] == a[..lf];
    var s := ParseSummary(a, delim);
    if s.Summary? {
      var from, end := s.line + 1, s.line + 1 + s.length;
      assert (a + b)[from..end] == a[from..end];
    }
  }

  /** Draining early and then going on with later bytes is draining everything at once. */
  lemma {:induction false} DrainMore(a: string, b: string, delim: string)
    requires |delim| == DELIM_LEN
    ensures var d := Drain(a, delim);
            && (d.ok ==> Drain(a + b, delim) == After(d.commits, Drain(d.rest + b, delim)))
            && (!d.ok ==> !Drain(a + b, delim).ok)
    decreases |a|
  {
    hide ParseOne;
    var one := ParseOne(a, delim);
    if one == Wait {
      var d := Drain(a + b, delim);
      assert [] + d.commits == d.commits;
    } else {
      ParseOneMore(a, b, delim);
      if one.Deliver? {
        var rest := a[one.used..];
        assert (a + b)[one.used..] == rest + b;
        DrainMore(rest, b, delim);
        var d := Drain(rest, delim);
        AfterAfter([one.commit], d.commits, Drain(d.rest + b, delim));
      }
    }
  }

  /** What is left after draining has nothing more to deliver. */
  lemma {:induction false} DrainRest(a: string, delim: string)
    requires |delim| == DELIM_LEN && Drain(a, delim).ok
    ensures ParseOne(Drain(a, delim).rest, delim) == Wait
    decreases |a|
  {
    hide ParseOne;
    var one := ParseOne(a, delim);
    if one.Deliver? {
      DrainRest(a[one.used..], delim);
    }
  }

  // ---------- whole runs ----------

  datatype Status = Running | Stopped | Failed

  /** The buffer, the chunks still to be read, and the commits that the callback has seen. */
  datatype State = State(buffer: string, pending: seq<string>, delivered: seq<Commit>, status: Status)

  function Start(chunks: seq<string>): State {
    State("", chunks, [], Running)
  }

  /**
    One round of the loop in `traverse_commit_graph`: a pass of `read_messages_single_pass`, which reads
    one chunk, or nothing at the end of the file, and the test whether to go on. The callback returns zero.
   */
  function Pass(s: State, delim: string): State
    requires |delim| == DELIM_LEN
  {
    if s.status != Running then s
    else
      var end := s.pending == [];
      var d := Drain(if end then s.buffer else s.buffer + s.pending[0], delim);
      if !d.ok then s.(status := Failed)
      else State(d.rest, if end then [] else s.pending[1..], s.delivered + d.commits,
                 if end && d.rest == "" then Stopped else Running)
  }

  function Passes(s: State, n: nat, delim: string): State
    requires |delim| == DELIM_LEN
  {
    if n == 0 then s else Pass(Passes(s, n - 1, delim), delim)
  }

  /** What every pass keeps, for a stream that is `stream` in all. */
  ghost predicate Kept(s: State, stream: string, delim: string)
    requires |delim| == DELIM_LEN
  {
    match s.status
    case Running => Drain(stream, delim) == After(s.delivered, Drain(s.buffer + Joined(s.pending), delim))
    case Stopped => Drain(stream, delim) == Drained(s.delivered, "", true)
    case Failed => !Drain(stream, delim).ok
  }

  lemma PassKeeps(s: State, stream: string, delim: string)
    requires |delim| == DELIM_LEN && Kept(s, stream, delim)
    ensures Kept(Pass(s, delim), stream, delim)
  {
    hide Drain;
    if s.status == Running {
      var end := s.pending == [];
      var a := if end then s.buffer else s.buffer + s.pending[0];
      var b := if end then "" else Joined(s.pending[1..]);
      assert s.buffer + Joined(s.pending) == a + b;
      DrainMore(a, b, delim);
      var d := Drain(a, delim);
      if d.ok {
        AfterAfter(s.delivered, d.commits, Drain(d.rest + b, delim));
        if end && d.rest == "" {
          DrainNothing(delim);
        }
      }
    }
  }

  lemma DrainNothing(delim: string)
    requires |delim| == DELIM_LEN
    ensures Drain("" + "", delim) == Drained([], "", true)
  {
    assert "" + "" == "";
  }

  /** However the stream is cut into chunks, every pass keeps what has been delivered in line with it. */
  lemma {:induction false} PassesKeep(chunks: seq<string>, n: nat, delim: string)
    requires |delim| == DELIM_LEN
    ensures Kept(Passes(Start(chunks), n, delim), Joined(chunks), delim)
  {
    if n == 0 {
      var d := Drain(Joined(chunks), delim);
      assert "" + Joined(chunks) == Joined(chunks) && [] + d.commits == d.commits;
    } else {
      PassesKeep(chunks, n - 1, delim);
      PassKeeps(Passes(Start(chunks), n - 1, delim), Joined(chunks), delim);
    }
  }

  /** While the loop runs, each pass takes one chunk. */
  lemma {:induction false} PassesRead(chunks: seq<string>, n: nat, delim: string)
    requires |delim| == DELIM_LEN && Passes(Start(chunks), n, delim).status == Running
    ensures Passes(Start(chunks), n, delim).pending == if n < |chunks| then chunks[n..] else []
  {
    hide Drain;
    if n > 0 {
      PassesRead(chunks, n - 1, delim);
    } else {
      assert chunks[0..] == chunks;
    }
  }

  /** Past the last chunk, a pass that does not end the loop changes nothing any more. */
  lemma PassIdle(s: State, stream: string, delim: string)
    requires |delim| == DELIM_LEN && s.status == Running && s.pending == [] && Kept(s, stream, delim)
    ensures var d := Drain(stream, delim);
            var next := Pass(s, delim);
            next.status == (if !d.ok then Failed else if d.rest == "" then Stopped else Running)
  {
    assert s.buffer + Joined([]) == s.buffer;
  }

  /**
    The end of every run, whatever the chunks: it stops, with every commit of the stream delivered once and
    in order, exactly if the stream consists of whole records; it fails exactly if a record is malformed;
    and on a stream that breaks off inside a record it never ends.
   */
  lemma RunEnds(chunks: seq<string>, n: nat, delim: string)
    requires |delim| == DELIM_LEN && n > |chunks|
    ensures var d := Drain(Joined(chunks), delim);
            var s := Passes(Start(chunks), n, delim);
            && (s.status == Stopped <==> d.ok && d.rest == "")
            && (s.status == Failed <==> !d.ok)
            && (s.status == Running <==> d.ok && d.rest != "")
            && (s.status == Stopped ==> s.delivered == d.commits && s.buffer == "")
  {
    hide Drain;
    var s := Passes(Start(chunks), n, delim);
    PassesKeep(chunks, n, delim);
    PassesKeep(chunks, n - 1, delim);
    var before := Passes(Start(chunks), n - 1, delim);
    if before.status == Running {
      PassesRead(chunks, n - 1, delim);
      PassIdle(before, Joined(chunks), delim);
    }
    if s.status == Stopped {
      StoppedEmpty(chunks, n, delim);
    }
  }

  lemma {:induction false} StoppedEmpty(chunks: seq<string>, n: nat, delim: string)
    requires |delim| == DELIM_LEN && Passes(Start(chunks), n, delim).status == Stopped
    ensures Passes(Start(chunks), n, delim).buffer == ""
  {
    hide Drain;
    if Passes(Start(chunks), n - 1, delim).status == Stopped {
      StoppedEmpty(chunks, n - 1, delim);
    }
  }

  // ---------- well-formed streams ----------

  /** What `git cat-file` prints for one commit. */
  datatype Record = Record(oid: string, content: string) {

    /** The object parses, under an id of the right length. */
    predicate Proper() {
      && |oid| == GIT_HEX_OBJECT_ID && '\n' !in oid
      && |content| <= INTMAX_MAX
      && ParseCommit(oid, content).Good?
    }

    function Commit(): Commit
      requires Proper()
    {
      ParseCommit(oid, content).value
    }

    function Line(delim: string): string {
      delim + (" " + (oid + (" " + COMMIT_TYPE + " " + Decimal(|content|))))
    }

    function Text(delim: string): string {
      Line(delim) + (['\n'] + (content + ['\n']))
    }
  }

  predicate ProperDelim(delim: string) {
    |delim| == DELIM_LEN && '\n' !in delim
  }

  ghost predicate AllProper(rs: seq<Record>) {
    forall i | 0 <= i < |rs| :: rs[i].Proper()
  }

  function StreamText(rs: seq<Record>, delim: string): string {
    if rs == [] then "" else rs[0].Text(delim) + StreamText(rs[1..], delim)
  }

  function Commits(rs: seq<Record>): seq<Commit>
    requires AllProper(rs)
  {
    if rs == [] then [] else [rs[0].Commit()] + Commits(rs[1..])
  }

  lemma LineParts(a: string, b: string, c: string, d: string)
    ensures var line := a + (b + (c + d));
            && line[..|a|] == a && line[|a| + |b|..|a| + |b| + |c|] == c && line[|a| + |b| + |c|..] == d
  {
  }

  lemma LineReads(r: Record, delim: string)
    requires ProperDelim(delim) && r.Proper()
    ensures '\n' !in r.Line(delim)
    ensures SummaryOf(r.Line(delim), delim) == Summary(r.oid, |r.content|, |r.Line(delim)|)
  {
    hide ParseCommit, ParseLength, Decimal;
    var digits := Decimal(|r.content|);
    LengthReads(|r.content|);
    assert '\n' !in digits;
    LineLayout(delim, r.oid, digits);
  }

  /** Where the parts of a summary line are. */
  lemma LineLayout(delim: string, oid: string, digits: string)
    requires |delim| == DELIM_LEN && |oid| == GIT_HEX_OBJECT_ID
    ensures var line := delim + (" " + (oid + (" " + COMMIT_TYPE + " " + digits)));
            && |line| == 65 + |digits| && line[..16] == delim && line[17..57] == oid
            && line[58..64] == COMMIT_TYPE && line[65..] == digits
  {
    var tail := " " + COMMIT_TYPE + " " + digits;
    var line := delim + (" " + (oid + tail));
    LineParts(delim, " ", oid, tail);
    assert tail[1..7] == COMMIT_TYPE && tail[8..] == digits;
    assert line[57..] == tail && line[58..64] == tail[1..7] && line[65..] == tail[8..];
  }

  lemma LengthReads(n: nat)
    requires n <= INTMAX_MAX
    ensures ParseLength(Decimal(n)) == Some(n)
  {
    hide StrToL;
    StrToLReads(n);
  }

  /** A whole record is delivered, whatever follows it and whatever its object looks like. */
  lemma RecordReads(r: Record, rest: string, delim: string)
    requires ProperDelim(delim) && r.Proper()
    ensures ParseOne(r.Text(delim) + rest, delim) == Deliver(r.Commit(), |r.Text(delim)|)
  {
    hide ParseCommit, SummaryOf, Decimal;
    LineReads(r, delim);
    var line := r.Line(delim);
    var s := line + ['\n'] + (r.content + (['\n'] + rest));
    assert r.Text(delim) + rest == s;
    IndexOfPrefix(line, '\n', r.content + (['\n'] + rest));
    assert s[..|line|] == line;
    assert s[|line| + 1..|line| + 1 + |r.content|] == r.content;
  }

  /** A record that breaks off is waited for. */
  lemma RecordWaits(r: Record, k: nat, delim: string)
    requires ProperDelim(delim) && r.Proper() && k < |r.Text(delim)|
    ensures ParseOne(r.Text(delim)[..k], delim) == Wait
  {
    hide ParseCommit, SummaryOf, Decimal;
    LineReads(r, delim);
    var line, s := r.Line(delim), r.Text(delim)[..k];
    if k <= |line| {
      assert s == line[..k];
    } else {
      var more := r.Text(delim)[|line| + 1..k];
      assert s == line + ['\n'] + more;
      IndexOfPrefix(line, '\n', more);
      assert s[..|line|] == line;
    }
  }

  /** Nothing, or the beginning of a record. */
  ghost predicate BreaksOff(part: string, delim: string) {
    part == "" || exists r: Record :: r.Proper() && |part| < |r.Text(delim)| && part == r.Text(delim)[..|part|]
  }

  lemma {:induction false} StreamDrains(rs: seq<Record>, part: string, delim: string)
    requires ProperDelim(delim) && AllProper(rs) && BreaksOff(part, delim)
    ensures Drain(StreamText(rs, delim) + part, delim) == Drained(Commits(rs), part, true)
  {
    if rs == [] {
      hide ParseOne;
      assert StreamText(rs, delim) + part == part;
      PartWaits(part, delim);
    } else {
      hide *;
      StreamDrains(rs[1..], part, delim);
      StreamStep(rs[0], rs[1..], part, delim);
      assert rs == [rs[0]] + rs[1..];
    }
  }

  lemma StreamStep(r: Record, rs: seq<Record>, part: string, delim: string)
    requires ProperDelim(delim) && r.Proper()
    ensures Drain(StreamText([r] + rs, delim) + part, delim) ==
            After([r.Commit()], Drain(StreamText(rs, delim) + part, delim))
  {
    hide ParseOne, Drain, Record.Proper, Record.Text, Record.Commit, After;
    var text, more := r.Text(delim), StreamText(rs, delim) + part;
    assert StreamText([r] + rs, delim) + part == text + more by {
      assert ([r] + rs)[1..] == rs;
    }
    RecordReads(r, more, delim);
    DrainFirst(text, more, r.Commit(), delim);
  }

  lemma DrainFirst(text: string, more: string, commit: Commit, delim: string)
    requires |delim| == DELIM_LEN && ParseOne(text + more, delim) == Deliver(commit, |text|)
    ensures Drain(text + more, delim) == After([commit], Drain(more, delim))
  {
    hide ParseOne;
    assert (text + more)[|text|..] == more;
  }

  lemma PartWaits(part: string, delim: string)
    requires ProperDelim(delim) && BreaksOff(part, delim)
    ensures ParseOne(part, delim) == Wait
  {
    if part != "" {
      var r: Record :| r.Proper() && |part| < |r.Text(delim)| && part == r.Text(delim)[..|part|];
      RecordWaits(r, |part|, delim);
    }
  }

  /**
    For every list of records and every way to cut their stream into chunks, the loop stops after the
    pass that finds the end of the file, and the callback has seen each commit once and in order. If the
    stream breaks off inside a record instead, the loop never stops.
   */
  lemma EachCommitOnce(rs: seq<Record>, part: string, chunks: seq<string>, n: nat, delim: string)
    requires ProperDelim(delim) && AllProper(rs) && BreaksOff(part, delim)
    requires Joined(chunks) == StreamText(rs, delim) + part && n > |chunks|
    ensures var s := Passes(Start(chunks), n, delim);
            if part == "" then s == State("", [], Commits(rs), Stopped) else s.status == Running
  {
    hide Drain, ParseOne;
    StreamDrains(rs, part, delim);
    RunEnds(chunks, n, delim);
    if part == "" {
      PendingGone(chunks, n, delim);
    }
  }

  lemma {:induction false} PendingGone(chunks: seq<string>, n: nat, delim: string)
    requires |delim| == DELIM_LEN && Passes(Start(chunks), n, delim).status == Stopped
    ensures Passes(Start(chunks), n, delim).pending == []
  {
    hide Drain;
    if Passes(Start(chunks), n - 1, delim).status == Stopped {
      PendingGone(chunks, n - 1, delim);
    }
  }
}
