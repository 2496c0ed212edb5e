/**
  The read loop of `traverse_commit_graph` (src/git/graph-traversal.c) on a real buffer: it appends chunks
  at the end and removes parsed records from the front. What the callback sees is returned as a list.
 */
module GraphTraversal {
  import opened Text
  import opened CommitParse
  import opened GitCommits
  import opened StrBufs
  import opened Sources
  import opened CommitStream

  /** `parse_git_cat_file_output`: take all whole records off the front of the buffer. */
  method ParseCatFileOutput(buffer: StrBuf, delim: string) returns (failed: bool, commits: seq<Commit>)
    requires buffer.Valid() && |delim| == DELIM_LEN
    modifies buffer, buffer.buff
    ensures buffer.Valid() && (fresh(buffer.buff) || buffer.buff == old(buffer.buff))
    ensures failed == !Drain(old(buffer.Text()), delim).ok
    ensures !failed ==> Drain(old(buffer.Text()), delim) == Drained(commits, buffer.Text(), true)
  {
    hide ParseOne;
    commits := [];
    ghost var all := Drain(buffer.Text(), delim);
    assert [] + all.commits == all.commits;
    while true
      invariant buffer.Valid() && (fresh(buffer.buff) || buffer.buff == old(buffer.buff))
      invariant After(commits, Drain(buffer.Text(), delim)) == all
      decreases |buffer.Text()|
    {
      var one := ParseRecord(buffer.buff[..buffer.len], delim);
      ghost var text := buffer.Text();
      if one == Wait {
        assert commits + [] == commits;
        return false, commits;
      }
      if one == Fail {
        return true, commits;
      }
      buffer.Remove(0, one.used);
      assert buffer.Text() == text[one.used..];
      AfterAfter(commits, [one.commit], Drain(buffer.Text(), delim));
      commits := commits + [one.commit];
    }
  }

  /** The first record, if the buffer holds all of it. */
  method ParseRecord(text: string, delim: string) returns (one: Attempt)
    requires CString(text) && |delim| == DELIM_LEN
    ensures one == ParseOne(text, delim)
  {
    hide ParseSummary, ParseCommit;
    var summary := ParseSummary(text, delim);
    match summary
    case More => one := Wait;
    case Malformed => one := Fail;
    case Summary(oid, length, line) =>
      var end := line + 1 + length;
      if end + 1 > |text| {
        return Wait;
      }
      var commit := new GitCommit();
      var outcome := commit.Parse(oid, text[line + 1..end]);
      if outcome != Done {
        return Fail;
      }
      return Deliver(commit.Value(), end + 1);
  }

  datatype Result = DataLeft | EndOfInput | Fatal

  /** `read_messages_single_pass`, with a callback that returns zero and has been given `seen` so far. */
  method ReadMessagesSinglePass(fd: Source, buffer: StrBuf, delim: string, seen: seq<Commit>)
    returns (result: Result, all: seq<Commit>)
    requires fd.Valid() && buffer.Valid() && |delim| == DELIM_LEN
    modifies fd, buffer, buffer.buff
    ensures fd.Valid() && buffer.Valid() && (fresh(buffer.buff) || buffer.buff == old(buffer.buff))
    ensures result == Fatal <==> Pass(State(old(buffer.Text()), old(fd.chunks), seen, Running), delim).status == Failed
    ensures result != Fatal ==>
              Pass(State(old(buffer.Text()), old(fd.chunks), seen, Running), delim) ==
              State(buffer.Text(), fd.chunks, all, if result == DataLeft || buffer.len > 0 then Running else Stopped)
    ensures |fd.chunks| == if old(fd.chunks) == [] then 0 else |old(fd.chunks)| - 1
  {
    hide Drain;
    var bytes := fd.Read();
    if bytes != "" {
      NoNul(bytes);
      buffer.Attach(bytes);
      assert bytes == old(fd.chunks)[0];
    }
    var failed, commits := ParseCatFileOutput(buffer, delim);
    if failed {
      return Fatal, seen;
    }
    all := seen;
    for i := 0 to |commits|
      invariant all == seen + commits[..i]
    {
      all := all + [commits[i]];
    }
    result := if bytes == "" then EndOfInput else DataLeft;
  }

  /**
    The loop of `traverse_commit_graph`. It ends on every stream that is malformed or consists of whole
    records, and only on those.
   */
  method TraverseCommitGraph(fd: Source, delim: string) returns (died: bool, seen: seq<Commit>)
    requires fd.Valid() && |delim| == DELIM_LEN
    requires Drain(fd.Rest(), delim).ok ==> Drain(fd.Rest(), delim).rest == ""
    modifies fd
    ensures died <==> !Drain(old(fd.Rest()), delim).ok
    ensures !died ==> Drain(old(fd.Rest()), delim) == Drained(seen, "", true)
  {
    hide Drain, Pass;
    ghost var stream := fd.Rest();
    var buffer := new StrBuf();
    seen := [];
    PassesKeep(fd.chunks, 0, delim);
    var more := true;
    while more
      invariant fd.Valid() && buffer.Valid() && fresh(buffer) && fresh(buffer.buff)
      invariant Kept(State(buffer.Text(), fd.chunks, seen, if more then Running else Stopped), stream, delim)
      decreases if more then 1 + |fd.chunks| else 0
    {
      ghost var before := State(buffer.Text(), fd.chunks, seen, Running);
      PassKeeps(before, stream, delim);
      if fd.chunks == [] {
        PassIdle(before, stream, delim);
      }
      var result;
      result, seen := ReadMessagesSinglePass(fd, buffer, delim, seen);
      if result == Fatal {
        return true, seen;
      }
      more := result == DataLeft || buffer.len > 0;
    }
    return false, seen;
  }
}
