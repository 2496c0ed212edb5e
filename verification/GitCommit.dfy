/** A commit that is filled in from its raw text (`struct git_commit` and `commit_parse` in src/git/commit.c). */
module GitCommits {
  import opened Wrappers
  import opened Text
  import opened Decimals
  import opened ObjectIds
  import opened CommitParse
  import opened StrBufs

  datatype Outcome = Done | Rejected | Ended

  /** The text of a fresh buffer after `strbuf_attach` and `strbuf_trim`. */
  method Trimmed(s: string) returns (r: string)
    requires CString(s)
    ensures r == Strip(s)
  {
    var b := new StrBuf();
    b.Attach(s);
    NoNul(s);
    assert b.Text() == s;
    var n := b.Trim();
    r := b.buff[..b.len];
  }

  lemma NoNul(s: string)
    requires CString(s)
    ensures UpToNul(s) == s
  {
  }

  /** A result of the reading functions, with what is left given by position. */
  ghost predicate Outcomes<T(!new)>(p: Parsed<T>, outcome: Outcome, value: T, data: string, next: nat)
  {
    match p
    case Good(v, rest) => outcome == Done && v == value && next <= |data| && rest == data[next..]
    case Bad => outcome == Rejected
    case Died => outcome == Ended
  }

  method HasHeaderOid(data: string, current: nat, prefix: string) returns (has: bool)
    requires current <= |data|
    ensures has <==> !ParseOid(data[current..], prefix).Bad?
  {
    has := prefix <= data[current..] && |prefix| + GIT_HEX_OBJECT_ID + 1 <= |data| - current;
  }

  /** `parse_commit_header_oid`, with an id to fill in. */
  method ReadHeaderOid(data: string, current: nat, prefix: string) returns (outcome: Outcome, oid: Oid, next: nat)
    requires current <= |data|
    ensures Outcomes(ParseOid(data[current..], prefix), outcome, oid, data, next)
    ensures outcome == Done ==> current < next
  {
    oid, next := seq(GIT_RAW_OBJECT_ID, _ => 0), current;
    ghost var s := data[current..];
    var has := HasHeaderOid(data, current, prefix);
    if !has {
      return Rejected, oid, next;
    }
    var from := current + |prefix|;
    var raw := new Byte[GIT_RAW_OBJECT_ID];
    var died := StrToOid(raw, data[from..]);
    assert data[from..][..GIT_HEX_OBJECT_ID] == s[|prefix|..|prefix| + GIT_HEX_OBJECT_ID];
    if died {
      return Ended, oid, next;
    }
    next := from + GIT_HEX_OBJECT_ID + 1;
    assert s[|prefix| + GIT_HEX_OBJECT_ID + 1..] == data[next..];
    return Done, raw[..], next;
  }

  method HasHeaderSignature(data: string, current: nat, prefix: string) returns (has: bool)
    requires current <= |data| && CString(data)
    ensures has <==> ParseSignature(data[current..], prefix).Good?
  {
    var outcome, sig, next := ReadHeaderSignature(data, current, prefix);
    has := outcome == Done;
  }

  /** `parse_commit_header_signature` */
  method ReadHeaderSignature(data: string, current: nat, prefix: string)
    returns (outcome: Outcome, sig: Signature, next: nat)
    requires current <= |data| && CString(data)
    ensures Outcomes(ParseSignature(data[current..], prefix), outcome, sig, data, next)
    ensures outcome == Done ==> current < next && data[next - 1] == '\n'
  {
    hide ParseSigned;
    sig, next := Signature("", "", 0, 0), current;
    if !(prefix <= data[current..]) {
      return Rejected, sig, next;
    }
    var from := current + |prefix|;
    var t := data[from..];
    assert data[current..][|prefix|..] == t;
    var lf;
    outcome, sig, lf := ReadSigned(t);
    if outcome == Done {
      next := from + lf + 1;
      assert t[lf + 1..] == data[next..] && t[lf] == data[next - 1];
    }
  }

  /** The part of a signature line after its prefix; `lf` is where the line ends. */
  method ReadSigned(t: string) returns (outcome: Outcome, sig: Signature, lf: int)
    requires CString(t)
    ensures outcome == Done ==> 0 <= lf < |t| && t[lf] == '\n' && ParseSigned(t) == Good(sig, t[lf + 1..])
    ensures outcome != Done ==> outcome == Rejected && ParseSigned(t) == Bad
  {
    hide ParseStamp, Strip;
    sig, lf := Signature("", "", 0, 0), IndexOf(t, '\n');
    if lf < 0 {
      return Rejected, sig, lf;
    }
    var emailStart := IndexOf(t[..lf], '<');
    if emailStart < 0 {
      return Rejected, sig, lf;
    }
    var length := IndexOf(t[emailStart..lf], '>');
    if length < 0 {
      return Rejected, sig, lf;
    }
    var emailEnd := emailStart + length;
    var stamp := Stamp(0, 0);
    if emailEnd + 2 < lf {
      var read := ReadStamp(t, emailEnd + 2, lf);
      if read.None? {
        return Rejected, sig, lf;
      }
      stamp := read.value;
    }
    var name := Trimmed(t[..emailStart]);
    var email := "";
    if emailStart + 1 < emailEnd {
      email := Trimmed(t[emailStart + 1..emailEnd]);
    }
    return Done, Signature(name, email, stamp.time, Minutes(stamp.offset)), lf;
  }

  method ReadStamp(t: string, from: nat, lf: nat) returns (stamp: Option<Stamp>)
    requires from < lf < |t|
    ensures stamp == ParseStamp(t, from, lf)
  {
    hide StrToIMax;
    var n := StrToIMax(t[from..]);
    var tail := from + n.used;
    if tail >= |t| || !IsSpace(t[tail]) {
      return None;
    }
    var epoch, offset := n.value, 0;
    if epoch == INTMAX_MAX || epoch == INTMAX_MIN {
      epoch := 0;
    }
    if tail + 1 < lf {
      var m := StrToIMax(t[tail + 1..]);
      offset, tail := m.value, tail + 1 + m.used;
      if tail >= |t| || !IsSpace(t[tail]) {
        return None;
      }
      if offset < -2400 || offset > 2400 {
        offset := 0;
      }
    }
    return Some(Stamp(epoch, offset));
  }

  class GitCommit {
    var commitId: Oid
    var treeId: Oid
    var parents: seq<Oid>
    var author: Signature
    var committer: Signature
    var body: string

    constructor ()
      ensures parents == [] && body == ""
    {
      commitId, treeId, parents := seq(GIT_RAW_OBJECT_ID, _ => 0), seq(GIT_RAW_OBJECT_ID, _ => 0), [];
      author, committer, body := Signature("", "", 0, 0), Signature("", "", 0, 0), "";
    }

    function Value(): Commit
      reads this
    {
      Commit(commitId, treeId, parents, author, committer, body)
    }

    /** `commit_parse`: fill in all fields from the hex id and the raw text of a commit. */
    method Parse(id: string, data: string) returns (outcome: Outcome)
      requires |id| == GIT_HEX_OBJECT_ID && CString(data) && parents == []
      modifies this
      ensures match ParseCommit(id, data)
              case Good(commit, _) => outcome == Done && Value() == commit
              case Bad => outcome == Rejected
              case Died => outcome == Ended
    {
      hide HexDecode, ParseSignature, SkipAuthors, SkimHeaders, Strip, ParseOid;
      var raw := new Byte[GIT_RAW_OBJECT_ID];
      var died := StrToOid(raw, id);
      assert id[..GIT_HEX_OBJECT_ID] == id;
      if died {
        return Ended;
      }
      commitId := raw[..];
      var current;
      assert data[0..] == data;
      outcome, treeId, current := ReadHeaderOid(data, 0, "tree ");
      if outcome != Done {
        return;
      }
      outcome, current := ParseParentIds(data, current);
      if outcome != Done {
        return;
      }
      outcome, current := ParsePersons(data, current);
      if outcome != Done {
        return;
      }
      current := SkipHeaders(data, current);
      body := Trimmed(data[current..]);
    }

    /** The loop over the parent lines. */
    method ParseParentIds(data: string, start: nat) returns (outcome: Outcome, current: nat)
      requires start <= |data| && parents == []
      modifies this`parents
      ensures Outcomes(ParseParents(data[start..]), outcome, parents, data, current)
    {
      hide ParseOid;
      current := start;
      SofarNone(ParseParents(data[start..]));
      outcome := Done;
      var has := HasHeaderOid(data, current, "parent ");
      while has
        invariant outcome == Done && current <= |data| && has == !ParseOid(data[current..], "parent ").Bad?
        invariant Sofar(parents, ParseParents(data[current..])) == ParseParents(data[start..])
        decreases |data| - current
      {
        var parent, next;
        outcome, parent, next := ReadHeaderOid(data, current, "parent ");
        if outcome != Done {
          return;
        }
        SofarSnoc(parents, parent, ParseParents(data[next..]));
        current, parents := next, parents + [parent];
        has := HasHeaderOid(data, current, "parent ");
      }
      assert parents + [] == parents;
    }

    /** The author lines and the committer line. */
    method ParsePersons(data: string, start: nat) returns (outcome: Outcome, current: nat)
      requires start <= |data| && CString(data)
      modifies this`author, this`committer
      ensures Outcomes(ParsePeople(data[start..]), outcome, People(author, committer), data, current)
      ensures outcome == Done ==> 0 < current && data[current - 1] == '\n'
    {
      hide ParseSignature;
      current := start;
      outcome, author, current := ReadHeaderSignature(data, current, "author ");
      if outcome != Done {
        return;
      }
      ghost var first, theAuthor := current, author;
      var has := HasHeaderSignature(data, current, "author ");
      while has
        invariant current <= |data| && has == ParseSignature(data[current..], "author ").Good?
        invariant author == theAuthor && SkipAuthors(data[current..]) == SkipAuthors(data[first..])
        decreases |data| - current
      {
        var ignored, next;
        outcome, ignored, next := ReadHeaderSignature(data, current, "author ");
        current := next;
        has := HasHeaderSignature(data, current, "author ");
      }
      assert SkipAuthors(data[current..]) == data[current..];
      outcome, committer, current := ReadHeaderSignature(data, current, "committer ");
    }
  }

  /** Ids read before the rest. */
  function Sofar(ids: seq<Oid>, rest: Parsed<seq<Oid>>): Parsed<seq<Oid>> {
    match rest
    case Good(more, end) => Good(ids + more, end)
    case Bad => Bad
    case Died => Died
  }

  lemma SofarNone(rest: Parsed<seq<Oid>>)
    ensures Sofar([], rest) == rest
  {
    if rest.Good? {
      assert [] + rest.value == rest.value;
    }
  }

  lemma SofarSnoc(ids: seq<Oid>, id: Oid, rest: Parsed<seq<Oid>>)
    ensures Sofar(ids + [id], rest) == Sofar(ids, Sofar([id], rest))
  {
    if rest.Good? {
      assert ids + [id] + rest.value == ids + ([id] + rest.value);
    }
  }

  /** The loop that skims the other headers; it looks back at the character before the line. */
  method SkipHeaders(data: string, start: nat) returns (current: nat)
    requires 0 < start <= |data| && data[start - 1] == '\n'
    ensures current <= |data| && data[current..] == SkimHeaders(data[start..])
  {
    hide AfterLine;
    current := start;
    while current < |data|
      invariant 0 < current <= |data| && (current == |data| || data[current - 1] == '\n')
      invariant SkimHeaders(data[current..]) == SkimHeaders(data[start..])
    {
      if data[current - 1] == '\n' && data[current] == '\n' {
        break;
      }
      current := NextLine(data, current);
    }
  }

  method NextLine(data: string, current: nat) returns (next: nat)
    requires current < |data|
    ensures current < next <= |data| && (next == |data| || data[next - 1] == '\n')
    ensures AfterLine(data[current..]) == data[next..]
  {
    hide IndexOf;
    var lf := current;
    while lf < |data| && data[lf] != '\n'
      invariant current <= lf <= |data| && '\n' !in data[current..lf]
    {
      lf := lf + 1;
    }
    next := lf;
    if lf < |data| && data[lf] == '\n' {
      LineEnds(data, current, lf);
      next := lf + 1;
    } else {
      assert data[current..lf] == data[current..];
    }
  }

  lemma LineEnds(data: string, current: nat, lf: nat)
    requires current <= lf < |data| && data[lf] == '\n' && '\n' !in data[current..lf]
    ensures AfterLine(data[current..]) == data[lf + 1..]
  {
    var s := data[current..];
    IndexOfPrefix(data[current..lf], '\n', data[lf + 1..]);
    assert s == data[current..lf] + ['\n'] + data[lf + 1..];
    assert s[lf - current + 1..] == data[lf + 1..];
  }
}
