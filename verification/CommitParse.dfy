/**
  Reading a raw commit object (`commit_parse` in src/git/commit.c). The text still to be read plays the
  part of the pair of a pointer and a length.
 */
module CommitParse {
  import opened Wrappers
  import opened Text
  import opened Decimals
  import opened ObjectIds

  datatype Signature = Signature(name: string, email: string, time: int, offset: int)

  datatype Commit = Commit(commitId: Oid, treeId: Oid, parents: seq<Oid>,
                           author: Signature, committer: Signature, body: string)

  /** What was read and what is left, or a failure; an id that is not hex ends the program. */
  datatype Parsed<+T> = Good(value: T, rest: string) | Bad | Died

  // ---------- header lines ----------

  /** `has_commit_header_oid`: what follows a header line with an id, if there is one. */
  function AfterOid(s: string, prefix: string): Option<string> {
    var n := |prefix| + GIT_HEX_OBJECT_ID + 1;
    if prefix <= s && n <= |s| then Some(s[n..]) else None
  }

  /** `parse_commit_header_oid` */
  function ParseOid(s: string, prefix: string): Parsed<Oid> {
    match AfterOid(s, prefix)
    case None => Bad
    case Some(rest) =>
      var hex := s[|prefix|..|prefix| + GIT_HEX_OBJECT_ID];
      if IsHex(hex) then Good(HexDecode(hex), rest) else Died
  }

  /** The parent lines, as many as there are. */
  function ParseParents(s: string): Parsed<seq<Oid>>
    decreases |s|
  {
    match ParseOid(s, "parent ")
    case Bad => Good([], s)
    case Died => Died
    case Good(id, rest) =>
      match ParseParents(rest)
      case Good(ids, end) => Good([id] + ids, end)
      case Bad => Bad
      case Died => Died
  }

  /** Hours and minutes, as in `+0130`, to minutes, with the truncating division of C. */
  function Minutes(hhmm: int): int {
    if hhmm >= 0 then hhmm / 100 * 60 + hhmm % 100
    else 0 - ((0 - hhmm) / 100 * 60 + (0 - hhmm) % 100)
  }

  datatype Stamp = Stamp(time: int, offset: int)

  /** The time and the zone in a line that ends at `lf`, from position `from` on. */
  function ParseStamp(t: string, from: nat, lf: nat): Option<Stamp>
    requires from < lf < |t|
  {
    var n := StrToIMax(t[from..]);
    var tail := from + n.used;
    if tail >= |t| || !IsSpace(t[tail]) then None
    else
      var time := if n.value == INTMAX_MAX || n.value == INTMAX_MIN then 0 else n.value;
      if tail + 1 < lf then
        var m := StrToIMax(t[tail + 1..]);
        var end := tail + 1 + m.used;
        if end >= |t| || !IsSpace(t[end]) then None
        else Some(Stamp(time, if m.value < -2400 || m.value > 2400 then 0 else m.value))
      else Some(Stamp(time, 0))
  }

  /** A signature line after its prefix. */
  function ParseSigned(t: string): Parsed<Signature> {
    var lf := IndexOf(t, '\n');
    if lf < 0 then Bad
    else
      var start := IndexOf(t[..lf], '<');
      if start < 0 then Bad
      else
        var length := IndexOf(t[start..lf], '>');
        if length < 0 then Bad
        else
          var end := start + length;
          var stamp := if end + 2 < lf then ParseStamp(t, end + 2, lf) else Some(Stamp(0, 0));
          if stamp.None? then Bad
          else
            var email := if start + 1 < end then Strip(t[start + 1..end]) else "";
            Good(Signature(Strip(t[..start]), email, stamp.value.time, Minutes(stamp.value.offset)), t[lf + 1..])
  }

  /** `parse_commit_header_signature` */
  function ParseSignature(s: string, prefix: string): Parsed<Signature> {
    if prefix <= s then ParseSigned(s[|prefix|..]) else Bad
  }

  lemma SignatureShorter(s: string, prefix: string)
    requires ParseSignature(s, prefix).Good?
    ensures |ParseSignature(s, prefix).rest| < |s|
  {
  }

  /** Further author lines are skipped. */
  function SkipAuthors(s: string): string
    decreases |s|
  {
    match ParseSignature(s, "author ")
    case Good(_, rest) => SignatureShorter(s, "author "); SkipAuthors(rest)
    case _ => s
  }

  /** What follows the first line feed. */
  function AfterLine(s: string): (r: string)
    ensures s != "" ==> |r| < |s|
  {
    var lf := IndexOf(s, '\n');
    if lf < 0 then "" else s[lf + 1..]
  }

  /** Header lines are skipped up to the empty line in front of the body. */
  function SkimHeaders(s: string): string
    decreases |s|
  {
    if s == "" || s[0] == '\n' then s else SkimHeaders(AfterLine(s))
  }

  datatype People = People(author: Signature, committer: Signature)

  /** The author, whose line may be repeated, and the committer. */
  function ParsePeople(s: string): Parsed<People> {
    match ParseSignature(s, "author ")
    case Bad => Bad
    case Died => Died
    case Good(author, afterAuthor) =>
      match ParseSignature(SkipAuthors(afterAuthor), "committer ")
      case Bad => Bad
      case Died => Died
      case Good(committer, rest) => Good(People(author, committer), rest)
  }

  /** `commit_parse` once the commit's own id is known. */
  function ParseHeaders(id: Oid, data: string): Parsed<Commit> {
    match ParseOid(data, "tree ")
    case Bad => Bad
    case Died => Died
    case Good(tree, afterTree) =>
      match ParseParents(afterTree)
      case Bad => Bad
      case Died => Died
      case Good(parents, afterParents) =>
        match ParsePeople(afterParents)
        case Bad => Bad
        case Died => Died
        case Good(p, rest) => Good(Commit(id, tree, parents, p.author, p.committer, Strip(SkimHeaders(rest))), "")
  }

  function ParseCommit(id: string, data: string): Parsed<Commit>
    requires |id| == GIT_HEX_OBJECT_ID
  {
    if IsHex(id) then ParseHeaders(HexDecode(id), data) else Died
  }

  // ---------- the layout of a raw commit ----------

  function OidLine(prefix: string, o: Oid): string {
    prefix + HexEncode(o) + "\n"
  }

  function OidLines(os: seq<Oid>): string {
    if os == [] then "" else OidLine("parent ", os[0]) + OidLines(os[1..])
  }

  predicate IsSign(s: string) {
    s == "" || s == "-" || s == "+"
  }

  /** A number as text: a sign, or none, and digits. */
  datatype Figure = Figure(sign: string, digits: string) {

    predicate Proper() {
      IsSign(sign) && AllDigits(digits) && digits != ""
    }

    function Text(): string {
      sign + digits
    }

    function Value(): int
      requires Proper()
    {
      Signed(sign == "-", DecimalValue(digits))
    }
  }

  predicate IsBlank(c: char) {
    IsSpace(c) && c != '\n'
  }

  /**
    What stands behind the address: hardly anything; one character and a time, which may have a blank behind
    it; or one character, a time, a blank and a zone, whose digits are hours and minutes.
   */
  datatype When = Undated(filler: string) | Dated(c: char, time: Figure, blank: string)
                | Zoned(c: char, time: Figure, s: char, zone: Figure)
  {
    predicate Proper() {
      match this
      case Undated(filler) => |filler| <= 1 && '\n' !in filler
      case Dated(c, time, blank) => c != '\n' && time.Proper() && (blank == "" || (|blank| == 1 && IsBlank(blank[0])))
      case Zoned(c, time, s, zone) => c != '\n' && time.Proper() && IsBlank(s) && zone.Proper()
    }

    /** The text between the closing angle bracket and the line feed. */
    function Text(): string {
      if Undated? then filler else [c] + Stamped()
    }

    function Stamped(): string
      requires !Undated?
    {
      time.Text() + if Dated? then blank else [s] + zone.Text()
    }

    /** A time that is missing or out of range counts as zero. */
    function Time(): int
      requires Proper()
    {
      if Undated? || !(INTMAX_MIN < time.Value() < INTMAX_MAX) then 0 else time.Value()
    }

    /** The offset in minutes; one that is missing, or beyond 24 hours, counts as zero. */
    function Offset(): int
      requires Proper()
    {
      if !Zoned? then 0
      else
        var h, m := Hours(zone.digits), MinutesOfHour(zone.digits);
        if h > 24 || (h == 24 && m > 0) then 0 else if zone.sign == "-" then 0 - (60 * h + m) else 60 * h + m
    }
  }

  /** The last two digits of a zone are minutes, those in front of them are hours. */
  function MinutesOfHour(zone: string): nat
    requires AllDigits(zone)
  {
    DecimalValue(if |zone| <= 2 then zone else zone[|zone| - 2..])
  }

  function Hours(zone: string): nat
    requires AllDigits(zone)
  {
    if |zone| <= 2 then 0 else DecimalValue(zone[..|zone| - 2])
  }

  /** A number as git prints it. */
  function Printed(v: int): Figure {
    if v < 0 then Figure("-", Decimal(0 - v)) else Figure("", Decimal(v))
  }

  lemma PrintedIs(v: int)
    ensures Printed(v).Proper() && Printed(v).Value() == v
  {
    DecimalReads(if v < 0 then 0 - v else v);
  }

  /** A person and a time as they are written in a header line. */
  datatype Person = Person(name: string, email: string, date: When) {

    predicate Proper() {
      '<' !in name && '\n' !in name && '>' !in email && '\n' !in email && date.Proper()
    }

    function Meaning(): Signature
      requires Proper()
    {
      Signature(Strip(name), Strip(email), date.Time(), date.Offset())
    }

    /** The line after its prefix, without the line feed. */
    function Line(): string {
      SignatureLine(name, email, date.Text())
    }
  }

  function SignatureLine(name: string, email: string, behind: string): string {
    name + "<" + email + ">" + behind
  }

  function PersonLine(prefix: string, p: Person): string {
    prefix + p.Line() + "\n"
  }

  function AuthorLines(ps: seq<Person>): string {
    if ps == [] then "" else PersonLine("author ", ps[0]) + AuthorLines(ps[1..])
  }

  function HeaderLines(lines: seq<string>): string {
    if lines == [] then "" else lines[0] + "\n" + HeaderLines(lines[1..])
  }

  ghost predicate ProperHeaders(lines: seq<string>) {
    forall i | 0 <= i < |lines| :: lines[i] != "" && '\n' !in lines[i]
  }

  function CommitText(tree: Oid, parents: seq<Oid>, author: Person, more: seq<Person>, committer: Person,
                      headers: seq<string>, body: string): string
  {
    OidLine("tree ", tree) + (OidLines(parents) + (PersonLine("author ", author) + (AuthorLines(more) +
    (PersonLine("committer ", committer) + (HeaderLines(headers) + ("\n" + body))))))
  }

  // ---------- reading what was written ----------

  lemma OidLineReads(prefix: string, o: Oid, rest: string)
    ensures ParseOid(OidLine(prefix, o) + rest, prefix) == Good(o, rest)
  {
    var s := OidLine(prefix, o) + rest;
    DecodeEncode(o);
    assert prefix <= s;
    assert s[|prefix|..|prefix| + GIT_HEX_OBJECT_ID] == HexEncode(o);
    assert s[|prefix| + GIT_HEX_OBJECT_ID + 1..] == rest;
  }

  /** An id is read behind its prefix, with any character behind it; without a prefix or too short it is not there. */
  lemma OidReads(prefix: string, hex: string, c: char, s: string)
    requires |hex| == GIT_HEX_OBJECT_ID
    ensures ParseOid(prefix + (hex + ([c] + s)), prefix) == if IsHex(hex) then Good(HexDecode(hex), s) else Died
    ensures !(prefix <= s) || |s| < |prefix| + GIT_HEX_OBJECT_ID + 1 ==> ParseOid(s, prefix) == Bad
  {
    var t := prefix + (hex + ([c] + s));
    assert prefix <= t && t[|prefix|..|prefix| + GIT_HEX_OBJECT_ID] == hex;
    assert t[|prefix| + GIT_HEX_OBJECT_ID + 1..] == s;
  }

  lemma {:induction false} ParentsRead(os: seq<Oid>, rest: string)
    requires !("parent " <= rest)
    ensures ParseParents(OidLines(os) + rest) == Good(os, rest)
  {
    if os == [] {
      assert OidLines(os) + rest == rest;
    } else {
      assert OidLines(os) + rest == OidLine("parent ", os[0]) + (OidLines(os[1..]) + rest);
      OidLineReads("parent ", os[0], OidLines(os[1..]) + rest);
      ParentsRead(os[1..], rest);
      assert [os[0]] + os[1..] == os;
    }
  }

  lemma FigureReads(f: Figure, more: string)
    requires f.Proper() && (more == "" || !IsDigit(more[0]))
    ensures StrToIMax(f.Text() + more) == Number(Clamp(f.Value()), |f.Text()|)
  {
    hide StrToIMax;
    StrToIMaxReads(f.sign, f.digits, more);
    Assoc(f.sign, f.digits, more);
  }

  lemma Assoc(a: string, b: string, c: string)
    ensures a + b + c == a + (b + c)
  {
  }

  /** The digits of a zone are a hundred times its hours, and its minutes. */
  lemma ZoneDigits(zone: string)
    requires AllDigits(zone)
    ensures DecimalValue(zone) == 100 * Hours(zone) + MinutesOfHour(zone) && MinutesOfHour(zone) < 100
  {
    var n := |zone|;
    if n > 2 {
      var last := zone[n - 2..];
      assert zone[..n - 1][..n - 2] == zone[..n - 2] && last[..1] == [zone[n - 2]] && last[..1][..0] == "";
      assert DecimalValue(last[..1]) == DigitValue(zone[n - 2]);
    } else if n == 2 {
      assert zone[..1][..0] == "";
    }
  }

  /** Hours and minutes, as a number, in minutes. */
  lemma MinutesRead(west: bool, hours: nat, minutes: nat)
    requires minutes < 100
    ensures Minutes(Signed(west, 100 * hours + minutes)) == Signed(west, 60 * hours + minutes)
  {
    var v := 100 * hours + minutes;
    assert v / 100 == hours && v % 100 == minutes;
  }

  lemma SliceAt(t: string, from: nat, a: string, b: string)
    requires from <= |t| && t[from..] == a + b
    ensures from + |a| <= |t| && t[from + |a|..] == b
    ensures b != "" ==> t[from + |a|] == b[0]
  {
    assert t[from + |a|..] == t[from..][|a|..];
  }

  /** What reading a time and a zone gives, where they are out of range. */
  function InRange(time: int, zone: int): Stamp {
    Stamp(if time == INTMAX_MAX || time == INTMAX_MIN then 0 else time, if zone < -2400 || zone > 2400 then 0 else zone)
  }

  /** A time and a zone that are read as `time` and `zone`. */
  lemma StampReads(t: string, from: nat, timeText: string, s: char, zoneText: string, rest: string,
                   time: int, zone: int)
    requires from <= |t| && t[from..] == timeText + ([s] + (zoneText + ("\n" + rest)))
    requires zoneText != "" && IsSpace(s)
    requires StrToIMax(t[from..]) == Number(time, |timeText|)
    requires StrToIMax(zoneText + ("\n" + rest)) == Number(zone, |zoneText|)
    ensures var lf := from + |timeText| + 1 + |zoneText|;
            from < lf < |t| && ParseStamp(t, from, lf) == Some(InRange(time, zone))
  {
    var afterBlank := zoneText + ("\n" + rest);
    SliceAt(t, from, timeText, [s] + afterBlank);
    SliceAt(t, from + |timeText|, [s], afterBlank);
    SliceAt(t, from + |timeText| + 1, zoneText, "\n" + rest);
  }

  /** A time with at most a blank behind it. */
  lemma TimeStampReads(t: string, from: nat, timeText: string, blank: string, rest: string, time: int)
    requires from <= |t| && t[from..] == timeText + (blank + ("\n" + rest))
    requires timeText != "" && (blank == "" || (|blank| == 1 && IsSpace(blank[0])))
    requires StrToIMax(t[from..]) == Number(time, |timeText|)
    ensures var lf := from + |timeText| + |blank|;
            from < lf < |t| && ParseStamp(t, from, lf) == Some(InRange(time, 0))
  {
    SliceAt(t, from, timeText, blank + ("\n" + rest));
    SliceAt(t, from + |timeText|, blank, "\n" + rest);
  }

  /** The parts of a signature line, by position. */
  lemma LineParts(name: string, email: string, behind: string, rest: string)
    requires '<' !in name && '>' !in email && '\n' !in SignatureLine(name, email, behind)
    ensures var line := SignatureLine(name, email, behind);
            var t := line + "\n" + rest;
            var start, end := |name|, |name| + 1 + |email|;
            && |line| == end + 1 + |behind| && |t| == |line| + 1 + |rest|
            && IndexOf(t, '\n') == |line| && t[|line| + 1..] == rest
            && t[..start] == name && IndexOf(t[..|line|], '<') == start
            && t[start + 1..end] == email && IndexOf(t[start..|line|], '>') == end - start
            && t[end + 1..] == behind + ("\n" + rest)
  {
    var line := SignatureLine(name, email, behind);
    var t := line + "\n" + rest;
    IndexOfPrefix(line, '\n', rest);
    assert t == line + ['\n'] + rest == line + ("\n" + rest);
    assert t[..|line|] == line;
    NamePart(name, email + ">" + behind, "\n" + rest);
    EmailPart(name, email, behind, "\n" + rest);
    LineShapes(name, email, behind, "\n" + rest);
  }

  lemma LineShapes(name: string, email: string, behind: string, more: string)
    ensures SignatureLine(name, email, behind) == name + "<" + (email + ">" + behind)
    ensures (SignatureLine(name, email, behind) + more)[|name| + |email| + 2..] == behind + more
  {
  }

  lemma NamePart(name: string, tail: string, more: string)
    requires '<' !in name
    ensures var line := name + "<" + tail;
            IndexOf(line, '<') == |name| && (line + more)[..|name|] == name
  {
    assert name + "<" + tail == name + ['<'] + tail;
    IndexOfPrefix(name, '<', tail);
  }

  lemma EmailPart(name: string, email: string, tail: string, more: string)
    requires '>' !in email
    ensures var line := name + "<" + email + ">" + tail;
            var t, start := line + more, |name|;
            IndexOf(t[start..|line|], '>') == |email| + 1 && t[start + 1..start + 1 + |email|] == email
  {
    var line := name + "<" + email + ">" + tail;
    assert (line + more)[|name|..|line|] == ("<" + email) + ['>'] + tail;
    IndexOfPrefix("<" + email, '>', tail);
  }

  lemma NoFeed(p: Person)
    requires p.Proper()
    ensures '\n' !in p.Line()
  {
    if !p.date.Undated? {
      assert '\n' !in p.date.time.Text();
      assert p.date.Zoned? ==> '\n' !in p.date.zone.Text();
    }
  }

  /** A range test on hours and minutes is one on the number they make up. */
  lemma OffsetReads(w: When)
    requires w.Proper() && w.Zoned?
    ensures Minutes(InRange(0, Clamp(w.zone.Value())).offset) == w.Offset()
  {
    var d := w.zone.digits;
    ZoneDigits(d);
    MinutesRead(w.zone.sign == "-", Hours(d), MinutesOfHour(d));
  }

  lemma DatedReads(time: Figure, blank: string, t: string, from: nat, rest: string)
    requires time.Proper() && (blank == "" || (|blank| == 1 && IsBlank(blank[0])))
    requires from <= |t| && t[from..] == time.Text() + blank + ("\n" + rest)
    ensures var lf := from + |time.Text() + blank|;
            from < lf < |t| && ParseStamp(t, from, lf) == Some(InRange(Clamp(time.Value()), 0))
  {
    hide ParseStamp, StrToIMax, Clamp, InRange;
    Assoc(time.Text(), blank, "\n" + rest);
    FigureReads(time, blank + ("\n" + rest));
    TimeStampReads(t, from, time.Text(), blank, rest, Clamp(time.Value()));
  }

  lemma ZonedReads(time: Figure, s: char, zone: Figure, t: string, from: nat, rest: string)
    requires time.Proper() && zone.Proper() && IsBlank(s) && from <= |t|
    requires t[from..] == time.Text() + ([s] + zone.Text()) + ("\n" + rest)
    ensures var lf := from + |time.Text() + ([s] + zone.Text())|;
            from < lf < |t| &&
            ParseStamp(t, from, lf) == Some(InRange(Clamp(time.Value()), Clamp(zone.Value())))
  {
    hide ParseStamp, StrToIMax, Clamp, InRange;
    StampAssoc(time.Text(), [s], zone.Text(), rest);
    FigureReads(time, [s] + (zone.Text() + ("\n" + rest)));
    FigureReads(zone, "\n" + rest);
    StampReads(t, from, time.Text(), s, zone.Text(), rest, Clamp(time.Value()), Clamp(zone.Value()));
  }

  lemma WhenReads(w: When, t: string, from: nat, rest: string) returns (stamp: Stamp)
    requires w.Proper() && !w.Undated? && from <= |t| && t[from..] == w.Stamped() + ("\n" + rest)
    ensures var lf := from + |w.Stamped()|; from < lf < |t| && ParseStamp(t, from, lf) == Some(stamp)
    ensures stamp.time == w.Time() && Minutes(stamp.offset) == w.Offset()
  {
    hide ParseStamp, Minutes, Figure.Text, Figure.Value, Figure.Proper, Clamp, InRange, When.Offset;
    ClampedTime(w.time.Value());
    match w
    case Dated(_, time, blank) =>
      DatedReads(time, blank, t, from, rest);
      NoOffset(w);
      stamp := InRange(Clamp(time.Value()), 0);
    case Zoned(_, time, s, zone) =>
      ZonedReads(time, s, zone, t, from, rest);
      OffsetReads(w);
      stamp := InRange(Clamp(time.Value()), Clamp(zone.Value()));
  }

  lemma ClampedTime(time: int)
    ensures forall zone :: InRange(Clamp(time), zone).time == if INTMAX_MIN < time < INTMAX_MAX then time else 0
    ensures forall zone :: InRange(Clamp(time), zone).offset == InRange(0, zone).offset
    ensures InRange(Clamp(time), 0).offset == 0
  {
  }

  lemma StampAssoc(time: string, s: string, zone: string, rest: string)
    ensures time + (s + zone) + ("\n" + rest) == time + (s + (zone + ("\n" + rest)))
  {
  }

  lemma SignedAt(t: string, start: nat, end: nat, lf: nat, stamp: Stamp)
    requires start < end < lf < |t| && IndexOf(t, '\n') == lf
    requires IndexOf(t[..lf], '<') == start && IndexOf(t[start..lf], '>') == end - start
    requires if end + 2 < lf then ParseStamp(t, end + 2, lf) == Some(stamp) else stamp == Stamp(0, 0)
    ensures ParseSigned(t) ==
            Good(Signature(Strip(t[..start]), if start + 1 < end then Strip(t[start + 1..end]) else "",
                           stamp.time, Minutes(stamp.offset)), t[lf + 1..])
  {
    hide ParseStamp, Strip, IndexOf, Minutes;
  }

  lemma SignedReads(p: Person, rest: string)
    requires p.Proper()
    ensures ParseSigned(p.Line() + "\n" + rest) == Good(p.Meaning(), rest)
  {
    var t := p.Line() + "\n" + rest;
    var start, end, lf := |p.name|, |p.name| + 1 + |p.email|, |p.Line()|;
    hide ParseSigned, ParseStamp, When.Offset, When.Stamped, SignatureLine, Minutes, IndexOf, Strip;
    NoFeed(p);
    LineParts(p.name, p.email, p.date.Text(), rest);
    var stamp := Stamp(0, 0);
    if p.date.Undated? {
      NoOffset(p.date);
    } else {
      Assoc([p.date.c], p.date.Stamped(), "\n" + rest);
      SliceAt(t, end + 1, [p.date.c], p.date.Stamped() + ("\n" + rest));
      stamp := WhenReads(p.date, t, end + 2, rest);
    }
    SignedAt(t, start, end, lf, stamp);
    TightStrip("");
  }

  lemma NoOffset(w: When)
    requires !w.Zoned? && w.Proper()
    ensures w.Offset() == 0 == Minutes(0)
  {
  }

  lemma SignatureReads(prefix: string, p: Person, rest: string)
    requires p.Proper()
    ensures ParseSignature(PersonLine(prefix, p) + rest, prefix) == Good(p.Meaning(), rest)
  {
    PersonLineAssoc(prefix, p.Line(), rest);
    AfterPrefix(prefix, p.Line() + "\n" + rest);
    SignedReads(p, rest);
  }

  lemma AfterPrefix(prefix: string, t: string)
    ensures prefix <= prefix + t && (prefix + t)[|prefix|..] == t
  {
  }

  lemma PersonLineAssoc(prefix: string, line: string, rest: string)
    ensures prefix + line + "\n" + rest == prefix + (line + "\n" + rest)
  {
  }

  lemma {:induction false} AuthorsSkipped(ps: seq<Person>, rest: string)
    requires forall i | 0 <= i < |ps| :: ps[i].Proper()
    requires !("author " <= rest)
    ensures SkipAuthors(AuthorLines(ps) + rest) == rest
  {
    if ps == [] {
      assert AuthorLines(ps) + rest == rest;
    } else {
      assert AuthorLines(ps) + rest == PersonLine("author ", ps[0]) + (AuthorLines(ps[1..]) + rest);
      SignatureReads("author ", ps[0], AuthorLines(ps[1..]) + rest);
      AuthorsSkipped(ps[1..], rest);
    }
  }

  lemma {:induction false} HeadersSkimmed(lines: seq<string>, body: string)
    requires ProperHeaders(lines)
    ensures SkimHeaders(HeaderLines(lines) + ("\n" + body)) == "\n" + body
  {
    if lines == [] {
      assert HeaderLines(lines) + ("\n" + body) == "\n" + body;
    } else {
      var more := HeaderLines(lines[1..]) + ("\n" + body);
      var s := lines[0] + ['\n'] + more;
      assert HeaderLines(lines) + ("\n" + body) == s;
      assert s[0] == lines[0][0];
      IndexOfPrefix(lines[0], '\n', more);
      assert AfterLine(s) == more;
      HeadersSkimmed(lines[1..], body);
    }
  }

  lemma BodyStrips(body: string)
    ensures Strip("\n" + body) == Strip(body)
  {
    var a, b := StripSplits(body);
    StripMiddle("\n" + a, Strip(body), b);
    assert "\n" + body == "\n" + a + Strip(body) + b;
  }

  /** Without an empty line behind the headers there is no body. */
  lemma {:induction false} HeadersWithoutBody(lines: seq<string>, last: string)
    requires ProperHeaders(lines) && '\n' !in last
    ensures SkimHeaders(HeaderLines(lines) + last) == ""
  {
    if lines == [] {
      assert HeaderLines(lines) + last == last;
    } else {
      var more := HeaderLines(lines[1..]) + last;
      var s := lines[0] + ['\n'] + more;
      assert HeaderLines(lines) + last == s;
      assert s[0] == lines[0][0];
      IndexOfPrefix(lines[0], '\n', more);
      assert AfterLine(s) == more;
      HeadersWithoutBody(lines[1..], last);
    }
  }

  /** Reading a written commit gives back everything it was written from. */
  lemma CommitReads(id: Oid, tree: Oid, parents: seq<Oid>, author: Person, more: seq<Person>, committer: Person,
                    headers: seq<string>, body: string)
    requires author.Proper() && committer.Proper() && ProperHeaders(headers)
    requires forall i | 0 <= i < |more| :: more[i].Proper()
    ensures IsHex(HexEncode(id))
    ensures ParseCommit(HexEncode(id), CommitText(tree, parents, author, more, committer, headers, body)) ==
            Good(Commit(id, tree, parents, author.Meaning(), committer.Meaning(), Strip(body)), "")
  {
    DecodeEncode(id);
    var afterCommitter := HeaderLines(headers) + ("\n" + body);
    var afterAuthors := PersonLine("committer ", committer) + afterCommitter;
    var afterParents := PersonLine("author ", author) + (AuthorLines(more) + afterAuthors);
    OidLineReads("tree ", tree, OidLines(parents) + afterParents);
    assert afterParents[0] == 'a';
    ParentsRead(parents, afterParents);
    PeopleRead(author, more, committer, afterCommitter);
    HeadersSkimmed(headers, body);
    BodyStrips(body);
  }

  lemma PeopleRead(author: Person, more: seq<Person>, committer: Person, rest: string)
    requires author.Proper() && committer.Proper() && forall i | 0 <= i < |more| :: more[i].Proper()
    ensures ParsePeople(PersonLine("author ", author) +
                        (AuthorLines(more) + (PersonLine("committer ", committer) + rest)))
            == Good(People(author.Meaning(), committer.Meaning()), rest)
  {
    var afterAuthors := PersonLine("committer ", committer) + rest;
    assert afterAuthors[0] == 'c';
    SignatureReads("author ", author, AuthorLines(more) + afterAuthors);
    AuthorsSkipped(more, afterAuthors);
    SignatureReads("committer ", committer, rest);
  }

  // ---------- signature lines that are rejected ----------

  /** Text behind a number that is part of no number and no white space. */
  predicate Junk(digits: string, s: string) {
    s != "" && !IsSpace(s[0]) && !IsDigit(s[0]) && (digits == "" ==> s[0] != '-' && s[0] != '+')
  }

  /** A line without an address, with one that is not closed, or with junk behind its time or its zone. */
  datatype Broken =
    | NoAddress(line: string)
    | OpenAddress(name: string, email: string)
    | BadTime(name: string, email: string, c: char, sign: string, digits: string, junk: string)
    | BadZone(name: string, email: string, c: char, time: Figure, s: char, sign: string, digits: string, junk: string)
  {
    predicate Proper() {
      '\n' !in Line() &&
      match this
      case NoAddress(line) => '<' !in line
      case OpenAddress(name, email) => '<' !in name && '>' !in email
      case BadTime(name, email, _, sign, digits, junk) =>
        '<' !in name && '>' !in email && IsSign(sign) && AllDigits(digits) && Junk(digits, junk)
      case BadZone(name, email, _, time, s, sign, digits, junk) =>
        && '<' !in name && '>' !in email && time.Proper() && IsBlank(s)
        && IsSign(sign) && AllDigits(digits) && Junk(digits, junk)
    }

    function Line(): string {
      match this
      case NoAddress(line) => line
      case OpenAddress(name, email) => name + "<" + email
      case BadTime(name, email, c, sign, digits, junk) => SignatureLine(name, email, [c] + (sign + (digits + junk)))
      case BadZone(name, email, c, time, s, sign, digits, junk) =>
        SignatureLine(name, email, [c] + (time.Text() + ([s] + (sign + (digits + junk)))))
    }
  }

  /** How much of a number is used. */
  function Stop(sign: string, digits: string): nat {
    if digits == "" then 0 else |sign| + |digits|
  }

  /** Reading a number stops in front of junk, or at once if there are no digits. */
  lemma JunkStops(sign: string, digits: string, junk: string)
    requires IsSign(sign) && AllDigits(digits) && Junk(digits, junk)
    ensures var s := sign + (digits + junk);
            StrToIMax(s).used == Stop(sign, digits) < |s| && !IsSpace(s[Stop(sign, digits)])
  {
    if digits != "" {
      StrToIMaxReads(sign, digits, junk);
      assert (sign + (digits + junk))[|sign| + |digits|] == junk[0];
    } else {
      assert digits + junk == junk;
      NoNumber(sign, junk);
    }
  }

  lemma NoNumber(sign: string, junk: string)
    requires IsSign(sign) && Junk("", junk)
    ensures StrToIMax(sign + junk).used == 0 && !IsSpace((sign + junk)[0])
  {
    var s := sign + junk;
    assert StripLeft(s) == s;
    assert s[|sign|..] == junk && DigitRun(junk) == 0;
    if sign == "" {
      assert s == junk && s[0..] == s;
    }
  }

  lemma TimeRejected(t: string, from: nat, lf: nat, sign: string, digits: string, junk: string)
    requires IsSign(sign) && AllDigits(digits) && Junk(digits, junk)
    requires from < lf < |t| && t[from..] == sign + (digits + junk)
    ensures ParseStamp(t, from, lf) == None
  {
    hide StrToIMax;
    JunkStops(sign, digits, junk);
    assert t[from + Stop(sign, digits)] == t[from..][Stop(sign, digits)];
  }

  lemma ZoneRejected(t: string, from: nat, lf: nat, time: Figure, s: char, sign: string, digits: string, junk: string)
    requires time.Proper() && IsBlank(s) && IsSign(sign) && AllDigits(digits) && Junk(digits, junk)
    requires t != "" && from <= |t| && t[from..] == time.Text() + ([s] + (sign + (digits + junk)))
    requires from + |time.Text()| + 1 < lf < |t|
    ensures ParseStamp(t, from, lf) == None
  {
    hide StrToIMax, Figure.Text, ParseStamp;
    var zone := sign + (digits + junk);
    FigureReads(time, [s] + zone);
    SliceAt(t, from, time.Text(), [s] + zone);
    SliceAt(t, from + |time.Text()|, [s], zone);
    JunkStops(sign, digits, junk);
    ZoneStops(t, from, lf, |time.Text()|, zone, Stop(sign, digits));
  }

  lemma ZoneStops(t: string, from: nat, lf: nat, used: nat, zone: string, stop: nat)
    requires from < lf < |t| && from + used + 1 < lf && StrToIMax(t[from..]).used == used && IsSpace(t[from + used])
    requires t[from + used + 1..] == zone && StrToIMax(zone).used == stop < |zone| && !IsSpace(zone[stop])
    ensures ParseStamp(t, from, lf) == None
  {
    hide StrToIMax;
    assert t[from + used + 1 + stop] == t[from + used + 1..][stop];
  }

  lemma RejectedAt(t: string, start: nat, end: nat, lf: nat)
    requires start < end < lf < |t| && IndexOf(t, '\n') == lf && end + 2 < lf
    requires IndexOf(t[..lf], '<') == start && IndexOf(t[start..lf], '>') == end - start
    requires ParseStamp(t, end + 2, lf) == None
    ensures ParseSigned(t) == Bad
  {
    hide ParseStamp, IndexOf, Minutes, Strip;
  }

  lemma JunkMore(digits: string, junk: string, more: string)
    requires Junk(digits, junk)
    ensures junk != "" && Junk(digits, junk + more)
  {
    assert (junk + more)[0] == junk[0];
  }

  lemma BadTimeRejected(b: Broken, rest: string)
    requires b.Proper() && b.BadTime?
    ensures ParseSigned(b.Line() + "\n" + rest) == Bad
  {
    hide ParseSigned, ParseStamp, SignatureLine, IndexOf;
    var more := "\n" + rest;
    var t, start, end := b.Line() + "\n" + rest, |b.name|, |b.name| + 1 + |b.email|;
    LineParts(b.name, b.email, [b.c] + (b.sign + (b.digits + b.junk)), rest);
    Behind([b.c], b.sign, b.digits, b.junk, more);
    SliceAt(t, end + 1, [b.c], b.sign + (b.digits + (b.junk + more)));
    JunkMore(b.digits, b.junk, more);
    TimeRejected(t, end + 2, |b.Line()|, b.sign, b.digits, b.junk + more);
    RejectedAt(t, start, end, |b.Line()|);
  }

  lemma BadZoneRejected(b: Broken, rest: string)
    requires b.Proper() && b.BadZone?
    ensures ParseSigned(b.Line() + "\n" + rest) == Bad
  {
    hide ParseSigned, ParseStamp, SignatureLine, IndexOf, Figure.Text, Junk, IsSign, AllDigits, IsBlank;
    var more, time := "\n" + rest, b.time.Text();
    var behind := [b.c] + (time + ([b.s] + (b.sign + (b.digits + b.junk))));
    var t, end := SignatureLine(b.name, b.email, behind) + "\n" + rest, |b.name| + 1 + |b.email|;
    LineParts(b.name, b.email, behind, rest);
    ZoneBehind([b.c], time, [b.s], b.sign, b.digits, b.junk, more);
    JunkMore(b.digits, b.junk, more);
    ZoneAt(t, end + 1, |b.Line()|, b.c, b.time, b.s, b.sign, b.digits, b.junk + more);
    RejectedAt(t, |b.name|, end, |b.Line()|);
  }

  lemma ZoneAt(t: string, from: nat, lf: nat, c: char, time: Figure, s: char,
               sign: string, digits: string, junk: string)
    requires time.Proper() && IsBlank(s) && IsSign(sign) && AllDigits(digits) && Junk(digits, junk)
    requires from <= |t| && t[from..] == [c] + (time.Text() + ([s] + (sign + (digits + junk))))
    requires from + 1 + |time.Text()| + 1 < lf < |t|
    ensures ParseStamp(t, from + 1, lf) == None
  {
    hide ParseStamp, Figure.Text;
    SliceAt(t, from, [c], time.Text() + ([s] + (sign + (digits + junk))));
    ZoneRejected(t, from + 1, lf, time, s, sign, digits, junk);
  }

  lemma Behind(first: string, sign: string, digits: string, junk: string, more: string)
    ensures first + (sign + (digits + junk)) + more == first + (sign + (digits + (junk + more)))
  {
  }

  lemma ZoneBehind(c: string, time: string, s: string, sign: string, digits: string, junk: string, more: string)
    ensures c + (time + (s + (sign + (digits + junk)))) + more == c + (time + (s + (sign + (digits + (junk + more)))))
  {
    Behind(c, time, s + (sign + (digits + junk)), "", more);
    Behind(s, sign, digits, junk, more);
    assert s + (sign + (digits + junk)) + "" == s + (sign + (digits + junk)) && "" + more == more;
  }

  /** A broken line is rejected, and so is a text without a line feed. */
  lemma SignatureRejected(b: Broken, rest: string)
    requires b.Proper()
    ensures ParseSigned(b.Line() + "\n" + rest) == Bad
  {
    var line := b.Line();
    var t := line + "\n" + rest;
    match b
    case BadTime(_, _, _, _, _, _) => BadTimeRejected(b, rest);
    case BadZone(_, _, _, _, _, _, _, _) => BadZoneRejected(b, rest);
    case NoAddress(_) =>
      IndexOfPrefix(line, '\n', rest);
      assert t == line + ['\n'] + rest && t[..|line|] == line;
    case OpenAddress(name, email) =>
      IndexOfPrefix(line, '\n', rest);
      assert t == line + ['\n'] + rest && t[..|line|] == line;
      NamePart(name, email, "");
      assert t[|name|..|line|] == "<" + email;
  }

  /** Where a signature line is expected there is another one, a broken one, or one that does not end. */
  ghost predicate BrokenAs(prefix: string, s: string) {
    || !(prefix <= s)
    || '\n' !in s
    || exists b: Broken, rest: string :: b.Proper() && s == prefix + (b.Line() + "\n" + rest)
  }

  lemma BrokenIsBad(prefix: string, s: string)
    requires BrokenAs(prefix, s)
    ensures ParseSignature(s, prefix) == Bad
  {
    hide Broken.Line, Broken.Proper;
    if prefix <= s {
      if '\n' !in s {
        assert '\n' !in s[|prefix|..];
      } else {
        var b: Broken, rest: string :| b.Proper() && s == prefix + (b.Line() + "\n" + rest);
        AfterPrefix(prefix, b.Line() + "\n" + rest);
        SignatureRejected(b, rest);
      }
    }
  }

  /** Without a tree line a commit is rejected, and an id that is not hex ends the program. */
  lemma TreeRejected(id: Oid, hex: string, data: string)
    requires |hex| == GIT_HEX_OBJECT_ID && !IsHex(hex)
    ensures IsHex(HexEncode(id))
    ensures !("tree " <= data) || |data| < 46 ==> ParseCommit(HexEncode(id), data) == Bad
    ensures ParseCommit(hex, data) == Died && ParseCommit(HexEncode(id), "tree " + hex + "\n" + data) == Died
  {
    DecodeEncode(id);
    var t := "tree " + hex + "\n" + data;
    assert t[5..45] == hex;
  }

  /** A commit is rejected if the line behind its parents is no author line, or a broken one. */
  lemma AuthorRejected(id: Oid, tree: Oid, parents: seq<Oid>, rest: string)
    requires !("parent " <= rest) && BrokenAs("author ", rest)
    ensures IsHex(HexEncode(id))
    ensures ParseCommit(HexEncode(id), OidLine("tree ", tree) + (OidLines(parents) + rest)) == Bad
  {
    DecodeEncode(id);
    OidLineReads("tree ", tree, OidLines(parents) + rest);
    ParentsRead(parents, rest);
    BrokenIsBad("author ", rest);
  }

  /** A commit is rejected if the line behind its authors is no committer line, or a broken one. */
  lemma CommitterRejected(id: Oid, tree: Oid, parents: seq<Oid>, author: Person, more: seq<Person>, rest: string)
    requires author.Proper() && forall i | 0 <= i < |more| :: more[i].Proper()
    requires !("author " <= rest) && BrokenAs("committer ", rest)
    ensures IsHex(HexEncode(id))
    ensures ParseCommit(HexEncode(id), OidLine("tree ", tree) +
              (OidLines(parents) + (PersonLine("author ", author) + (AuthorLines(more) + rest)))) == Bad
  {
    hide ParseSignature, ParseOid, ParseParents, SkipAuthors;
    DecodeEncode(id);
    var people := PersonLine("author ", author) + (AuthorLines(more) + rest);
    OidLineReads("tree ", tree, OidLines(parents) + people);
    assert people[0] == 'a';
    ParentsRead(parents, people);
    SignatureReads("author ", author, AuthorLines(more) + rest);
    AuthorsSkipped(more, rest);
    BrokenIsBad("committer ", rest);
  }
}
