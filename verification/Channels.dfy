/**
  Listing channels (src/builtin/channel-list.c): taking a ref apart, dropping remote channels that shadow a
  local one, and printing the rest in groups. Entries are deleted from the list while it is walked.
 */
module Channels {
  import opened Wrappers
  import opened StrArrays
  import opened Splits
  import opened ObjectIds
  import opened Filters

  // ---------- refs ----------

  datatype Ref = Ref(origin: Option<string>, name: string)

  /** `parse_ref`: the origin of a remote ref, and the rest of the name. */
  function ParseRef(full: string, remote: bool): Option<Ref> {
    var parts := Split(full, "/");
    if remote then
      if |parts| < 4 then None else Some(Ref(Some(parts[2]), Join(parts[3..], "/")))
    else
      if |parts| < 3 then None else Some(Ref(None, Join(parts[2..], "/")))
  }

  function Rejoined(a: string, b: string, r: Ref): string {
    a + "/" + (b + "/" + (if r.origin.Some? then r.origin.value + "/" + r.name else r.name))
  }

  /** The origin has no slash, and the parts of a ref rejoin to it behind two components without slashes. */
  lemma ParseRefRejoins(full: string, remote: bool) returns (a: string, b: string)
    requires ParseRef(full, remote).Some?
    ensures var r := ParseRef(full, remote).value;
            && '/' !in a && '/' !in b && (r.origin.Some? ==> '/' !in r.origin.value)
            && r.origin.Some? == remote
            && full == Rejoined(a, b, r)
  {
    var parts := Split(full, "/");
    SplitClean(full, "/");
    JoinSplit(full, "/");
    NoSlash(parts[0]);
    NoSlash(parts[1]);
    NoSlash(parts[2]);
    a, b := parts[0], parts[1];
    JoinFrom(parts, 0);
    JoinFrom(parts, 1);
    if remote {
      JoinFrom(parts, 2);
    }
    assert parts[0..] == parts;
  }

  lemma JoinFrom(parts: seq<string>, i: nat)
    requires i + 1 < |parts|
    ensures Join(parts[i..], "/") == parts[i] + "/" + Join(parts[i + 1..], "/")
  {
    assert parts[i..][0] == parts[i] && parts[i..][1..] == parts[i + 1..];
  }

  lemma NoSlash(s: string)
    ensures !Contains(s, "/") ==> '/' !in s
  {
    if '/' in s {
      var i :| 0 <= i < |s| && s[i] == '/';
      assert s[i..][0] == '/';
    }
  }

  lemma SplitFront(a: string, t: string)
    requires '/' !in a
    ensures Split(a + "/" + t, "/") == [a] + Split(t, "/")
  {
    FindChar(a, '/', "/" + t);
    assert a + "/" + t == a + ("/" + t);
    assert (a + "/" + t)[..|a|] == a && (a + "/" + t)[|a| + 1..] == t;
  }

  /** Every well-formed ref is taken apart as it was put together; its name may have slashes. */
  lemma ParseRefReads(a: string, b: string, r: Ref)
    requires '/' !in a && '/' !in b && (r.origin.Some? ==> '/' !in r.origin.value)
    ensures ParseRef(Rejoined(a, b, r), r.origin.Some?) == Some(r)
  {
    hide Split, Join;
    var last := Split(r.name, "/");
    JoinSplit(r.name, "/");
    if r.origin.Some? {
      var o := r.origin.value;
      SplitFront(a, b + "/" + (o + "/" + r.name));
      SplitFront(b, o + "/" + r.name);
      SplitFront(o, r.name);
      var parts := [a] + ([b] + ([o] + last));
      assert parts[2] == o && parts[3..] == last;
    } else {
      SplitFront(a, b + "/" + r.name);
      SplitFront(b, r.name);
      var parts := [a] + ([b] + last);
      assert parts[2..] == last;
    }
  }

  method ParseRefInto(full: string, remote: bool) returns (ref: Option<Ref>)
    ensures ref == ParseRef(full, remote)
  {
    hide Split, Join, Collapsed, Plains;
    var components := new StrArray();
    var n := StrbufSplit(full, "/", components);
    ghost var parts := Split(full, "/");
    assert components.Contents() == Plains(parts);
    var dropped, origin := 2, None;
    if remote {
      if components.len < 4 {
        return None;
      }
      assert components.Contents()[2] == Plain(parts[2]);
      origin, dropped := components.entries[2].text, 3;
    } else if components.len < 3 {
      return None;
    }
    var name := CollapseRest(components, dropped, parts);
    return Some(Ref(origin, name));
  }

  /** Drop the first components and put the others together again. */
  method CollapseRest(components: StrArray, dropped: nat, ghost parts: seq<string>) returns (name: string)
    requires components.Valid() && components.Contents() == Plains(parts) && dropped < |parts|
    modifies components`len, components.entries
    ensures name == Join(parts[dropped..], "/")
  {
    hide Join, Collapsed;
    components.Delete(0, dropped);
    PlainsFrom(parts, dropped);
    CollapsedJoins(parts[dropped..], "/");
    var buffer, end := CollapseDelim(components, "/");
    return buffer[..buffer.Length - 1];
  }

  lemma PlainsFrom(parts: seq<string>, n: nat)
    requires n < |parts|
    ensures Without(Plains(parts), 0, n) == Plains(parts[n..]) && NoNulls(Plains(parts[n..]))
  {
  }

  // ---------- channels ----------

  datatype Channel = Channel(oid: Oid, full: string, short: Option<string>, origin: Option<string>,
                             remote: bool, current: bool, messages: int, name: Option<string>, desc: Option<string>)

  /** What printing reads without a test: the origin of a remote channel. */
  ghost predicate OriginsKnown(cs: seq<Channel>) {
    forall i | 0 <= i < |cs| && cs[i].remote :: cs[i].origin.Some?
  }

  /**
    Comparing a channel with those in a list reads short names without a test: those of the channel and of
    each local one at the same commit, up to the first that has the same name.
   */
  predicate Comparable(detail: Channel, cs: seq<Channel>) {
    cs != [] ==>
      if cs[0].remote || cs[0].oid != detail.oid then Comparable(detail, cs[1..])
      else detail.short.Some? && cs[0].short.Some? && (cs[0].short == detail.short || Comparable(detail, cs[1..]))
  }

  ghost predicate AllComparable(cs: seq<Channel>) {
    forall i | 0 <= i < |cs| && cs[i].remote :: Comparable(cs[i], cs)
  }

  /** A local channel at the same commit with the same short name as a remote one. */
  predicate Shadows(remote: Channel, c: Channel) {
    !c.remote && c.oid == remote.oid && c.short == remote.short
  }

  predicate Uninteresting(c: Channel, all: seq<Channel>) {
    c.remote && exists i | 0 <= i < |all| :: Shadows(c, all[i])
  }

  /** The channels left by `filter_uninteresting_remote_channels`. */
  function Interesting(cs: seq<Channel>): seq<Channel> {
    Filter(cs, c => !Uninteresting(c, cs))
  }

  /** Some local channel of the list is at the same commit and has the same short name, or neither has one. */
  ghost predicate HidesBehind(c: Channel, cs: seq<Channel>) {
    exists d: Channel :: d in cs && !d.remote && d.oid == c.oid && d.short == c.short
  }

  lemma UninterestingIs(c: Channel, cs: seq<Channel>)
    ensures Uninteresting(c, cs) <==> c.remote && HidesBehind(c, cs)
  {
    if i :| 0 <= i < |cs| && Shadows(c, cs[i]) {
      assert cs[i] in cs && !cs[i].remote;
    }
    if d: Channel :| d in cs && !d.remote && d.oid == c.oid && d.short == c.short {
      var i :| 0 <= i < |cs| && cs[i] == d;
      assert c.remote ==> Shadows(c, cs[i]);
    }
  }

  /**
    Local channels stay, each as often as it was there, and so do remote ones with no local channel of the
    same name at the same commit; all others go, and none that is left hides behind a local one.
   */
  lemma NothingShadows(cs: seq<Channel>, c: Channel)
    ensures multiset(Interesting(cs))[c] == if c.remote && HidesBehind(c, cs) then 0 else multiset(cs)[c]
    ensures c in Interesting(cs) && c.remote ==> !HidesBehind(c, Interesting(cs))
  {
    UninterestingIs(c, cs);
    UninterestingIs(c, Interesting(cs));
    FilterKeeps(cs, c => !Uninteresting(c, cs), c);
    forall d | d in Interesting(cs)
      ensures d in cs
    {
      FilterKeeps(cs, c => !Uninteresting(c, cs), d);
      assert d in multiset(Interesting(cs)) ==> d in multiset(cs);
    }
    if i :| 0 <= i < |Interesting(cs)| && Shadows(c, Interesting(cs)[i]) {
      assert Interesting(cs)[i] in cs;
      var j :| 0 <= j < |cs| && cs[j] == Interesting(cs)[i];
      assert Shadows(c, cs[j]);
    }
    assert c in cs ==> c in multiset(cs);
    assert c in multiset(Interesting(cs)) ==> c in Interesting(cs);
  }

  class ChannelArray {
    var refs: seq<Channel>

    constructor (refs: seq<Channel>)
      ensures this.refs == refs
    {
      this.refs := refs;
    }

    /** `str_array_delete` of one entry. */
    method Delete(i: nat)
      requires i < |refs|
      modifies this
      ensures refs == old(refs[..i] + refs[i + 1..])
    {
      refs := refs[..i] + refs[i + 1..];
    }

    /** `filter_uninteresting_remote_channels` */
    method FilterUninteresting()
      requires AllComparable(refs)
      modifies this
      ensures refs == Interesting(old(refs))
    {
      hide Walked, SameLocals, AllComparable, Interesting;
      ghost var was, kept, k, p := refs, [], 0, c => !Uninteresting(c, old(refs));
      WalkStart(was, p);
      AllLocals(was);
      InterestingIs(was, p);
      var i := 0;
      while i < |refs|
        invariant i == |kept| && k <= |was| && Walked(refs, was, kept, k, p)
        invariant SameLocals(refs, was) && AllComparable(refs)
        decreases |was| - k
      {
        i, kept := FilterOne(i, was, kept, k, p);
        k := k + 1;
      }
      WalkEnd(refs, was, kept, k, p);
    }

    /** One round of the outer loop: go on, or delete the entry. */
    method FilterOne(i: nat, ghost was: seq<Channel>, ghost kept: seq<Channel>, ghost k: nat, ghost p: Channel -> bool)
      returns (next: nat, ghost more: seq<Channel>)
      requires i == |kept| < |refs| && Walked(refs, was, kept, k, p) && forall c :: p(c) == !Uninteresting(c, was)
      requires SameLocals(refs, was) && AllComparable(refs)
      modifies this
      ensures k < |was| && next == |more| && Walked(refs, was, more, k + 1, p)
      ensures SameLocals(refs, was) && AllComparable(refs)
    {
      hide Walked, SameLocals, AllComparable, Uninteresting;
      WalkStep(refs, was, kept, k, p);
      var shadows := IsShadow(i, was);
      if shadows {
        LocalsStay(refs, i, was);
        StillComparable(refs, i);
        Delete(i);
        return i, kept;
      }
      return i + 1, kept + [refs[i]];
    }

    /** Is the channel at position `i` a remote one that shadows a local one? */
    method IsShadow(i: nat, ghost was: seq<Channel>) returns (shadows: bool)
      requires i < |refs| && SameLocals(refs, was) && AllComparable(refs)
      ensures shadows <==> Uninteresting(refs[i], was)
      ensures shadows ==> refs[i].remote
    {
      hide SameLocals, Shadows, Uninteresting, Comparable;
      shadows := false;
      if refs[i].remote {
        shadows := HasLocal(refs[i]);
      }
      LocalsDecide(refs[i], refs, was);
    }

    /** The inner loop: is there a local channel that the given one shadows? */
    method HasLocal(detail: Channel) returns (shadows: bool)
      requires Comparable(detail, refs)
      ensures shadows <==> exists j | 0 <= j < |refs| :: Shadows(detail, refs[j])
    {
      assert refs[0..] == refs;
      for j := 0 to |refs|
        invariant Comparable(detail, refs[j..])
        invariant forall m | 0 <= m < j :: !Shadows(detail, refs[m])
      {
        assert refs[j..][0] == refs[j] && refs[j..][1..] == refs[j + 1..];
        if refs[j].remote {
          continue;
        }
        if refs[j].oid != detail.oid {
          continue;
        }
        if refs[j].short.value != detail.short.value {
          continue;
        }
        return true;
      }
      return false;
    }

    /** `print_channels`: the selected channels are printed and taken out of the list. */
    method PrintChannels(remote: bool, origin: Option<string>, out: seq<Line>) returns (printed: seq<Line>)
      requires OriginsKnown(refs)
      modifies this
      ensures printed == out + Rows(Filter(old(refs), c => Picked(c, remote, origin)))
      ensures refs == Filter(old(refs), c => !Picked(c, remote, origin))
    {
      hide Filter, Walked, Rows;
      printed := out;
      ghost var was, kept, k := refs, [], 0;
      ghost var p, q := (c: Channel) => !Picked(c, remote, origin), (c: Channel) => Picked(c, remote, origin);
      WalkStart(was, p);
      RowsStart(was, out, q);
      var i := 0;
      while i < |refs|
        invariant i == |kept| && k <= |was| && Walked(refs, was, kept, k, p)
        invariant printed == out + Rows(Filter(was[..k], q))
        decreases |was| - k
      {
        var detail := refs[i];
        WalkStep(refs, was, kept, k, p);
        FilterSnoc(was[..k], was[k], q);
        RowsSnoc(Filter(was[..k], q), detail, out);
        k := k + 1;
        if remote != detail.remote || (remote && origin != detail.origin) {
          kept := kept + [detail];
          i := i + 1;
          continue;
        }
        printed := printed + [Row(detail)];
        Delete(i);
      }
      WalkEnd(refs, was, kept, k, p);
    }

    /** The printing part of `channel_list`. */
    method List() returns (printed: seq<Line>)
      requires OriginsKnown(refs)
      modifies this
      ensures printed == Listing(old(refs)) && refs == []
    {
      hide Filter, Rows, ByGroup;
      ghost var all := Listing(refs);
      ListingStart(refs);
      printed := PrintChannels(false, None, [LocalHeading]);
      while |refs| > 0
        invariant OriginsKnown(refs) && (forall c | c in refs :: c.remote)
        invariant all == printed + ByGroup(refs)
        decreases |refs|
      {
        var detail := refs[0];
        assert detail in refs;
        ghost var was, before := refs, printed;
        var origin := detail.origin.value;
        GroupStep(refs, printed);
        printed := PrintChannels(true, Some(origin), printed + [RemoteHeading(origin)]);
      }
      GroupsEnd(printed);
    }
  }

  // ---------- what the filtering loop relies on ----------

  /** The local channels are never taken out. */
  ghost predicate SameLocals(now: seq<Channel>, was: seq<Channel>) {
    forall c: Channel | !c.remote :: c in now <==> c in was
  }

  lemma InterestingIs(cs: seq<Channel>, p: Channel -> bool)
    requires forall c :: p(c) == !Uninteresting(c, cs)
    ensures Interesting(cs) == Filter(cs, p)
  {
    FilterSame(cs, c => !Uninteresting(c, cs), p);
  }

  lemma AllLocals(cs: seq<Channel>)
    ensures SameLocals(cs, cs)
  {
  }

  lemma LocalsDecide(detail: Channel, now: seq<Channel>, was: seq<Channel>)
    requires SameLocals(now, was)
    ensures Uninteresting(detail, was) <==> detail.remote && exists j | 0 <= j < |now| :: Shadows(detail, now[j])
  {
    if detail.remote {
      if j :| 0 <= j < |now| && Shadows(detail, now[j]) {
        assert now[j] in was;
        var m :| 0 <= m < |was| && was[m] == now[j];
        assert Shadows(detail, was[m]);
      }
      if m :| 0 <= m < |was| && Shadows(detail, was[m]) {
        assert was[m] in now;
        var j :| 0 <= j < |now| && now[j] == was[m];
        assert Shadows(detail, now[j]);
      }
    }
  }

  /** Taking out a remote channel does not change what is compared. */
  lemma {:induction false} ComparableWithout(detail: Channel, a: seq<Channel>, c: Channel, b: seq<Channel>)
    requires c.remote
    ensures Comparable(detail, a + [c] + b) == Comparable(detail, a + b)
  {
    var with, without := a + [c] + b, a + b;
    if a == [] {
      assert with[0] == c && with[1..] == without;
    } else {
      assert with[0] == without[0] == a[0] && with[1..] == a[1..] + [c] + b && without[1..] == a[1..] + b;
      ComparableWithout(detail, a[1..], c, b);
    }
  }

  lemma StillComparable(cs: seq<Channel>, i: nat)
    requires i < |cs| && cs[i].remote && AllComparable(cs)
    ensures AllComparable(cs[..i] + cs[i + 1..])
  {
    hide Comparable;
    var cut := cs[..i] + cs[i + 1..];
    assert cs == cs[..i] + [cs[i]] + cs[i + 1..];
    forall m | 0 <= m < |cut| && cut[m].remote
      ensures Comparable(cut[m], cut)
    {
      assert cut[m] == cs[if m < i then m else m + 1];
      ComparableWithout(cut[m], cs[..i], cs[i], cs[i + 1..]);
    }
  }

  lemma LocalsStay(now: seq<Channel>, i: nat, was: seq<Channel>)
    requires i < |now| && now[i].remote && SameLocals(now, was)
    ensures SameLocals(now[..i] + now[i + 1..], was)
  {
    var cut := now[..i] + now[i + 1..];
    assert now == now[..i] + [now[i]] + now[i + 1..];
    assert forall c: Channel | !c.remote :: c in now <==> c in cut;
  }

  // ---------- what is printed ----------

  datatype Line = LocalHeading | RemoteHeading(origin: string) | Row(channel: Channel)

  function Rows(cs: seq<Channel>): seq<Line> {
    if cs == [] then [] else [Row(cs[0])] + Rows(cs[1..])
  }

  predicate Picked(c: Channel, remote: bool, origin: Option<string>) {
    c.remote == remote && (remote ==> c.origin == origin)
  }

  /** The groups of remote channels, each by the origin of the first channel left. */
  function ByGroup(cs: seq<Channel>): seq<Line>
    decreases |cs|
  {
    if cs == [] then []
    else
      var o := cs[0].origin;
      var p, q := (c: Channel) => Picked(c, true, o), (c: Channel) => !Picked(c, true, o);
      if cs[0].remote && o.Some? then
        RestShorter(cs, q);
        [RemoteHeading(o.value)] + Rows(Filter(cs, p)) + ByGroup(Filter(cs, q))
      else []
  }

  lemma RestShorter<T>(s: seq<T>, q: T -> bool)
    requires s != [] && !q(s[0])
    ensures |Filter(s, q)| < |s|
  {
  }

  function Listing(cs: seq<Channel>): seq<Line> {
    [LocalHeading] + Rows(Filter(cs, c => Picked(c, false, None))) + ByGroup(Filter(cs, c => !Picked(c, false, None)))
  }

  lemma ListingStart(cs: seq<Channel>)
    requires OriginsKnown(cs)
    ensures var rest := Filter(cs, c => !Picked(c, false, None));
            OriginsKnown(rest) && forall c | c in rest :: c.remote
  {
    FilterNamed(cs, c => !Picked(c, false, None));
  }

  lemma {:induction false} FilterIn<T>(s: seq<T>, p: T -> bool, x: T)
    ensures x in Filter(s, p) <==> x in s && p(x)
  {
    if s != [] {
      assert s == [s[0]] + s[1..];
      FilterIn(s[1..], p, x);
    }
  }

  lemma FilterNamed(cs: seq<Channel>, p: Channel -> bool)
    requires OriginsKnown(cs)
    ensures OriginsKnown(Filter(cs, p)) && forall c | c in Filter(cs, p) :: c in cs
  {
    forall c | c in Filter(cs, p)
      ensures c in cs
    {
      FilterIn(cs, p, c);
    }
    assert forall c | c in cs :: c.remote ==> c.origin.Some?;
    assert forall i | 0 <= i < |Filter(cs, p)| :: Filter(cs, p)[i] in Filter(cs, p);
  }

  lemma RowsStart(was: seq<Channel>, out: seq<Line>, q: Channel -> bool)
    ensures out == out + Rows(Filter(was[..0], q))
  {
  }

  lemma {:induction false} RowsConcat(a: seq<Channel>, b: seq<Channel>)
    ensures Rows(a + b) == Rows(a) + Rows(b)
  {
    if a == [] {
      assert a + b == b;
    } else {
      assert (a + b)[1..] == a[1..] + b;
      RowsConcat(a[1..], b);
    }
  }

  lemma RowsSnoc(cs: seq<Channel>, c: Channel, out: seq<Line>)
    ensures out + Rows(cs + [c]) == out + Rows(cs) + [Row(c)] && cs + [] == cs
  {
    RowsConcat(cs, [c]);
    assert [c][1..] == [];
    assert Rows([c]) == [Row(c)];
    Assoc(out, Rows(cs), [Row(c)]);
  }

  lemma GroupsEnd(printed: seq<Line>)
    ensures printed + ByGroup([]) == printed
  {
  }

  lemma GroupStep(cs: seq<Channel>, printed: seq<Line>)
    requires cs != [] && OriginsKnown(cs) && forall c | c in cs :: c.remote
    ensures var o := cs[0].origin;
            var rest := Filter(cs, c => !Picked(c, true, o));
            && o.Some? && OriginsKnown(rest) && (forall c | c in rest :: c.remote) && |rest| < |cs|
            && printed + ByGroup(cs) ==
               printed + [RemoteHeading(o.value)] + Rows(Filter(cs, c => Picked(c, true, o))) + ByGroup(rest)
  {
    hide Filter, Rows;
    var o := cs[0].origin;
    assert cs[0] in cs;
    FilterNamed(cs, c => !Picked(c, true, o));
    RestShorter(cs, c => !Picked(c, true, o));
    var a, b := [RemoteHeading(o.value)], Rows(Filter(cs, c => Picked(c, true, o)));
    var d := ByGroup(Filter(cs, c => !Picked(c, true, o)));
    assert printed + (a + b + d) == printed + a + b + d;
  }

  // ---------- every channel once, in groups by first appearance ----------

  function ChannelsIn(lines: seq<Line>): seq<Channel> {
    if lines == [] then []
    else (if lines[0].Row? then [lines[0].channel] else []) + ChannelsIn(lines[1..])
  }

  lemma {:induction false} ChannelsInConcat(a: seq<Line>, b: seq<Line>)
    ensures ChannelsIn(a + b) == ChannelsIn(a) + ChannelsIn(b)
  {
    if a == [] {
      assert a + b == b;
    } else {
      assert (a + b)[0] == a[0] && (a + b)[1..] == a[1..] + b;
      ChannelsInConcat(a[1..], b);
      var head := if a[0].Row? then [a[0].channel] else [];
      assert head + ChannelsIn(a[1..]) + ChannelsIn(b) == head + (ChannelsIn(a[1..]) + ChannelsIn(b));
    }
  }

  lemma {:induction false} ChannelsInRows(cs: seq<Channel>)
    ensures ChannelsIn(Rows(cs)) == cs
  {
    if cs != [] {
      assert Rows(cs)[1..] == Rows(cs[1..]);
      ChannelsInRows(cs[1..]);
    }
  }

  lemma {:induction false} GroupsOnce(cs: seq<Channel>, c: Channel)
    requires OriginsKnown(cs) && forall d | d in cs :: d.remote
    ensures multiset(ChannelsIn(ByGroup(cs)))[c] == multiset(cs)[c]
    decreases |cs|
  {
    if cs != [] {
      hide Filter, Rows, ByGroup, ChannelsIn, Picked;
      var o := cs[0].origin;
      var p, q := (d: Channel) => Picked(d, true, o), (d: Channel) => !Picked(d, true, o);
      GroupStep(cs, []);
      GroupChannels(o.value, Filter(cs, p), ByGroup(Filter(cs, q)), ByGroup(cs));
      GroupsOnce(Filter(cs, q), c);
      FilterKeeps(cs, p, c);
      FilterKeeps(cs, q, c);
    }
  }

  lemma GroupChannels(o: string, group: seq<Channel>, rest: seq<Line>, all: seq<Line>)
    requires [] + all == [] + [RemoteHeading(o)] + Rows(group) + rest
    ensures ChannelsIn(all) == group + ChannelsIn(rest)
  {
    hide Rows, ChannelsIn;
    var head := [RemoteHeading(o)];
    assert all == [] + all == head + Rows(group) + rest;
    ChannelsInConcat(head + Rows(group), rest);
    ChannelsInConcat(head, Rows(group));
    HeadingOnly(o);
    ChannelsInRows(group);
    assert [] + group == group;
  }

  lemma HeadingOnly(o: string)
    ensures ChannelsIn([RemoteHeading(o)]) == [] && ChannelsIn([LocalHeading]) == []
  {
  }

  /** Every channel is printed exactly once. */
  lemma EachChannelOnce(cs: seq<Channel>)
    requires OriginsKnown(cs)
    ensures multiset(ChannelsIn(Listing(cs))) == multiset(cs)
  {
    hide Filter, Rows, ByGroup, ChannelsIn;
    var p, q := (d: Channel) => Picked(d, false, None), (d: Channel) => !Picked(d, false, None);
    ListingStart(cs);
    ChannelsInConcat([LocalHeading] + Rows(Filter(cs, p)), ByGroup(Filter(cs, q)));
    ChannelsInConcat([LocalHeading], Rows(Filter(cs, p)));
    HeadingOnly("");
    ChannelsInRows(Filter(cs, p));
    assert [] + Filter(cs, p) == Filter(cs, p);
    forall c: Channel
      ensures multiset(ChannelsIn(Listing(cs)))[c] == multiset(cs)[c]
    {
      GroupsOnce(Filter(cs, q), c);
      FilterKeeps(cs, p, c);
      FilterKeeps(cs, q, c);
    }
  }

  ghost predicate AllRemote(cs: seq<Channel>) {
    forall i | 0 <= i < |cs| :: cs[i].remote && cs[i].origin.Some?
  }

  /** The origins in the order in which they first appear. */
  function FirstOrigins(cs: seq<Channel>): seq<string> {
    if cs == [] then []
    else
      var o := cs[0].origin.GetOr("");
      [o] + Filter(FirstOrigins(cs[1..]), x => x != o)
  }

  /** For each origin its heading and its channels, in their order. */
  function ByOrigins(os: seq<string>, cs: seq<Channel>): seq<Line> {
    if os == [] then []
    else [RemoteHeading(os[0])] + Rows(OfOrigin(cs, os[0])) + ByOrigins(os[1..], cs)
  }

  function OfOrigin(cs: seq<Channel>, o: string): seq<Channel> {
    Filter(cs, (c: Channel) => c.remote && c.origin == Some(o))
  }

  lemma PickedOrigin(cs: seq<Channel>, o: string)
    ensures Filter(cs, c => Picked(c, true, Some(o))) == OfOrigin(cs, o)
  {
    FilterSame(cs, c => Picked(c, true, Some(o)), (c: Channel) => c.remote && c.origin == Some(o));
  }

  lemma {:induction false} FilterDistinct<T>(s: seq<T>, p: T -> bool)
    requires forall i, j | 0 <= i < j < |s| :: s[i] != s[j]
    ensures forall i, j | 0 <= i < j < |Filter(s, p)| :: Filter(s, p)[i] != Filter(s, p)[j]
  {
    if s != [] {
      var r := Filter(s[1..], p);
      FilterDistinct(s[1..], p);
      forall i | 0 <= i < |r|
        ensures r[i] != s[0]
      {
        FilterIn(s[1..], p, r[i]);
      }
    }
  }

  /** No origin is listed twice, and exactly those of the channels are. */
  lemma {:induction false} OriginsOnce(cs: seq<Channel>)
    requires AllRemote(cs)
    ensures forall i, j | 0 <= i < j < |FirstOrigins(cs)| :: FirstOrigins(cs)[i] != FirstOrigins(cs)[j]
    ensures forall o :: o in FirstOrigins(cs) <==> exists i | 0 <= i < |cs| :: cs[i].origin == Some(o)
  {
    if cs != [] {
      var o, t := cs[0].origin.value, cs[1..];
      var p := (x: string) => x != o;
      OriginsOnce(t);
      FilterDistinct(FirstOrigins(t), p);
      var r := Filter(FirstOrigins(t), p);
      assert FirstOrigins(cs) == [o] + r;
      forall i | 0 <= i < |r|
        ensures r[i] != o
      {
        FilterIn(FirstOrigins(t), p, r[i]);
      }
      forall x
        ensures x in FirstOrigins(cs) <==> exists i | 0 <= i < |cs| :: cs[i].origin == Some(x)
      {
        FilterIn(FirstOrigins(t), p, x);
        assert forall i | 1 <= i < |cs| :: cs[i] == t[i - 1];
        if i :| 0 <= i < |t| && t[i].origin == Some(x) {
          assert cs[i + 1].origin == Some(x);
        }
        assert cs[0].origin == Some(o);
      }
    }
  }

  /** Taking out the channels of an origin takes out that origin. */
  lemma {:induction false} OriginsWithout(cs: seq<Channel>, o: string)
    requires AllRemote(cs)
    ensures FirstOrigins(Filter(cs, c => !Picked(c, true, Some(o)))) == Filter(FirstOrigins(cs), x => x != o)
  {
    if cs != [] {
      var t, first := cs[1..], cs[0].origin.value;
      var q, p, f := (c: Channel) => !Picked(c, true, Some(o)), (x: string) => x != o, (x: string) => x != first;
      OriginsWithout(t, o);
      var both := (x: string) => x != first && x != o;
      FilterTwice(FirstOrigins(t), f, p, both);
      FilterTwice(FirstOrigins(t), p, f, both);
      if first == o {
        FilterSame(FirstOrigins(t), both, p);
        FilterFirst(cs, q);
        FilterFirst([first] + Filter(FirstOrigins(t), f), p);
        assert ([first] + Filter(FirstOrigins(t), f))[1..] == Filter(FirstOrigins(t), f);
      } else {
        FilterFirst(cs, q);
        FilterFirst([first] + Filter(FirstOrigins(t), f), p);
        assert ([first] + Filter(FirstOrigins(t), f))[1..] == Filter(FirstOrigins(t), f);
        assert ([cs[0]] + Filter(t, q))[1..] == Filter(t, q);
      }
    }
  }

  lemma FilterFirst<T>(s: seq<T>, p: T -> bool)
    requires s != []
    ensures Filter(s, p) == if p(s[0]) then [s[0]] + Filter(s[1..], p) else Filter(s[1..], p)
  {
  }

  /** Without the channels of an origin, the groups of the others are the same. */
  lemma {:induction false} OthersSame(os: seq<string>, cs: seq<Channel>, o: string)
    requires o !in os
    ensures ByOrigins(os, Filter(cs, c => !Picked(c, true, Some(o)))) == ByOrigins(os, cs)
  {
    if os != [] {
      var q := (c: Channel) => !Picked(c, true, Some(o));
      var p := (c: Channel) => Picked(c, true, Some(os[0]));
      FilterTwice(cs, q, p, p);
      PickedOrigin(cs, os[0]);
      PickedOrigin(Filter(cs, q), os[0]);
      OthersSame(os[1..], cs, o);
    }
  }

  /** The groups are those of the origins in the order of first appearance, each with all its channels in order. */
  lemma {:induction false} GroupsByOrigin(cs: seq<Channel>)
    requires AllRemote(cs)
    ensures ByGroup(cs) == ByOrigins(FirstOrigins(cs), cs)
    decreases |cs|
  {
    if cs != [] {
      var o, t := cs[0].origin.value, cs[1..];
      var q := (c: Channel) => !Picked(c, true, Some(o));
      var rest := Filter(cs, q);
      FilterFirst(cs, q);
      RestShorter(cs, q);
      RemoteStay(t, q);
      GroupsByOrigin(rest);
      OriginsWithout(t, o);
      var os := Filter(FirstOrigins(t), x => x != o);
      assert FirstOrigins(rest) == os;
      OthersSame(os, cs, o);
      PickedOrigin(cs, o);
      assert FirstOrigins(cs)[0] == o && FirstOrigins(cs)[1..] == os;
    }
  }

  /**
    The listing: the local channels in order, and then for each origin of a remote channel, in the order of
    first appearance, its heading and its channels in order.
   */
  lemma ListingIs(cs: seq<Channel>)
    requires OriginsKnown(cs)
    ensures var locals, remotes := Filter(cs, (c: Channel) => !c.remote), Filter(cs, (c: Channel) => c.remote);
            && AllRemote(remotes)
            && Listing(cs) == [LocalHeading] + Rows(locals) + ByOrigins(FirstOrigins(remotes), remotes)
  {
    hide Filter, Rows, ByOrigins, ByGroup, FirstOrigins;
    var remotes := Filter(cs, (c: Channel) => c.remote);
    FilterSame(cs, c => Picked(c, false, None), (c: Channel) => !c.remote);
    FilterSame(cs, c => !Picked(c, false, None), (c: Channel) => c.remote);
    forall i | 0 <= i < |remotes|
      ensures remotes[i].remote && remotes[i].origin.Some?
    {
      FilterIn(cs, (c: Channel) => c.remote, remotes[i]);
    }
    GroupsByOrigin(remotes);
  }

  lemma RemoteStay(cs: seq<Channel>, q: Channel -> bool)
    requires AllRemote(cs)
    ensures AllRemote(Filter(cs, q))
  {
    var r := Filter(cs, q);
    forall i | 0 <= i < |r|
      ensures r[i].remote && r[i].origin.Some?
    {
      FilterIn(cs, q, r[i]);
    }
  }
}
