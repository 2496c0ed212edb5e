/**
  Command lines as a user writes them (the syntax that include/parse-options.h describes), and that the
  scan of src/parse-options.c reads them as they were meant.
 */
module CommandLines {
  import opened Wrappers
  import opened Decimals
  import opened Numerals
  import opened ParseOptions

  /** A value given to an option: a numeral, or any text. */
  datatype Arg = Num(n: Numeral) | Txt(s: string)

  function ArgText(v: Arg): string {
    if v.Num? then NumeralText(v.n) else v.s
  }

  /** Options for numbers take numerals, those for strings and lists take any text. */
  predicate Takes(kind: Kind, v: Arg) {
    match kind
    case Int => v.Num? && ProperNumeral(v.n)
    case Str => v.Txt?
    case StrList => v.Txt?
    case _ => false
  }

  /** A number that `strtol` clamps to a `long` and that is then narrowed to an `int`, or the text itself. */
  function Stored(kind: Kind, k: nat, v: Arg): seq<Write>
    requires Takes(kind, v)
  {
    match kind
    case Int => [SetInt(k, Narrowed(Clamp(NumeralValue(v.n))))]
    case Str => [SetStr(k, v.s)]
    case StrList => [Append(k, v.s)]
  }

  lemma ToIntNarrows(v: int)
    ensures ToInt(v) == Narrowed(v)
  {
    NarrowedIff(v, ToInt(v));
    var q := if v % INT_SPAN >= 0x8000_0000 then v / INT_SPAN + 1 else v / INT_SPAN;
    assert v == ToInt(v) + q * INT_SPAN;
  }

  /** An option stores what its value means. */
  lemma StoreReads(kind: Kind, k: nat, v: Arg, shift: nat)
    requires Takes(kind, v)
    ensures Store(kind, k, ArgText(v), shift) == Some(Effect(shift, Stored(kind, k, v), false))
  {
    if kind == Int {
      hide NumeralText, ToInt, Narrowed;
      NumeralReads(v.n);
      ToIntNarrows(Clamp(NumeralValue(v.n)));
    }
  }

  /** An option refuses exactly the texts that are none of its values. */
  lemma StoreRefuses(kind: Kind, k: nat, s: string, shift: nat)
    ensures Store(kind, k, s, shift).None? <==> !exists v :: Takes(kind, v) && ArgText(v) == s
  {
    if kind == Int && IsInteger(s) {
      var n := NumeralOf(s);
      assert Takes(kind, Num(n)) && ArgText(Num(n)) == s;
    } else if kind == Str || kind == StrList {
      assert Takes(kind, Txt(s)) && ArgText(Txt(s)) == s;
    }
    if v :| Takes(kind, v) && ArgText(v) == s {
      StoreReads(kind, k, v, shift);
    }
  }

  /** A number that fits an `int` is stored as it is, printed with or without a sign. */
  lemma NumberStored(n: nat, k: nat, shift: nat)
    requires n < 0x8000_0000
    ensures Store(Int, k, Decimal(n), shift) == Some(Effect(shift, [SetInt(k, n)], false))
    ensures Store(Int, k, "-" + Decimal(n), shift) == Some(Effect(shift, [SetInt(k, 0 - n)], false))
  {
    hide Store, Decimal;
    SignedStored(n, "", k, shift);
    SignedStored(n, "-", k, shift);
    assert "" + Decimal(n) == Decimal(n);
  }

  lemma SignedStored(n: nat, sign: string, k: nat, shift: nat)
    requires n < 0x8000_0000 && (sign == "" || sign == "-")
    ensures Store(Int, k, sign + Decimal(n), shift) ==
            Some(Effect(shift, [SetInt(k, Signed(sign == "-", n))], false))
  {
    hide Store, Narrowed, NumeralText, NumeralValue, Decimal;
    var m := PrintedNumeral(n, sign);
    StoreReads(Int, k, Num(m), shift);
    NarrowedFits(Signed(sign == "-", n));
  }

  /** A printed number is a numeral. */
  lemma PrintedNumeral(n: nat, sign: string) returns (m: Numeral)
    requires sign == "" || sign == "-"
    ensures ProperNumeral(m) && NumeralText(m) == sign + Decimal(n) && NumeralValue(m) == Signed(sign == "-", n)
  {
    var s := Decimal(n);
    DecimalReads(n);
    m := Numeral("", sign, if n == 0 then Eight else Ten, s);
    assert "" + (sign + ("" + s)) == sign + s;
    if n == 0 {
      assert s == "0" && ValueIn(s[..0], 8) == 0 && ValueIn(s, 8) == 0;
    } else {
      ValueInTen(s);
    }
  }

  /**
    One thing on a command line; `k` is an option by its index, and `v` its value. The last ones are left
    where they are: an argument, an unknown long flag, a group with an unknown short flag, and a group in
    which text is attached that an option does not take.
   */
  datatype Item =
    | LongFlag(k: nat)
    | LongAttached(k: nat, v: Arg)
    | LongSeparate(k: nat, v: Arg)
    | ShortFlags(ks: seq<nat>)
    | ShortValue(ks: seq<nat>, k: nat, v: Arg)
    | ShortNumber(ks: seq<nat>, k: nat, v: Arg)
    | Argument(s: string)
    | UnknownLong(f: string)
    | UnknownShort(ks: seq<nat>, c: char, s: string)
    | AttachedText(ks: seq<nat>, k: nat, s: string)

  /** Option `k` is the first with its short flag. */
  ghost predicate FirstShort(options: seq<Opt>, k: nat) {
    && k < |options| && options[k].short != '\0' && options[k].short != '-'
    && forall i | 0 <= i < k :: options[i].short != options[k].short
  }

  ghost predicate LongFlagOf(options: seq<Opt>, k: nat) {
    && k < |options| && options[k].long.Some? && options[k].long.value != ""
    && FirstLong(options, k, options[k].long.value)
  }

  ghost predicate ShortBools(options: seq<Opt>, ks: seq<nat>) {
    forall i | 0 <= i < |ks| :: FirstShort(options, ks[i]) && options[ks[i]].kind == Bool
  }

  /** The option exists under the flag that is used, and takes the value. */
  ghost predicate Proper(options: seq<Opt>, it: Item) {
    match it
    case LongFlag(k) => LongFlagOf(options, k) && options[k].kind == Bool
    case LongAttached(k, v) => LongFlagOf(options, k) && Takes(options[k].kind, v)
    case LongSeparate(k, v) => LongFlagOf(options, k) && Takes(options[k].kind, v)
    case ShortFlags(ks) => ShortBools(options, ks)
    case ShortValue(ks, k, v) =>
      ShortBools(options, ks) && FirstShort(options, k) && Takes(options[k].kind, v)
    case ShortNumber(ks, k, v) =>
      && ShortBools(options, ks) && FirstShort(options, k)
      && options[k].kind == Int && Takes(Int, v) && ArgText(v) != ""
    case Argument(s) => (s == "" || s[0] != '-') && NoCommand(options, |options|, s)
    case UnknownLong(f) => f != "" && NoLong(options, f)
    case UnknownShort(ks, c, _) =>
      options != [] && ShortBools(options, ks) && (ks == [] ==> c != '-') && Unknown(options, c)
    case AttachedText(ks, k, s) =>
      && ShortBools(options, ks) && FirstShort(options, k) && s != ""
      && (options[k].kind == Str || options[k].kind == StrList || (options[k].kind == Int && NoNumeral(s)))
  }

  /** No option has the short flag. */
  ghost predicate Unknown(options: seq<Opt>, c: char) {
    forall i | 0 <= i < |options| :: options[i].short != c
  }

  ghost predicate NoNumeral(s: string) {
    forall n :: ProperNumeral(n) ==> NumeralText(n) != s
  }

  /** None of the first options is a command of that name. */
  ghost predicate NoCommand(options: seq<Opt>, n: nat, s: string)
    requires n <= |options|
  {
    forall i | 0 <= i < n :: !(options[i].kind.Command? && options[i].name == s)
  }

  /** No option has the long flag, with or without a value attached. */
  ghost predicate NoLong(options: seq<Opt>, f: string) {
    forall i | 0 <= i < |options| && options[i].long.Some? ::
      var flag := options[i].long.value;
      !(flag <= f) || (|flag| < |f| && f[|flag|] != '=')
  }

  predicate Left(it: Item) {
    it.Argument? || it.UnknownLong? || it.UnknownShort? || it.AttachedText?
  }

  function Letters(options: seq<Opt>, ks: seq<nat>): (s: string)
    requires forall i | 0 <= i < |ks| :: ks[i] < |options|
    ensures |s| == |ks|
  {
    if ks == [] then "" else [options[ks[0]].short] + Letters(options, ks[1..])
  }

  /** The arguments that stand for an item. */
  function Tokens(options: seq<Opt>, it: Item): (r: seq<string>)
    requires Proper(options, it)
    ensures r != []
  {
    match it
    case LongFlag(k) => ["--" + options[k].long.value]
    case LongAttached(k, v) => ["--" + (options[k].long.value + "=" + ArgText(v))]
    case LongSeparate(k, v) => ["--" + options[k].long.value, ArgText(v)]
    case ShortFlags(ks) => ["-" + Letters(options, ks)]
    case ShortValue(ks, k, v) => ["-" + (Letters(options, ks) + [options[k].short]), ArgText(v)]
    case ShortNumber(ks, k, v) => ["-" + (Letters(options, ks) + ([options[k].short] + ArgText(v)))]
    case Argument(s) => [s]
    case UnknownLong(f) => ["--" + f]
    case UnknownShort(ks, c, s) => ["-" + (Letters(options, ks) + ([c] + s))]
    case AttachedText(ks, k, s) => ["-" + (Letters(options, ks) + ([options[k].short] + s))]
  }

  function Ones(ks: seq<nat>): seq<Write> {
    if ks == [] then [] else [SetInt(ks[0], 1)] + Ones(ks[1..])
  }

  /** What an item is meant to store. */
  function Stores(options: seq<Opt>, it: Item): seq<Write>
    requires Proper(options, it)
  {
    match it
    case LongFlag(k) => [SetInt(k, 1)]
    case LongAttached(k, v) => Stored(options[k].kind, k, v)
    case LongSeparate(k, v) => Stored(options[k].kind, k, v)
    case ShortFlags(ks) => Ones(ks)
    case ShortValue(ks, k, v) => Ones(ks) + Stored(options[k].kind, k, v)
    case ShortNumber(ks, k, v) => Ones(ks) + Stored(Int, k, v)
    case Argument(_) => []
    case UnknownLong(_) => []
    case UnknownShort(ks, _, _) => Ones(ks)
    case AttachedText(ks, _, _) => Ones(ks)
  }

  function Keeps(options: seq<Opt>, it: Item): seq<string>
    requires Proper(options, it)
  {
    if Left(it) then Tokens(options, it) else []
  }

  ghost predicate AllProper(options: seq<Opt>, items: seq<Item>) {
    forall i | 0 <= i < |items| :: Proper(options, items[i])
  }

  function AllTokens(options: seq<Opt>, items: seq<Item>): seq<string>
    requires AllProper(options, items)
  {
    if items == [] then [] else Tokens(options, items[0]) + AllTokens(options, items[1..])
  }

  function AllStores(options: seq<Opt>, items: seq<Item>): seq<Write>
    requires AllProper(options, items)
  {
    if items == [] then [] else Stores(options, items[0]) + AllStores(options, items[1..])
  }

  function AllKept(options: seq<Opt>, items: seq<Item>): seq<string>
    requires AllProper(options, items)
  {
    if items == [] then [] else Keeps(options, items[0]) + AllKept(options, items[1..])
  }

  /**
    What may stand at the end: nothing; a `--` and anything behind it; a command, by its index, and anything
    behind it; a flag whose value is missing; or, where the scan stops at the first unknown argument,
    something that is left and anything behind it.
   */
  datatype Ending = EndOfLine | AfterDashes(tail: seq<string>) | Subcommand(k: nat, tail: seq<string>)
                  | ShortMissing(ks: seq<nat>, k: nat) | LongMissing(k: nat)
                  | StopAt(it: Item, tail: seq<string>)

  ghost predicate ProperEnding(options: seq<Opt>, end: Ending, stop: bool) {
    match end
    case Subcommand(k, _) =>
      && k < |options| && options[k].kind.Command? && (options[k].name == "" || options[k].name[0] != '-')
      && NoCommand(options, k, options[k].name)
    case ShortMissing(ks, k) =>
      ShortBools(options, ks) && FirstShort(options, k) && (options[k].kind == Str || options[k].kind == StrList)
    case LongMissing(k) => LongFlagOf(options, k) && NoBoolNamed(options, options[k].long.value)
    case StopAt(it, _) => stop && Proper(options, it) && Left(it)
    case _ => true
  }

  /** The long flag is that of no boolean option. */
  ghost predicate NoBoolNamed(options: seq<Opt>, flag: string) {
    forall i | 0 <= i < |options| :: options[i].long == Some(flag) ==> options[i].kind != Bool
  }

  function EndingTokens(options: seq<Opt>, end: Ending, stop: bool): seq<string>
    requires ProperEnding(options, end, stop)
  {
    match end
    case EndOfLine => []
    case AfterDashes(tail) => ["--"] + tail
    case Subcommand(k, tail) => [options[k].name] + tail
    case ShortMissing(ks, k) => ["-" + (Letters(options, ks) + [options[k].short])]
    case LongMissing(k) => ["--" + options[k].long.value]
    case StopAt(it, tail) => Tokens(options, it) + tail
  }

  /** All of the ending is kept, except for the `--`. */
  function EndingKept(options: seq<Opt>, end: Ending, stop: bool): seq<string>
    requires ProperEnding(options, end, stop)
  {
    if end.AfterDashes? then end.tail else EndingTokens(options, end, stop)
  }

  function EndingStores(options: seq<Opt>, end: Ending, stop: bool): seq<Write>
    requires ProperEnding(options, end, stop)
  {
    match end
    case Subcommand(k, _) => if options[k].kind.stored then [SetInt(k, 1)] else []
    case ShortMissing(ks, _) => Ones(ks)
    case StopAt(it, _) => Stores(options, it)
    case _ => []
  }

  // ---------- one item ----------

  lemma {:induction false} LongFlagReads(options: seq<Opt>, i: nat, k: nat, next: Option<string>)
    requires LongFlagOf(options, k) && options[k].kind == Bool && i <= k
    ensures LongFrom(options, i, options[k].long.value, next) == Effect(1, [SetInt(k, 1)], false)
    decreases k - i
  {
    if i < k {
      LongFlagReads(options, i + 1, k, next);
      if options[i].long.Some? {
        NotThisFlag(options[i].long.value, options[k].long.value, "");
      }
    }
  }

  /** The inner loop finds the first option with the flag. */
  lemma {:induction false} ShortFinds(options: seq<Opt>, i: nat, k: nat, s: string, next: Option<string>)
    requires FirstShort(options, k) && i <= k && s != "" && s[0] == options[k].short
    ensures ShortFrom(options, i, s, next) == ShortFrom(options, k, s, next)
    decreases k - i
  {
    if i < k {
      ShortFinds(options, i + 1, k, s, next);
    }
  }

  lemma OneBoolReads(options: seq<Opt>, k: nat, s: string, next: Option<string>)
    requires FirstShort(options, k) && options[k].kind == Bool && s != "" && s[0] == options[k].short
    ensures ShortFrom(options, 0, s, next) == ParseOptions.After([SetInt(k, 1)], ShortFrom(options, 0, s[1..], next))
  {
    ShortFinds(options, 0, k, s, next);
  }

  lemma AfterAfter(a: seq<Write>, b: seq<Write>, e: Effect)
    ensures ParseOptions.After(a, ParseOptions.After(b, e)) == ParseOptions.After(a + b, e)
    ensures ParseOptions.After([], e) == e
  {
    assert a + (b + e.writes) == a + b + e.writes && [] + e.writes == e.writes;
  }

  /** Boolean flags are set one by one, and the rest of the group is read as if it stood alone. */
  lemma {:induction false} ShortBoolsRead(options: seq<Opt>, ks: seq<nat>, rest: string, next: Option<string>)
    requires ShortBools(options, ks)
    ensures ShortFrom(options, 0, Letters(options, ks) + rest, next) ==
            ParseOptions.After(Ones(ks), ShortFrom(options, 0, rest, next))
  {
    hide ShortFrom, ParseOptions.After;
    var e := ShortFrom(options, 0, rest, next);
    if ks == [] {
      assert Letters(options, ks) + rest == rest;
      AfterAfter([], [], e);
    } else {
      var s := Letters(options, ks) + rest;
      assert s[0] == options[ks[0]].short && s[1..] == Letters(options, ks[1..]) + rest;
      assert FirstShort(options, ks[0]) && options[ks[0]].kind == Bool;
      OneBoolReads(options, ks[0], s, next);
      ShortBoolsRead(options, ks[1..], rest, next);
      AfterAfter([SetInt(ks[0], 1)], Ones(ks[1..]), e);
    }
  }

  lemma ShortReads(options: seq<Opt>, it: Item, next: Option<string>)
    requires Proper(options, it)
    requires it.ShortFlags? || it.ShortNumber? || it.UnknownShort? || it.AttachedText? ||
             (it.ShortValue? && next == Some(ArgText(it.v)))
    ensures ShortFrom(options, 0, Tokens(options, it)[0][1..], next) ==
            Effect(if Left(it) then 0 else |Tokens(options, it)|, Stores(options, it), false)
  {
    hide ShortFrom;
    match it
    case ShortFlags(ks) =>
      ShortBoolsRead(options, ks, "", next);
      assert Letters(options, ks) + "" == Letters(options, ks) && Ones(ks) + [] == Ones(ks);
      NoFlags(options, next);
    case ShortValue(ks, k, v) =>
      ShortBoolsRead(options, ks, [options[k].short], next);
      ShortValueReads(options, k, v);
    case ShortNumber(ks, k, v) =>
      ShortBoolsRead(options, ks, [options[k].short] + ArgText(v), next);
      ShortNumberReads(options, k, v, next);
    case AttachedText(ks, k, s) =>
      ShortBoolsRead(options, ks, [options[k].short] + s, next);
      AttachedRefused(options, k, s, next);
      assert Ones(ks) + [] == Ones(ks);
    case UnknownShort(ks, c, t) =>
      var s := [c] + t;
      ShortBoolsRead(options, ks, s, next);
      assert s[0] == c;
      ShortUnknown(options, 0, s, next);
      assert Ones(ks) + [] == Ones(ks);
  }

  lemma NoFlags(options: seq<Opt>, next: Option<string>)
    ensures ShortFrom(options, 0, "", next) == Effect(1, [], false)
  {
  }

  lemma ShortValueReads(options: seq<Opt>, k: nat, v: Arg)
    requires FirstShort(options, k) && Takes(options[k].kind, v)
    ensures ShortFrom(options, 0, [options[k].short], Some(ArgText(v))) ==
            Effect(2, Stored(options[k].kind, k, v), false)
  {
    hide Store;
    ShortFinds(options, 0, k, [options[k].short], Some(ArgText(v)));
    StoreReads(options[k].kind, k, v, 2);
  }

  lemma ShortNumberReads(options: seq<Opt>, k: nat, v: Arg, next: Option<string>)
    requires FirstShort(options, k) && options[k].kind == Int && Takes(Int, v) && ArgText(v) != ""
    ensures ShortFrom(options, 0, [options[k].short] + ArgText(v), next) == Effect(1, Stored(Int, k, v), false)
  {
    hide Store;
    var s := [options[k].short] + ArgText(v);
    assert s[0] == options[k].short && s[1..] == ArgText(v);
    ShortFinds(options, 0, k, s, next);
    StoreReads(Int, k, v, 1);
  }

  /** Text attached to a flag is only taken as a number. */
  lemma AttachedRefused(options: seq<Opt>, k: nat, text: string, next: Option<string>)
    requires FirstShort(options, k) && text != ""
    requires options[k].kind == Str || options[k].kind == StrList || (options[k].kind == Int && NoNumeral(text))
    ensures ShortFrom(options, 0, [options[k].short] + text, next) == NOTHING
  {
    hide Store;
    var s := [options[k].short] + text;
    assert s[0] == options[k].short && s[1..] == text;
    ShortFinds(options, 0, k, s, next);
    StoreRefuses(Int, k, text, 1);
  }

  lemma MissingRefused(options: seq<Opt>, k: nat)
    requires FirstShort(options, k) && (options[k].kind == Str || options[k].kind == StrList)
    ensures ShortFrom(options, 0, [options[k].short], None) == NOTHING
  {
    ShortFinds(options, 0, k, [options[k].short], None);
  }

  lemma {:induction false} LongMissingReads(options: seq<Opt>, i: nat, flag: string)
    requires '=' !in flag && NoBoolNamed(options, flag)
    ensures LongFrom(options, i, flag, None) == NOTHING
    decreases |options| - i
  {
    if i < |options| {
      LongMissingReads(options, i + 1, flag);
    }
  }

  lemma {:induction false} ShortUnknown(options: seq<Opt>, i: nat, s: string, next: Option<string>)
    requires i < |options| && s != "" && forall j | i <= j < |options| :: options[j].short != s[0]
    ensures ShortFrom(options, i, s, next) == NOTHING
    decreases |options| - i
  {
    if i + 1 < |options| {
      ShortUnknown(options, i + 1, s, next);
    }
  }

  lemma {:induction false} LongUnknown(options: seq<Opt>, i: nat, f: string, next: Option<string>)
    requires NoLong(options, f)
    ensures LongFrom(options, i, f, next) == NOTHING
    decreases |options| - i
  {
    if i < |options| {
      LongUnknown(options, i + 1, f, next);
    }
  }

  lemma LongReads(options: seq<Opt>, it: Item, next: Option<string>)
    requires Proper(options, it)
    requires it.LongFlag? || it.LongAttached? || it.UnknownLong? || 
             (it.LongSeparate? && next == Some(ArgText(it.v)))
    ensures LongFrom(options, 0, Tokens(options, it)[0][2..], next) ==
            Effect(if Left(it) then 0 else |Tokens(options, it)|, Stores(options, it), false)
  {
    match it
    case UnknownLong(f) =>
      assert ("--" + f)[2..] == f;
      LongUnknown(options, 0, f, next);
    case LongFlag(k) =>
      var flag := options[k].long.value;
      assert ("--" + flag)[2..] == flag;
      LongFlagReads(options, 0, k, next);
    case LongAttached(k, v) =>
      var flag := options[k].long.value;
      var arg := flag + "=" + ArgText(v);
      assert ("--" + arg)[2..] == arg;
      StoreReads(options[k].kind, k, v, 1);
      LongValue(options, 0, k, flag, ArgText(v), next);
    case LongSeparate(k, v) =>
      var flag := options[k].long.value;
      assert ("--" + flag)[2..] == flag;
      StoreReads(options[k].kind, k, v, 1);
      StoreReads(options[k].kind, k, v, 2);
      LongValue(options, 0, k, flag, ArgText(v), next);
  }

  lemma LettersFirst(options: seq<Opt>, ks: seq<nat>)
    requires ShortBools(options, ks) && ks != []
    ensures Letters(options, ks)[0] != '-'
  {
    assert FirstShort(options, ks[0]);
  }

  /** A group of flags does not look like a long flag. */
  lemma GroupIsShort(options: seq<Opt>, ks: seq<nat>, rest: string)
    requires ShortBools(options, ks) && (ks == [] ==> rest != "" && rest[0] != '-')
    ensures var t := "-" + (Letters(options, ks) + rest);
            t != "--" && IsOption(t) && !IsLong(t)
  {
    var t := "-" + (Letters(options, ks) + rest);
    if ks != [] {
      LettersFirst(options, ks);
      assert t[1] == Letters(options, ks)[0];
    } else {
      assert t[1] == rest[0];
    }
  }

  /** Which of the branches of a round a token takes. */
  lemma TokenKind(options: seq<Opt>, it: Item)
    requires Proper(options, it)
    ensures var t := Tokens(options, it)[0];
            && t != "--"
            && (IsOption(t) <==> !it.Argument?)
            && (IsOption(t) && IsLong(t) <==> it.LongFlag? || it.LongAttached? || it.LongSeparate? || it.UnknownLong?)
  {
    var t := Tokens(options, it)[0];
    match it
    case ShortFlags(ks) =>
      assert Letters(options, ks) + "" == Letters(options, ks);
      if ks == [] {
        assert t == "-";
      } else {
        GroupIsShort(options, ks, "");
      }
    case ShortValue(ks, k, v) => GroupIsShort(options, ks, [options[k].short]);
    case ShortNumber(ks, k, v) => GroupIsShort(options, ks, [options[k].short] + ArgText(v));
    case AttachedText(ks, k, s) => GroupIsShort(options, ks, [options[k].short] + s);
    case UnknownShort(ks, c, s) => GroupIsShort(options, ks, [c] + s);
    case Argument(_) =>
    case _ =>
      assert t[..2] == "--" && |t| > 2;
  }

  /**
    A round takes the tokens of an item for what the item means. What is left is stepped over, or ends the
    scan if that stops at the first unknown argument.
   */
  lemma ItemReads(options: seq<Opt>, it: Item, rest: seq<string>, stop: bool)
    requires Proper(options, it)
    ensures StepOf(options, Tokens(options, it) + rest, stop) ==
            if stop && Left(it) then End(Tokens(options, it) + rest, Stores(options, it), false)
            else Go(|Tokens(options, it)|, Keeps(options, it), Stores(options, it))
  {
    hide LongFrom, ShortFrom, Ones, Store;
    var tokens := Tokens(options, it);
    var all := tokens + rest;
    var next := if |all| > 1 then Some(all[1]) else None;
    TokenKind(options, it);
    assert all[0] == tokens[0] && (|tokens| > 1 ==> all[1] == tokens[1]);
    match it
    case Argument(s) => NoCommandFound(options, 0, |options|, s);
    case LongFlag(_) => LongReads(options, it, next);
    case LongAttached(_, _) => LongReads(options, it, next);
    case LongSeparate(_, _) => LongReads(options, it, next);
    case UnknownLong(_) => LongReads(options, it, next);
    case _ => ShortReads(options, it, next);
  }

  lemma ItemThen(options: seq<Opt>, it: Item, rest: seq<string>, stop: bool)
    requires Proper(options, it) && (stop ==> !Left(it))
    ensures Scan(options, Tokens(options, it) + rest, stop) ==
            Before(Keeps(options, it), Stores(options, it), Scan(options, rest, stop))
  {
    hide StepOf, Tokens, Stores, Keeps;
    ItemReads(options, it, rest, stop);
    assert (Tokens(options, it) + rest)[|Tokens(options, it)|..] == rest;
  }

  lemma {:induction false} NoCommandFound(options: seq<Opt>, i: nat, n: nat, s: string)
    requires i <= n <= |options| && NoCommand(options, n, s)
    ensures FindCommand(options, i, s) == FindCommand(options, n, s)
    decreases n - i
  {
    if i < n {
      NoCommandFound(options, i + 1, n, s);
    }
  }

  lemma CommandEnds(options: seq<Opt>, k: nat, tail: seq<string>, stop: bool)
    requires ProperEnding(options, Subcommand(k, tail), stop)
    ensures Scan(options, [options[k].name] + tail, stop) ==
            Scanned([options[k].name] + tail, if options[k].kind.stored then [SetInt(k, 1)] else [], false)
  {
    var all := [options[k].name] + tail;
    assert all[0] == options[k].name;
    NoCommandFound(options, 0, k, options[k].name);
  }

  /** A last argument that is not taken is kept, whether the scan stops or goes on. */
  lemma LastIsLeft(options: seq<Opt>, arg: string, writes: seq<Write>, stop: bool)
    requires IsOption(arg) && arg != "--" && OptionEffect(options, [arg]) == Effect(0, writes, false)
    ensures Scan(options, [arg], stop) == Scanned([arg], writes, false)
  {
    hide OptionEffect;
    assert [arg][1..] == [] && Scan(options, [], stop) == Scanned([], [], false);
    assert [arg] + [] == [arg] && writes + [] == writes;
  }

  lemma ShortMissingEnds(options: seq<Opt>, ks: seq<nat>, k: nat, stop: bool)
    requires ShortBools(options, ks) && FirstShort(options, k)
    requires options[k].kind == Str || options[k].kind == StrList
    ensures var arg := "-" + (Letters(options, ks) + [options[k].short]);
            Scan(options, [arg], stop) == Scanned([arg], Ones(ks), false)
  {
    hide ShortFrom, LongFrom, Scan;
    var arg := "-" + (Letters(options, ks) + [options[k].short]);
    GroupIsShort(options, ks, [options[k].short]);
    assert arg[1..] == Letters(options, ks) + [options[k].short];
    ShortBoolsRead(options, ks, [options[k].short], None);
    MissingRefused(options, k);
    assert Ones(ks) + [] == Ones(ks);
    LastIsLeft(options, arg, Ones(ks), stop);
  }

  lemma LongMissingEnds(options: seq<Opt>, k: nat, stop: bool)
    requires LongFlagOf(options, k) && NoBoolNamed(options, options[k].long.value)
    ensures var arg := "--" + options[k].long.value;
            Scan(options, [arg], stop) == Scanned([arg], [], false)
  {
    hide ShortFrom, LongFrom, Scan;
    var flag := options[k].long.value;
    var arg := "--" + flag;
    assert arg[2..] == flag && arg[..2] == "--" && |arg| > 2;
    LongMissingReads(options, 0, flag);
    LastIsLeft(options, arg, [], stop);
  }

  lemma EndingReads(options: seq<Opt>, end: Ending, stop: bool)
    requires ProperEnding(options, end, stop)
    ensures Scan(options, EndingTokens(options, end, stop), stop) ==
            Scanned(EndingKept(options, end, stop), EndingStores(options, end, stop), false)
  {
    match end
    case EndOfLine =>
    case AfterDashes(tail) =>
      AtDashes(options, tail, stop);
      assert [] + tail == tail;
    case Subcommand(k, tail) => CommandEnds(options, k, tail, stop);
    case ShortMissing(ks, k) => ShortMissingEnds(options, ks, k, stop);
    case LongMissing(k) => LongMissingEnds(options, k, stop);
    case StopAt(it, tail) =>
      hide StepOf, Tokens, Stores;
      ItemReads(options, it, tail, true);
  }

  /** The items of a line up to its ending: anything, or, where the scan stops, only what is taken. */
  ghost predicate ProperItems(options: seq<Opt>, items: seq<Item>, stop: bool) {
    AllProper(options, items) && (stop ==> forall i | 0 <= i < |items| :: !Left(items[i]))
  }

  /**
    A command line is read as it was meant, in both modes: every option stores its value, in order; what
    is left is kept, in order; and the ending is kept as it is, with the command's value stored.
   */
  lemma {:induction false} CommandLineReads(options: seq<Opt>, items: seq<Item>, end: Ending, stop: bool)
    requires ProperItems(options, items, stop) && ProperEnding(options, end, stop)
    ensures Scan(options, AllTokens(options, items) + EndingTokens(options, end, stop), stop) ==
            Scanned(AllKept(options, items) + EndingKept(options, end, stop),
                    AllStores(options, items) + EndingStores(options, end, stop), false)
    decreases |items|
  {
    var tokens, kept := EndingTokens(options, end, stop), EndingKept(options, end, stop);
    var writes := EndingStores(options, end, stop);
    if items == [] {
      EndingReads(options, end, stop);
      assert [] + tokens == tokens && [] + kept == kept && [] + writes == writes;
    } else {
      hide Scan, StepOf, Tokens, Stores, Keeps, Before, EndingTokens, EndingKept, EndingStores;
      var it, more := items[0], items[1..];
      CommandLineReads(options, more, end, stop);
      ItemThen(options, it, AllTokens(options, more) + tokens, stop);
      Regroup(Tokens(options, it), AllTokens(options, more), tokens);
      ItemBefore(Keeps(options, it), Stores(options, it),
                 AllKept(options, more), AllStores(options, more), kept, writes);
    }
  }

  lemma Regroup(a: seq<string>, b: seq<string>, c: seq<string>)
    ensures a + b + c == a + (b + c)
  {
  }

  lemma ItemBefore(k1: seq<string>, w1: seq<Write>, k2: seq<string>, w2: seq<Write>, k3: seq<string>, w3: seq<Write>)
    ensures Before(k1, w1, Scanned(k2 + k3, w2 + w3, false)) == Scanned(k1 + k2 + k3, w1 + w2 + w3, false)
  {
  }

  // ---------- when a missing argument is read ----------

  /** The options of `git chat read` (src/builtin/read.c). */
  const READ_OPTIONS := [Opt('n', Some("max-count"), "", Int), Opt('\0', Some("no-color"), "", Bool),
                         Opt('h', Some("help"), "", Bool)]

  /** `git chat read -n` reads the argument that is not there. */
  lemma ReadWithoutNumber()
    ensures Scan(READ_OPTIONS, ["-n"], true).crash
  {
    assert "-n"[1..] == "n";
  }

  /** `git chat read -n 5` shows five messages. */
  lemma ReadFive()
    ensures Scan(READ_OPTIONS, ["-n", "5"], true) == Scanned([], [SetInt(0, 5)], false)
  {
    var m := PrintedNumeral(5, "");
    assert Decimal(5) == "5" && "" + "5" == "5";
    NarrowedFits(5);
    var it := ShortValue([], 0, Num(m));
    assert FirstShort(READ_OPTIONS, 0) && Letters(READ_OPTIONS, []) + ['n'] == "n";
    assert "-" + "n" == "-n" && "" + Decimal(5) == "5";
    assert Tokens(READ_OPTIONS, it) == ["-n", "5"];
    assert Ones([]) == [] && [] + [SetInt(0, 5)] == [SetInt(0, 5)];
    assert Stores(READ_OPTIONS, it) == [SetInt(0, 5)];
    CommandLineReads(READ_OPTIONS, [it], EndOfLine, true);
    OneItem(READ_OPTIONS, it);
  }

  lemma OneItem(options: seq<Opt>, it: Item)
    requires Proper(options, it) && AllProper(options, [it])
    ensures AllTokens(options, [it]) + [] == Tokens(options, it) && AllStores(options, [it]) + [] == Stores(options, it)
    ensures AllKept(options, [it]) + [] == Keeps(options, it)
  {
    assert [it][1..] == [];
  }

  /** No flag is a dash, and only options that take part in a group have a short flag. */
  ghost predicate OrdinaryTable(options: seq<Opt>) {
    forall i | 0 <= i < |options| ::
      && options[i].short != '-'
      && (options[i].kind.Command? || options[i].kind.Group? ==> options[i].short == '\0')
  }

  /** Boolean flags and then, as the last one, a flag that takes a number. */
  ghost predicate AsksForNumber(options: seq<Opt>, ks: seq<nat>, k: nat, arg: string) {
    && ShortBools(options, ks) && FirstShort(options, k) && options[k].kind == Int
    && arg == "-" + (Letters(options, ks) + [options[k].short])
  }

  /** The first option from `i` on with the flag in front, or the number of options. */
  lemma {:induction false} ShortLands(options: seq<Opt>, i: nat, s: string, next: Option<string>) returns (k: nat)
    requires s != "" && s[0] != '\0' && i <= |options|
    ensures i <= k <= |options| && forall j | i <= j < k :: options[j].short != s[0]
    ensures k < |options| ==>
              options[k].short == s[0] && ShortFrom(options, i, s, next) == ShortFrom(options, k, s, next)
    ensures k == |options| && i < k ==> ShortFrom(options, i, s, next) == NOTHING
    decreases |options| - i
  {
    if i == |options| || options[i].short == s[0] {
      return i;
    }
    k := ShortLands(options, i + 1, s, next);
  }

  lemma {:induction false} CrashingGroup(options: seq<Opt>, s: string) returns (ks: seq<nat>, k: nat)
    requires OrdinaryTable(options) && '\0' !in s && ShortFrom(options, 0, s, None).crash
    ensures AsksForNumber(options, ks, k, "-" + s)
    decreases |s|
  {
    var first := ShortLands(options, 0, s, None);
    if first == |options| {
      // without any options all flags are passed over
      ks, k := CrashingGroup(options, s[1..]);
    } else if options[first].kind == Bool {
      ks, k := CrashingGroup(options, s[1..]);
      assert ("-" + s[1..])[1..] == s[1..] && ("-" + (Letters(options, ks) + [options[k].short]))[1..] == s[1..];
      ks := [first] + ks;
      assert s == [s[0]] + s[1..];
    } else {
      ks, k := [], first;
      assert Letters(options, []) + [options[k].short] == s;
    }
  }

  /** The group asks for a value behind it. */
  ghost predicate AsksForValue(options: seq<Opt>, ks: seq<nat>, k: nat, arg: string) {
    && ShortBools(options, ks) && FirstShort(options, k)
    && (options[k].kind == Int || options[k].kind == Str || options[k].kind == StrList)
    && arg == "-" + (Letters(options, ks) + [options[k].short])
  }

  /** The item is the one argument. */
  ghost predicate IsItem(options: seq<Opt>, it: Item, arg: string) {
    Proper(options, it) && Tokens(options, it) == [arg]
  }

  /** The flag is that of an option that takes a value. */
  ghost predicate TakesMore(options: seq<Opt>, k: nat, c: char) {
    FirstShort(options, k) && options[k].kind != Bool && options[k].short == c
  }

  lemma {:induction false} EveryRest(options: seq<Opt>, s: string) returns (ks: seq<nat>, rest: string)
    requires OrdinaryTable(options) && '\0' !in s
    ensures ShortBools(options, ks) && s == Letters(options, ks) + rest
    ensures rest != "" ==> Unknown(options, rest[0]) || exists k: nat :: TakesMore(options, k, rest[0])
    decreases |s|
  {
    if s == "" {
      return [], "";
    }
    var first := ShortLands(options, 0, s, None);
    if first < |options| && options[first].kind == Bool {
      ks, rest := EveryRest(options, s[1..]);
      ks := [first] + ks;
      assert s == [s[0]] + s[1..];
    } else {
      assert if first < |options| then TakesMore(options, first, s[0]) else Unknown(options, s[0]);
      assert Letters(options, []) + s == s;
      return [], s;
    }
  }

  /** Every group of short flags is one of the items, or asks for a value behind it. */
  lemma EveryGroup(options: seq<Opt>, arg: string)
    requires OrdinaryTable(options) && options != [] && '\0' !in arg && IsOption(arg) && !IsLong(arg)
    ensures (exists it :: IsItem(options, it, arg)) ||
            (exists ks: seq<nat>, k: nat :: AsksForValue(options, ks, k, arg))
  {
    var ks, rest := EveryRest(options, arg[1..]);
    assert arg == "-" + (Letters(options, ks) + rest);
    if rest == "" {
      assert Letters(options, ks) + rest == Letters(options, ks);
      assert IsItem(options, ShortFlags(ks), arg);
      return;
    }
    assert rest == [rest[0]] + rest[1..];
    if Unknown(options, rest[0]) {
      assert ks == [] ==> rest[0] == arg[1] != '-';
      assert IsItem(options, UnknownShort(ks, rest[0], rest[1..]), arg);
      return;
    }
    var k: nat :| TakesMore(options, k, rest[0]);
    EveryValue(options, ks, k, rest[1..], arg);
  }

  lemma EveryValue(options: seq<Opt>, ks: seq<nat>, k: nat, text: string, arg: string)
    requires OrdinaryTable(options) && ShortBools(options, ks) && FirstShort(options, k) && options[k].kind != Bool
    requires arg == "-" + (Letters(options, ks) + ([options[k].short] + text))
    ensures (exists it :: IsItem(options, it, arg)) || AsksForValue(options, ks, k, arg)
  {
    if text == "" {
      assert [options[k].short] + text == [options[k].short];
    } else if options[k].kind == Int && exists n :: ProperNumeral(n) && NumeralText(n) == text {
      var n :| ProperNumeral(n) && NumeralText(n) == text;
      assert IsItem(options, ShortNumber(ks, k, Num(n)), arg);
    } else {
      assert IsItem(options, AttachedText(ks, k, text), arg);
    }
  }

  /** A number flag that is followed by something else is left, and so is what follows it. */
  lemma NumberRefused(options: seq<Opt>, ks: seq<nat>, k: nat, arg: string, next: string, rest: seq<string>, stop: bool)
    requires AsksForValue(options, ks, k, arg) && options[k].kind == Int && NoNumeral(next)
    ensures StepOf(options, [arg, next] + rest, stop) ==
            if stop then End([arg, next] + rest, Ones(ks), false) else Go(1, [arg], Ones(ks))
  {
    hide LongFrom, ShortFrom, Store;
    var all, s := [arg, next] + rest, [options[k].short];
    assert all[0] == arg && all[1] == next && arg[1..] == Letters(options, ks) + s;
    GroupIsShort(options, ks, s);
    ShortBoolsRead(options, ks, s, Some(next));
    NextRefused(options, k, next);
    assert Ones(ks) + [] == Ones(ks);
  }

  lemma NextRefused(options: seq<Opt>, k: nat, next: string)
    requires FirstShort(options, k) && options[k].kind == Int && NoNumeral(next)
    ensures ShortFrom(options, 0, [options[k].short], Some(next)) == NOTHING
  {
    hide Store;
    ShortFinds(options, 0, k, [options[k].short], Some(next));
    StoreRefuses(Int, k, next, 2);
  }

  /** A long flag whose value is refused does not end the search: it goes on with the value in place of the flag. */
  lemma RefusedGoesOn(options: seq<Opt>, k: nat, value: string, next: Option<string>)
    requires LongFlagOf(options, k) && forall v :: Takes(options[k].kind, v) ==> ArgText(v) != value
    ensures options[k].kind != Bool || value != "" ==>
              LongFrom(options, k, options[k].long.value + "=" + value, next) == LongFrom(options, k + 1, value, next)
    ensures options[k].kind != Bool ==>
              LongFrom(options, k, options[k].long.value, Some(value)) == LongFrom(options, k + 1, value, Some(value))
  {
    hide Store;
    var flag := options[k].long.value;
    var arg := flag + "=" + value;
    StoreRefuses(options[k].kind, k, value, 1);
    StoreRefuses(options[k].kind, k, value, 2);
    assert flag <= arg && arg[|flag|] == '=' && arg[|flag| + 1..] == value && arg != flag;
  }

  /** A group reads a missing argument exactly if it asks for a number with its last flag and all others are boolean. */
  lemma GroupCrashesIff(options: seq<Opt>, arg: string)
    requires OrdinaryTable(options) && '\0' !in arg
    ensures GroupCrashes(options, arg) <==> exists ks: seq<nat>, k: nat :: AsksForNumber(options, ks, k, arg)
  {
    if GroupCrashes(options, arg) {
      var ks, k := CrashingGroup(options, arg[1..]);
      assert "-" + arg[1..] == arg;
    }
    if ks: seq<nat>, k: nat :| AsksForNumber(options, ks, k, arg) {
      var s := [options[k].short];
      GroupIsShort(options, ks, s);
      assert arg[1..] == Letters(options, ks) + s;
      ShortBoolsRead(options, ks, s, None);
      ShortFinds(options, 0, k, s, None);
    }
  }

  /**
    A line of items and a last argument, in both modes: the missing argument behind it is read exactly if
    the last argument asks for a number.
   */
  lemma {:induction false} LineCrashesIff(options: seq<Opt>, items: seq<Item>, last: string, stop: bool)
    requires ProperItems(options, items, stop) && OrdinaryTable(options) && '\0' !in last
    ensures Scan(options, AllTokens(options, items) + [last], stop).crash <==>
            exists ks: seq<nat>, k: nat :: AsksForNumber(options, ks, k, last)
    decreases |items|
  {
    if items == [] {
      assert [] + [last] == [last];
      CrashIff(options, [last], stop);
      GroupCrashesIff(options, last);
    } else {
      hide Scan, Tokens, AsksForNumber;
      LineCrashesIff(options, items[1..], last, stop);
      ItemThen(options, items[0], AllTokens(options, items[1..]) + [last], stop);
      Regroup(Tokens(options, items[0]), AllTokens(options, items[1..]), [last]);
    }
  }
}
