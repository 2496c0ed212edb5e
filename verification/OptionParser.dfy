/** `parse_options` on an argument vector that is shifted in place (src/parse-options.c). */
module OptionParser {
  import opened Wrappers
  import opened Decimals
  import opened ParseOptions

  /** The first `n` slots of the vector hold `args`; there is at least one more slot. */
  ghost predicate Holds(argv: array<Option<string>>, n: nat, args: seq<string>)
    reads argv
  {
    |args| == n < argv.Length && forall i | 0 <= i < n :: argv[i] == Some(args[i])
  }

  function Cut(args: seq<string>, index: nat, count: nat): seq<string>
    requires index + count <= |args|
  {
    args[..index] + args[index + count..]
  }

  lemma CutEnds(args: seq<string>, index: nat)
    requires index <= |args|
    ensures Cut(args, index, 0) == args && (args != [] ==> Cut(args, 0, 1) == args[1..])
  {
  }

  /** `array_shift` */
  method ArrayShift(argv: array<Option<string>>, index: nat, len: nat, count: nat, ghost args: seq<string>)
    returns (newLen: nat)
    requires Holds(argv, len, args)
    requires index < len ==> 0 < count <= len - index
    modifies argv
    ensures index >= len ==> newLen == len && argv[..] == old(argv[..])
    ensures index < len ==>
              newLen == len - count && Holds(argv, newLen, Cut(args, index, count)) && argv[newLen] == None
  {
    if len <= 0 || index >= len {
      return len;
    }
    newLen := len - count;
    for i := index to newLen
      invariant forall k | 0 <= k < index || i + count <= k < len :: argv[k] == old(argv[k])
      invariant forall k | index <= k < i :: argv[k] == old(argv[k + count])
    {
      argv[i] := argv[i + count];
    }
    argv[newLen] := None;
  }

  method StoreValue(values: array<Value>, w: Write)
    requires w.target < values.Length
    modifies values
    ensures values[..] == Apply(old(values[..]), w)
  {
    match w
    case SetInt(k, n) => values[k] := IntValue(n);
    case SetStr(k, s) => values[k] := StrValue(s);
    case Append(k, s) => values[k] := ListValue((if values[k].ListValue? then values[k].items else []) + [s]);
  }

  lemma ApplyOne(values: seq<Value>, w: Write)
    ensures ApplyAll(values, [w]) == Apply(values, w)
  {
    assert [w][1..] == [];
  }

  /** Give option `k` the value `s`, if it takes it, and shift `count` arguments out of the vector. */
  method Take(argv: array<Option<string>>, argc: nat, index: nat, count: nat, values: array<Value>,
              options: seq<Opt>, k: nat, s: string, ghost args: seq<string>) returns (taken: bool)
    requires Holds(argv, argc, args) && index < argc && 0 < count <= argc - index
    requires k < |options| == values.Length
    modifies argv, values
    ensures var e := Store(options[k].kind, k, s, count);
            && taken == e.Some?
            && (!taken ==> argv[..] == old(argv[..]) && values[..] == old(values[..]))
            && (taken ==> Holds(argv, argc - count, Cut(args, index, count)) &&
                          values[..] == ApplyAll(old(values[..]), e.value.writes))
  {
    hide Cut, Apply, ApplyAll;
    var newLen;
    match options[k].kind
    case Int =>
      var n := StrToL(s);
      if n.used != |s| {
        return false;
      }
      newLen := ArrayShift(argv, index, argc, count, args);
      ApplyOne(values[..], SetInt(k, ToInt(n.value)));
      StoreValue(values, SetInt(k, ToInt(n.value)));
      return true;
    case Str =>
      newLen := ArrayShift(argv, index, argc, count, args);
      ApplyOne(values[..], SetStr(k, s));
      StoreValue(values, SetStr(k, s));
      return true;
    case StrList =>
      newLen := ArrayShift(argv, index, argc, count, args);
      ApplyOne(values[..], Append(k, s));
      StoreValue(values, Append(k, s));
      return true;
    case _ =>
      return false;
  }

  function Next(args: seq<string>, index: nat): Option<string> {
    if index + 1 < |args| then Some(args[index + 1]) else None
  }

  /** The vector and the values after an effect at position `index`. */
  ghost predicate Took(e: Effect, argv: array<Option<string>>, args: seq<string>, index: nat,
                       was: seq<Value>, now: seq<Value>)
    reads argv
  {
    && index + e.shift <= |args|
    && Holds(argv, |args| - e.shift, Cut(args, index, e.shift))
    && now == ApplyAll(was, e.writes)
  }

  lemma TookNothing(argv: array<Option<string>>, args: seq<string>, index: nat, values: seq<Value>)
    requires Holds(argv, |args|, args) && index <= |args|
    ensures Took(NOTHING, argv, args, index, values, values)
  {
    assert args[..index] + args[index..] == args;
  }

  /** `parse_long_option` */
  method ParseLongOption(argc: nat, argv: array<Option<string>>, index: nat, options: seq<Opt>, values: array<Value>,
                         ghost args: seq<string>) returns (shifted: nat)
    requires Holds(argv, argc, args) && index < argc && IsLong(args[index]) && |options| == values.Length
    modifies argv, values
    ensures shifted == LongFrom(options, 0, args[index][2..], Next(args, index)).shift
    ensures Took(LongFrom(options, 0, args[index][2..], Next(args, index)), argv, args, index,
                 old(values[..]), values[..])
  {
    hide Cut, Store, Apply, ApplyAll;
    var arg := argv[index].value[2..];
    ghost var next := Next(args, index);
    for k := 0 to |options|
      invariant argv[..] == old(argv[..]) && values[..] == old(values[..])
      invariant LongFrom(options, k, arg, next) == LongFrom(options, 0, args[index][2..], next)
    {
      assert forall i | 0 <= i < argc :: argv[i] == argv[..][i];
      if options[k].long.None? {
        continue;
      }
      var flag := options[k].long.value;
      if options[k].kind == Bool && arg == flag {
        var newLen := ArrayShift(argv, index, argc, 1, args);
        ApplyOne(values[..], SetInt(k, 1));
        StoreValue(values, SetInt(k, 1));
        return 1;
      }
      if !(flag <= arg) {
        continue;
      }
      if |arg| == |flag| {
        // the value is in the next argument
        if index + 1 >= argc {
          continue;
        }
        arg := argv[index + 1].value;
        var taken := Take(argv, argc, index, 2, values, options, k, arg, args);
        if taken {
          return 2;
        }
      } else if arg[|flag|] == '=' {
        // the value is attached
        arg := arg[|flag| + 1..];
        var taken := Take(argv, argc, index, 1, values, options, k, arg, args);
        if taken {
          return 1;
        }
      }
    }
    assert forall i | 0 <= i < argc :: argv[i] == argv[..][i];
    TookNothing(argv, args, index, values[..]);
    return 0;
  }

  /** The effect of the flags read so far and those still to come. */
  ghost predicate Reading(options: seq<Opt>, ws: seq<Write>, k: nat, s: string, next: Option<string>, all: Effect) {
    After(ws, ShortFrom(options, k, s, next)) == all
  }

  /** `parse_short_option`; `crash` if a missing argument is read. */
  method ParseShortOption(argc: nat, argv: array<Option<string>>, index: nat, options: seq<Opt>, values: array<Value>,
                          ghost args: seq<string>) returns (shifted: nat, crash: bool)
    requires Holds(argv, argc, args) && index < argc && args[index] != "" && |options| == values.Length
    modifies argv, values
    ensures var e := ShortFrom(options, 0, args[index][1..], Next(args, index));
            && crash == e.crash
            && (!crash ==> shifted == e.shift && Took(e, argv, args, index, old(values[..]), values[..]))
  {
    hide Cut, Store, Apply, ApplyAll, Reading;
    var text := argv[index].value[1..];
    ghost var all, ws := ShortFrom(options, 0, text, Next(args, index)), [];
    ReadingStart(options, text, Next(args, index));
    var i := 0;
    while i < |text|
      invariant i <= |text| && argv[..] == old(argv[..]) && values[..] == ApplyAll(old(values[..]), ws)
      invariant Reading(options, ws, 0, text[i..], Next(args, index), all)
    {
      assert forall j | 0 <= j < argc :: argv[j] == argv[..][j];
      var read;
      read, shifted, crash, ws := ReadFlag(argc, argv, index, options, values, text, i, args, ws, all, old(values[..]));
      if !read {
        return;
      }
      i := i + 1;
    }
    assert forall j | 0 <= j < argc :: argv[j] == argv[..][j];
    ReadingEnd(options, ws, text[i..], Next(args, index), all);
    var newLen := ArrayShift(argv, index, argc, 1, args);
    return 1, false;
  }

  lemma ReadingStart(options: seq<Opt>, s: string, next: Option<string>)
    ensures Reading(options, [], 0, s, next, ShortFrom(options, 0, s, next)) && s[0..] == s
    ensures forall values :: ApplyAll(values, []) == values
  {
    var e := ShortFrom(options, 0, s, next);
    assert [] + e.writes == e.writes;
  }

  lemma ReadingEnd(options: seq<Opt>, ws: seq<Write>, s: string, next: Option<string>, all: Effect)
    requires Reading(options, ws, 0, s, next, all) && s == ""
    ensures all == Effect(1, ws, false)
  {
    assert ws + [] == ws;
  }

  /** The inner loop of `parse_short_option`, for the flag at position `i`. */
  method ReadFlag(argc: nat, argv: array<Option<string>>, index: nat, options: seq<Opt>, values: array<Value>,
                  text: string, i: nat, ghost args: seq<string>, ghost ws: seq<Write>, ghost all: Effect,
                  ghost was: seq<Value>)
    returns (read: bool, shifted: nat, crash: bool, ghost more: seq<Write>)
    requires Holds(argv, argc, args) && index < argc && |options| == values.Length && i < |text|
    requires Reading(options, ws, 0, text[i..], Next(args, index), all) && values[..] == ApplyAll(was, ws)
    modifies argv, values
    ensures read ==> argv[..] == old(argv[..]) && values[..] == ApplyAll(was, more) &&
                     Reading(options, more, 0, text[i + 1..], Next(args, index), all)
    ensures !read ==> crash == all.crash &&
                      (!crash ==> shifted == all.shift && Took(all, argv, args, index, was, values[..]))
  {
    hide Cut, Store, Apply, ApplyAll;
    ghost var s, next := text[i..], Next(args, index);
    assert s[0] == text[i] && s[1..] == text[i + 1..] && |s| == |text| - i;
    for k := 0 to |options|
      invariant argv[..] == old(argv[..]) && values[..] == ApplyAll(was, ws)
      invariant Reading(options, ws, k, s, next, all)
    {
      assert forall j | 0 <= j < argc :: argv[j] == argv[..][j];
      var op := options[k];
      if op.short == '\0' || op.short != text[i] {
        // if the flag is undefined, stop
        if k + 1 == |options| {
          StopHere(argv, args, index, was, ws);
          return false, 0, false, ws;
        }
        continue;
      }
      match op.kind
      case Bool =>
        FlagRead(options, ws, k, s, next, all, was);
        StoreValue(values, SetInt(k, 1));
        return true, 0, false, ws + [SetInt(k, 1)];
      case Command(_) =>
      case Group =>
      case _ =>
        shifted, crash := ReadValue(argc, argv, index, options, k, values, text, i, args, ws, was);
        return false, shifted, crash, ws;
    }
    return true, 0, false, ws;
  }

  lemma FlagRead(options: seq<Opt>, ws: seq<Write>, k: nat, s: string, next: Option<string>, all: Effect,
                 was: seq<Value>)
    requires s != "" && k < |options| && options[k].kind == Bool && options[k].short != '\0' && options[k].short == s[0]
    requires Reading(options, ws, k, s, next, all)
    ensures Reading(options, ws + [SetInt(k, 1)], 0, s[1..], next, all)
    ensures ApplyAll(was, ws + [SetInt(k, 1)]) == Apply(ApplyAll(was, ws), SetInt(k, 1))
  {
    var e, w := ShortFrom(options, 0, s[1..], next), SetInt(k, 1);
    assert ws + ([w] + e.writes) == ws + [w] + e.writes;
    ApplyConcat(was, ws, [w]);
    ApplyOne(ApplyAll(was, ws), w);
  }

  lemma StopHere(argv: array<Option<string>>, args: seq<string>, index: nat, was: seq<Value>, ws: seq<Write>)
    requires Holds(argv, |args|, args) && index <= |args|
    ensures Took(After(ws, NOTHING), argv, args, index, was, ApplyAll(was, ws))
  {
    assert args[..index] + args[index..] == args;
    assert ws + [] == ws;
  }

  method ReadValue(argc: nat, argv: array<Option<string>>, index: nat, options: seq<Opt>, k: nat, values: array<Value>,
                   text: string, i: nat, ghost args: seq<string>, ghost ws: seq<Write>, ghost was: seq<Value>)
    returns (shifted: nat, crash: bool)
    requires Holds(argv, argc, args) && index < argc && k < |options| == values.Length && i < |text|
    requires options[k].kind.Int? || options[k].kind.Str? || options[k].kind.StrList?
    requires values[..] == ApplyAll(was, ws)
    modifies argv, values
    ensures var e := After(ws, ValueEffect(options[k].kind, k, text[i..], Next(args, index)));
            crash == e.crash && (!crash ==> shifted == e.shift && Took(e, argv, args, index, was, values[..]))
  {
    hide Cut, Store, Apply, ApplyAll;
    assert text[i..][1..] == text[i + 1..];
    var value, count := "", 2;
    if options[k].kind == Int && i + 1 < |text| {
      // the value is attached
      value, count := text[i + 1..], 1;
    } else if i + 1 < |text| {
      // intermediate flags that take values are not allowed
      StopHere(argv, args, index, was, ws);
      return 0, false;
    } else if index + 1 >= argc {
      StopHere(argv, args, index, was, ws);
      return 0, options[k].kind == Int;
    } else {
      value := argv[index + 1].value;
    }
    var taken := Take(argv, argc, index, count, values, options, k, value, args);
    if !taken {
      assert forall j | 0 <= j < argc :: argv[j] == argv[..][j];
      StopHere(argv, args, index, was, ws);
      return 0, false;
    }
    ApplyConcat(was, ws, Store(options[k].kind, k, value, count).value.writes);
    return count, false;
  }

  // ---------- the whole command line ----------

  /** Arguments before `index` are kept, `ws` is stored, and the rest is still to be scanned. */
  ghost predicate Scanning(options: seq<Opt>, args: seq<string>, index: nat, ws: seq<Write>, stop: bool, all: Scanned) {
    index <= |args| && Before(args[..index], ws, Scan(options, args[index..], stop)) == all
  }

  lemma ScanningStart(options: seq<Opt>, args: seq<string>, stop: bool, values: seq<Value>)
    ensures Scanning(options, args, 0, [], stop, Scan(options, args, stop)) && ApplyAll(values, []) == values
  {
    var r := Scan(options, args, stop);
    assert args[0..] == args && [] + r.kept == r.kept && [] + r.writes == r.writes;
  }

  /** A round that goes on, with the arguments it took cut out. */
  lemma ScanningGo(options: seq<Opt>, args: seq<string>, index: nat, ws: seq<Write>, stop: bool, all: Scanned)
    requires index < |args| && Scanning(options, args, index, ws, stop, all)
    requires StepOf(options, args[index..], stop).Go?
    ensures var step := StepOf(options, args[index..], stop);
            if step.kept == [] then Scanning(options, Cut(args, index, step.n), index, ws + step.writes, stop, all)
            else Scanning(options, args, index + 1, ws + step.writes, stop, all)
  {
    hide StepOf, Scan;
    var step := StepOf(options, args[index..], stop);
    OneRound(options, args[index..], stop);
    var r := Scan(options, args[index..][step.n..], stop);
    assert args[index..][step.n..] == args[index + step.n..];
    assert ws + (step.writes + r.writes) == ws + step.writes + r.writes;
    if step.kept == [] {
      var cut := Cut(args, index, step.n);
      assert cut[..index] == args[..index] && cut[index..] == args[index + step.n..];
      assert [] + r.kept == r.kept;
    } else {
      assert args[..index] + ([args[index]] + r.kept) == args[..index + 1] + r.kept;
    }
  }

  /** A round that ends the scan. */
  lemma ScanningEnd(options: seq<Opt>, args: seq<string>, index: nat, ws: seq<Write>, stop: bool, all: Scanned)
    requires index < |args| && Scanning(options, args, index, ws, stop, all)
    requires StepOf(options, args[index..], stop).End?
    ensures var step := StepOf(options, args[index..], stop);
            && all.writes == ws + step.writes && all.crash == step.crash
            && all.kept == if args[index] == "--" then Cut(args, index, 1) else args
  {
    hide StepOf;
    assert args[..index] + args[index..] == args;
    assert args[index..][1..] == args[index + 1..];
  }

  /** `parse_subcommand` */
  method ParseSubcommand(arg: string, options: seq<Opt>, values: array<Value>) returns (found: bool)
    requires |options| == values.Length
    modifies values
    ensures found <==> FindCommand(options, 0, arg) < |options|
    ensures values[..] == if found then ApplyAll(old(values[..]), CommandWrites(options, FindCommand(options, 0, arg)))
                          else old(values[..])
  {
    for k := 0 to |options|
      invariant FindCommand(options, k, arg) == FindCommand(options, 0, arg) && values[..] == old(values[..])
    {
      if !options[k].kind.Command? {
        continue;
      }
      if arg == options[k].name {
        if options[k].kind.stored {
          ApplyOne(values[..], SetInt(k, 1));
          StoreValue(values, SetInt(k, 1));
        }
        return true;
      }
    }
    return false;
  }

  /** One round of the loop for an argument other than `--`: how many arguments were shifted, and whether to stop. */
  method ParseArgument(argc: nat, argv: array<Option<string>>, index: nat, options: seq<Opt>, values: array<Value>,
                       ghost args: seq<string>) returns (shifted: nat, found: bool, crash: bool, ghost e: Effect)
    requires Holds(argv, argc, args) && index < argc && |options| == values.Length && args[index] != "--"
    modifies argv, values
    ensures !crash ==> shifted == e.shift && Took(e, argv, args, index, old(values[..]), values[..])
    ensures IsOption(args[index]) ==> e == OptionEffect(options, args[index..]) && crash == e.crash && !found
    ensures !IsOption(args[index]) ==>
              var k := FindCommand(options, 0, args[index]);
              && !crash && (found <==> k < |options|)
              && e == Effect(0, if found then CommandWrites(options, k) else [], false)
  {
    hide Cut, ApplyAll, LongFrom, ShortFrom, CommandWrites, FindCommand;
    var arg := argv[index].value;
    shifted, found, crash, e := 0, false, false, NOTHING;
    assert args[index..][0] == arg && (index + 1 < argc ==> args[index..][1] == args[index + 1]);
    if "--" <= arg {
      e := LongFrom(options, 0, arg[2..], Next(args, index));
      shifted := ParseLongOption(argc, argv, index, options, values, args);
    } else if arg != "" && arg[0] == '-' {
      e := ShortFrom(options, 0, arg[1..], Next(args, index));
      shifted, crash := ParseShortOption(argc, argv, index, options, values, args);
    } else {
      found := ParseSubcommand(arg, options, values);
      if found {
        e := Effect(0, CommandWrites(options, FindCommand(options, 0, arg)), false);
      }
      TookCommand(argv, args, index, old(values[..]), e.writes);
    }
  }

  lemma TookCommand(argv: array<Option<string>>, args: seq<string>, index: nat, was: seq<Value>, ws: seq<Write>)
    requires Holds(argv, |args|, args) && index <= |args|
    ensures Took(Effect(0, ws, false), argv, args, index, was, ApplyAll(was, ws))
    ensures ApplyAll(was, []) == was
  {
    assert args[..index] + args[index..] == args;
  }

  /**
    `parse_options`: the vector keeps the arguments that were not taken, and the values are what the
    stores made of them. `crash` if a short flag reads the NULL after the last argument as its number.
   */
  method Parse(argc: nat, argv: array<Option<string>>, options: seq<Opt>, values: array<Value>,
               skipFirst: bool, stop: bool, ghost args: seq<string>) returns (newLen: nat, crash: bool)
    requires Holds(argv, argc, args) && |options| == values.Length
    modifies argv, values
    ensures var r := Scan(options, if skipFirst && args != [] then args[1..] else args, stop);
            && crash == r.crash
            && (!crash ==> Holds(argv, newLen, r.kept) && values[..] == ApplyAll(old(values[..]), r.writes))
  {
    hide Scan, Scanning, Cut, ApplyAll, OptionEffect, FindCommand, CommandWrites;
    newLen, crash := argc, false;
    ghost var rest, ws := args, [];
    if skipFirst {
      newLen := ArrayShift(argv, 0, newLen, 1, args);
      if args != [] {
        rest := args[1..];
        CutEnds(args, 0);
      }
    }
    ghost var all := Scan(options, rest, stop);
    ScanningStart(options, rest, stop, values[..]);
    var index := 0;
    while index < newLen
      invariant Holds(argv, newLen, rest) && Scanning(options, rest, index, ws, stop, all)
      invariant values[..] == ApplyAll(old(values[..]), ws) && index <= newLen
      decreases newLen - index
    {
      ghost var step, before := StepOf(options, rest[index..], stop), values[..];
      if step.End? {
        ScanningEnd(options, rest, index, ws, stop, all);
      } else {
        ScanningGo(options, rest, index, ws, stop, all);
      }
      if argv[index].value == "--" {
        newLen := ArrayShift(argv, index, newLen, 1, rest);
        assert ws + [] == ws;
        return;
      }
      var shifted, found;
      ghost var e;
      shifted, found, crash, e := ParseArgument(newLen, argv, index, options, values, rest);
      ApplyConcat(old(values[..]), ws, e.writes);
      if crash {
        return;
      }
      newLen := newLen - shifted;
      if shifted == 0 {
        CutEnds(rest, index);
      }
      if found || (shifted == 0 && stop) {
        return;
      }
      if shifted == 0 {
        index := index + 1;
      } else {
        rest := Cut(rest, index, shifted);
      }
      ws := ws + e.writes;
    }
    ScanDone(options, rest, index, ws, stop, all);
  }

  lemma ScanDone(options: seq<Opt>, args: seq<string>, index: nat, ws: seq<Write>, stop: bool, all: Scanned)
    requires index == |args| && Scanning(options, args, index, ws, stop, all)
    ensures all == Scanned(args, ws, false)
  {
    assert args[..index] + [] == args && ws + [] == ws;
  }
}
