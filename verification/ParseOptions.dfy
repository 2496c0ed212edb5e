/**
  Reading command-line options (src/parse-options.c). The functions say what a list of arguments means;
  the methods shift the argument vector in place and store through the options' value pointers.
 */
module ParseOptions {
  import opened Wrappers
  import opened Decimals

  /** A command may be without a value pointer. */
  datatype Kind = Bool | Int | Str | StrList | Command(stored: bool) | Group

  /** An option; a NUL as short flag stands for none. */
  datatype Opt = Opt(short: char, long: Option<string>, name: string, kind: Kind)

  /** What an option's value pointer points to. */
  datatype Value = Unset | IntValue(n: int) | StrValue(s: string) | ListValue(items: seq<string>)

  /** One store through the value pointer of an option. */
  datatype Write = SetInt(target: nat, n: int) | SetStr(target: nat, s: string) | Append(target: nat, s: string)

  function Apply(values: seq<Value>, w: Write): (r: seq<Value>)
    ensures |r| == |values|
  {
    if w.target >= |values| then values
    else
      match w
      case SetInt(k, n) => values[k := IntValue(n)]
      case SetStr(k, s) => values[k := StrValue(s)]
      case Append(k, s) =>
        values[k := ListValue((if values[k].ListValue? then values[k].items else []) + [s])]
  }

  function ApplyAll(values: seq<Value>, ws: seq<Write>): (r: seq<Value>)
    ensures |r| == |values|
    decreases |ws|
  {
    if ws == [] then values else ApplyAll(Apply(values, ws[0]), ws[1..])
  }

  lemma {:induction false} ApplyConcat(values: seq<Value>, a: seq<Write>, b: seq<Write>)
    ensures ApplyAll(values, a + b) == ApplyAll(ApplyAll(values, a), b)
    decreases |a|
  {
    if a == [] {
      assert a + b == b;
    } else {
      assert (a + b)[1..] == a[1..] + b;
      ApplyConcat(Apply(values, a[0]), a[1..], b);
    }
  }

  /** The texts that are appended to one value, in order. */
  function Appended(ws: seq<Write>, k: nat): seq<string> {
    if ws == [] then []
    else (if ws[0].Append? && ws[0].target == k then [ws[0].s] else []) + Appended(ws[1..], k)
  }

  /** The list that a value holds, if any, with texts behind it. */
  function Extended(v: Value, more: seq<string>): Value {
    if more == [] then v else ListValue((if v.ListValue? then v.items else []) + more)
  }

  lemma ExtendedTwice(v: Value, a: seq<string>, b: seq<string>)
    ensures Extended(Extended(v, a), b) == Extended(v, a + b)
  {
    var items := if v.ListValue? then v.items else [];
    assert items + a + b == items + (a + b) && a + [] == a && [] + b == b;
  }

  /** A value to which texts are appended is the list of them; one that nothing is stored to stays as it is. */
  lemma {:induction false} ListAfter(values: seq<Value>, ws: seq<Write>, k: nat)
    requires k < |values| && forall i | 0 <= i < |ws| && ws[i].target == k :: ws[i].Append?
    ensures ApplyAll(values, ws)[k] == Extended(values[k], Appended(ws, k))
    decreases |ws|
  {
    if ws != [] {
      hide Apply, Extended;
      var w := ws[0];
      ListAfter(Apply(values, w), ws[1..], k);
      ListStep(values, w, k);
      ExtendedTwice(values[k], if w.target == k then [w.s] else [], Appended(ws[1..], k));
    } else {
      ExtendedTwice(values[k], [], []);
    }
  }

  lemma ListStep(values: seq<Value>, w: Write, k: nat)
    requires k < |values| && (w.target == k ==> w.Append?)
    ensures Apply(values, w)[k] == Extended(values[k], if w.target == k then [w.s] else [])
  {
  }

  /** A number or string that is stored last is what the value holds. */
  lemma LastStored(values: seq<Value>, ws: seq<Write>, k: nat, n: int, s: string)
    requires k < |values|
    ensures ApplyAll(values, ws + [SetInt(k, n)])[k] == IntValue(n)
    ensures ApplyAll(values, ws + [SetStr(k, s)])[k] == StrValue(s)
  {
    ApplyConcat(values, ws, [SetInt(k, n)]);
    ApplyConcat(values, ws, [SetStr(k, s)]);
    var v := ApplyAll(values, ws);
    assert [SetInt(k, n)][1..] == [] && [SetStr(k, s)][1..] == [];
    assert ApplyAll(v, [SetInt(k, n)]) == Apply(v, SetInt(k, n));
    assert ApplyAll(v, [SetStr(k, s)]) == Apply(v, SetStr(k, s));
  }

  // ---------- what an argument means ----------

  /** How many arguments are taken, what is stored, and whether a missing argument is read. */
  datatype Effect = Effect(shift: nat, writes: seq<Write>, crash: bool)

  const NOTHING := Effect(0, [], false)

  function After(ws: seq<Write>, e: Effect): Effect {
    Effect(e.shift, ws + e.writes, e.crash)
  }

  /** The narrowing of a `long` to an `int`. */
  function ToInt(v: int): int {
    var m := v % 0x1_0000_0000;
    if m >= 0x8000_0000 then m - 0x1_0000_0000 else m
  }

  predicate IsInteger(s: string) {
    StrToL(s).used == |s|
  }

  /** The effect of giving option `k` of kind `kind` the value `s`, or none if it does not take it. */
  function Store(kind: Kind, k: nat, s: string, shift: nat): (r: Option<Effect>)
    ensures r.Some? ==> r.value.shift == shift && !r.value.crash
  {
    match kind
    case Int => if IsInteger(s) then Some(Effect(shift, [SetInt(k, ToInt(StrToL(s).value))], false)) else None
    case Str => Some(Effect(shift, [SetStr(k, s)], false))
    case StrList => Some(Effect(shift, [Append(k, s)], false))
    case _ => None
  }

  /**
    `parse_long_option` from option `k` on; `arg` is the argument without its dashes, and `next` the one
    after it. If an option does not take its value, the search goes on with the value in place of `arg`.
   */
  function LongFrom(options: seq<Opt>, k: nat, arg: string, next: Option<string>): (e: Effect)
    ensures e.shift <= (if next.Some? then 2 else 1) && !e.crash
    decreases |options| - k
  {
    if k >= |options| then NOTHING
    else if options[k].long.None? then LongFrom(options, k + 1, arg, next)
    else
      var kind, flag := options[k].kind, options[k].long.value;
      if kind == Bool && arg == flag then Effect(1, [SetInt(k, 1)], false)
      else if !(flag <= arg) then LongFrom(options, k + 1, arg, next)
      else if |arg| == |flag| then
        if next.None? then LongFrom(options, k + 1, arg, next)
        else Store(kind, k, next.value, 2).GetOr(LongFrom(options, k + 1, next.value, next))
      else if arg[|flag|] == '=' then
        var value := arg[|flag| + 1..];
        Store(kind, k, value, 1).GetOr(LongFrom(options, k + 1, value, next))
      else LongFrom(options, k + 1, arg, next)
  }

  /** The effect of a flag that takes a value, as the last one in its argument or with the value attached. */
  function ValueEffect(kind: Kind, k: nat, s: string, next: Option<string>): (r: Effect)
    requires s != ""
    ensures r.shift <= (if next.Some? then 2 else 1)
    ensures r.crash ==> next.None?
  {
    match kind
    case Int =>
      if |s| > 1 then Store(Int, k, s[1..], 1).GetOr(NOTHING)
      else if next.None? then Effect(0, [], true)
      else Store(Int, k, next.value, 2).GetOr(NOTHING)
    case _ => if |s| > 1 || next.None? then NOTHING else Store(kind, k, next.value, 2).GetOr(NOTHING)
  }

  /** `parse_short_option` for the flags in `s`, at the first of them from option `k` on. */
  function ShortFrom(options: seq<Opt>, k: nat, s: string, next: Option<string>): (e: Effect)
    ensures e.shift <= (if next.Some? then 2 else 1)
    ensures e.crash ==> next.None?
    decreases |s|, |options| - k
  {
    if s == "" then Effect(1, [], false)
    else if k >= |options| then ShortFrom(options, 0, s[1..], next)
    else
      var op := options[k];
      if op.short == '\0' || op.short != s[0] then
        if k + 1 == |options| then NOTHING else ShortFrom(options, k + 1, s, next)
      else
        match op.kind
        case Bool => After([SetInt(k, 1)], ShortFrom(options, 0, s[1..], next))
        case Command(_) => ShortFrom(options, k + 1, s, next)
        case Group => ShortFrom(options, k + 1, s, next)
        case kind => ValueEffect(kind, k, s, next)
  }

  predicate IsOption(arg: string) {
    arg != "" && arg[0] == '-'
  }

  predicate IsLong(arg: string) {
    "--" <= arg
  }

  /** The effect of the option at the front of `rest`. */
  function OptionEffect(options: seq<Opt>, rest: seq<string>): (e: Effect)
    requires rest != [] && IsOption(rest[0])
    ensures e.shift <= |rest|
  {
    var next := if |rest| > 1 then Some(rest[1]) else None;
    if IsLong(rest[0]) then LongFrom(options, 0, rest[0][2..], next) else ShortFrom(options, 0, rest[0][1..], next)
  }

  /** The first command with the given name, or the number of options. */
  function FindCommand(options: seq<Opt>, k: nat, arg: string): (r: nat)
    requires k <= |options|
    ensures k <= r <= |options|
    decreases |options| - k
  {
    if k == |options| || (options[k].kind.Command? && options[k].name == arg) then k
    else FindCommand(options, k + 1, arg)
  }

  function CommandWrites(options: seq<Opt>, k: nat): seq<Write>
    requires k < |options|
  {
    if options[k].kind.Command? && options[k].kind.stored then [SetInt(k, 1)] else []
  }

  /** The arguments that are kept, all stores, and whether the run ended by reading a missing argument. */
  datatype Scanned = Scanned(kept: seq<string>, writes: seq<Write>, crash: bool)

  function Before(kept: seq<string>, writes: seq<Write>, r: Scanned): Scanned {
    Scanned(kept + r.kept, writes + r.writes, r.crash)
  }

  /** A round either ends the scan or goes on after `n` arguments. */
  datatype Step = End(kept: seq<string>, writes: seq<Write>, crash: bool)
                | Go(n: nat, kept: seq<string>, writes: seq<Write>)

  /** One round of the loop of `parse_options`, at the front of the arguments still to come. */
  function StepOf(options: seq<Opt>, rest: seq<string>, stop: bool): (r: Step)
    requires rest != []
    ensures r.Go? ==> 1 <= r.n <= |rest| && (r.kept == [] || (r.n == 1 && !stop && r.kept == [rest[0]]))
    ensures r.End? ==> r.kept == if rest[0] == "--" then rest[1..] else rest
    ensures rest[0] == "--" ==> r.End? && r.writes == [] && !r.crash
  {
    if rest[0] == "--" then End(rest[1..], [], false)
    else if IsOption(rest[0]) then
      var e := OptionEffect(options, rest);
      if e.crash then End(rest, e.writes, true)
      else if e.shift > 0 then Go(e.shift, [], e.writes)
      else if stop then End(rest, e.writes, false)
      else Go(1, [rest[0]], e.writes)
    else
      var k := FindCommand(options, 0, rest[0]);
      if k < |options| then End(rest, CommandWrites(options, k), false)
      else if stop then End(rest, [], false)
      else Go(1, [rest[0]], [])
  }

  /** The loop of `parse_options` over the arguments still to come. */
  function Scan(options: seq<Opt>, rest: seq<string>, stop: bool): Scanned
    decreases |rest|
  {
    if rest == [] then Scanned([], [], false)
    else
      match StepOf(options, rest, stop)
      case End(kept, writes, crash) => Scanned(kept, writes, crash)
      case Go(n, kept, writes) => Before(kept, writes, Scan(options, rest[n..], stop))
  }

  // ---------- what is kept ----------

  /** `a` is `b` with elements left out. */
  predicate IsSubsequence(a: seq<string>, b: seq<string>)
    decreases |b|
  {
    a == [] || (b != [] && ((a[0] == b[0] && IsSubsequence(a[1..], b[1..])) || IsSubsequence(a, b[1..])))
  }

  lemma {:induction false} SubsequenceSkip(a: seq<string>, b: seq<string>, n: nat)
    requires n <= |b| && IsSubsequence(a, b[n..])
    ensures IsSubsequence(a, b)
  {
    if n == 0 {
      assert b[0..] == b;
    } else {
      assert b[n - 1..][1..] == b[n..];
      SubsequenceSkip(a, b, n - 1);
    }
  }

  lemma {:induction false} SubsequenceSelf(a: seq<string>)
    ensures IsSubsequence(a, a)
  {
    if a != [] {
      SubsequenceSelf(a[1..]);
    }
  }

  /** What is left of the arguments is in its old order. */
  lemma {:induction false} KeptInOrder(options: seq<Opt>, rest: seq<string>, stop: bool)
    ensures IsSubsequence(Scan(options, rest, stop).kept, rest)
    decreases |rest|
  {
    hide StepOf;
    if rest != [] {
      var step := StepOf(options, rest, stop);
      if step.End? {
        SubsequenceSelf(rest);
        SubsequenceSelf(rest[1..]);
        SubsequenceSkip(rest[1..], rest, 1);
      } else {
        var kept := Scan(options, rest[step.n..], stop).kept;
        KeptInOrder(options, rest[step.n..], stop);
        SubsequenceSkip(kept, rest, step.n);
        assert [] + kept == kept && ([rest[0]] + kept)[1..] == kept;
      }
    }
  }

  /** If the scan stops at the first unknown argument, a suffix is left. */
  lemma {:induction false} KeptIsSuffix(options: seq<Opt>, rest: seq<string>) returns (n: nat)
    ensures n <= |rest| && Scan(options, rest, true).kept == rest[n..]
    decreases |rest|
  {
    hide StepOf;
    if rest == [] {
      return 0;
    }
    var step := StepOf(options, rest, true);
    if step.End? {
      assert rest[0..] == rest;
      return if rest[0] == "--" then 1 else 0;
    }
    var m := KeptIsSuffix(options, rest[step.n..]);
    var kept := Scan(options, rest[step.n..], true).kept;
    assert [] + kept == kept;
    assert rest[step.n..][m..] == rest[step.n + m..];
    return step.n + m;
  }

  /** The position of the `--` that ends the scan, if one does. */
  function Dashes(options: seq<Opt>, rest: seq<string>, stop: bool): (r: Option<nat>)
    ensures r.Some? ==> r.value < |rest| && rest[r.value] == "--"
    decreases |rest|
  {
    if rest == [] then None
    else if rest[0] == "--" then Some(0)
    else
      match StepOf(options, rest, stop)
      case End(_, _, _) => None
      case Go(n, _, _) =>
        var d := Dashes(options, rest[n..], stop);
        if d.None? then None else Some(n + d.value)
  }

  /** A round depends on the first two arguments only, as far as it goes on. */
  lemma StepOfPrefix(options: seq<Opt>, a: seq<string>, b: seq<string>, c: seq<string>, stop: bool)
    requires a != [] && StepOf(options, a + ["--"] + b, stop).Go?
    ensures StepOf(options, a + ["--"] + c, stop) == StepOf(options, a + ["--"] + b, stop)
  {
    hide LongFrom, ShortFrom, FindCommand;
    var sb, sc := a + ["--"] + b, a + ["--"] + c;
    assert sb[0] == sc[0] && sb[1] == sc[1];
  }

  /**
    Everything after a `--` that is reached is kept as it is, and has no influence on what was taken and
    stored before: with another tail, the same `--` is reached with the same outcome.
   */
  lemma {:induction false} AfterDashes(options: seq<Opt>, a: seq<string>, b: seq<string>, c: seq<string>, stop: bool)
    returns (kept: seq<string>, writes: seq<Write>)
    requires Dashes(options, a + ["--"] + b, stop) == Some(|a|)
    ensures Dashes(options, a + ["--"] + c, stop) == Some(|a|)
    ensures Scan(options, a + ["--"] + b, stop) == Scanned(kept + b, writes, false)
    ensures Scan(options, a + ["--"] + c, stop) == Scanned(kept + c, writes, false)
    decreases |a|
  {
    hide StepOf, Scan, Dashes, Before;
    var sb, sc := a + ["--"] + b, a + ["--"] + c;
    if a == [] {
      AtDashes(options, b, stop);
      AtDashes(options, c, stop);
      assert sb == ["--"] + b && sc == ["--"] + c;
      return [], [];
    }
    assert sb[0] == a[0] == sc[0];
    OneRound(options, sb, stop);
    var step := StepOf(options, sb, stop);
    StepOfPrefix(options, a, b, c, stop);
    OneRound(options, sc, stop);
    TailOf(a, b, step.n);
    TailOf(a, c, step.n);
    var k, w := AfterDashes(options, a[step.n..], b, c, stop);
    BeforeTail(step.kept, step.writes, k, w, b);
    BeforeTail(step.kept, step.writes, k, w, c);
    return step.kept + k, step.writes + w;
  }

  lemma OneRound(options: seq<Opt>, s: seq<string>, stop: bool)
    requires s != []
    ensures var step := StepOf(options, s, stop);
            && (step.Go? ==> Scan(options, s, stop) == Before(step.kept, step.writes, Scan(options, s[step.n..], stop)))
            && (Dashes(options, s, stop).Some? && Dashes(options, s, stop) != Some(0) ==>
                  step.Go? && Dashes(options, s[step.n..], stop).Some? &&
                  Dashes(options, s, stop).value == step.n + Dashes(options, s[step.n..], stop).value)
            && (step.Go? && Dashes(options, s[step.n..], stop).Some? ==>
                  Dashes(options, s, stop) == Some(step.n + Dashes(options, s[step.n..], stop).value))
  {
    hide StepOf, Scan, Dashes, Before;
    ScanRound(options, s, stop);
    DashesRound(options, s, stop);
  }

  lemma ScanRound(options: seq<Opt>, s: seq<string>, stop: bool)
    requires s != []
    ensures var step := StepOf(options, s, stop);
            step.Go? ==> Scan(options, s, stop) == Before(step.kept, step.writes, Scan(options, s[step.n..], stop))
  {
    hide StepOf, Before;
  }

  lemma DashesRound(options: seq<Opt>, s: seq<string>, stop: bool)
    requires s != []
    ensures var step := StepOf(options, s, stop);
            && (Dashes(options, s, stop).Some? && Dashes(options, s, stop) != Some(0) ==>
                  step.Go? && Dashes(options, s[step.n..], stop).Some? &&
                  Dashes(options, s, stop).value == step.n + Dashes(options, s[step.n..], stop).value)
            && (step.Go? && Dashes(options, s[step.n..], stop).Some? ==>
                  Dashes(options, s, stop) == Some(step.n + Dashes(options, s[step.n..], stop).value))
  {
    hide StepOf;
  }

  lemma AtDashes(options: seq<Opt>, b: seq<string>, stop: bool)
    ensures Dashes(options, ["--"] + b, stop) == Some(0)
    ensures Scan(options, ["--"] + b, stop) == Scanned([] + b, [], false)
  {
    var s := ["--"] + b;
    assert s[0] == "--" && s[1..] == b;
    assert StepOf(options, s, stop) == End(b, [], false);
    assert [] + b == b;
  }

  lemma BeforeTail(k1: seq<string>, w1: seq<Write>, k2: seq<string>, w2: seq<Write>, b: seq<string>)
    ensures Before(k1, w1, Scanned(k2 + b, w2, false)) == Scanned(k1 + k2 + b, w1 + w2, false)
  {
  }

  lemma TailOf(a: seq<string>, b: seq<string>, n: nat)
    requires n <= |a|
    ensures (a + ["--"] + b)[n..] == a[n..] + ["--"] + b
  {
  }

  // ---------- reading a missing argument ----------

  /** The argument is a group of short flags whose last one takes a number. */
  ghost predicate EndsInIntFlag(options: seq<Opt>, flags: string) {
    flags != "" && exists k | 0 <= k < |options| :: options[k].kind == Int && options[k].short == flags[|flags| - 1]
  }

  lemma {:induction false} ShortCrash(options: seq<Opt>, k: nat, s: string, next: Option<string>)
    requires ShortFrom(options, k, s, next).crash
    ensures EndsInIntFlag(options, s)
    decreases |s|, |options| - k
  {
    if k >= |options| {
      ShortCrash(options, 0, s[1..], next);
    } else {
      var op := options[k];
      if op.short == '\0' || op.short != s[0] || op.kind.Command? || op.kind.Group? {
        ShortCrash(options, k + 1, s, next);
      } else if op.kind == Bool {
        ShortCrash(options, 0, s[1..], next);
      }
    }
  }

  /** A group of short flags, as the last argument, makes the code read the missing one behind it. */
  predicate GroupCrashes(options: seq<Opt>, arg: string) {
    IsOption(arg) && !IsLong(arg) && ShortFrom(options, 0, arg[1..], None).crash
  }

  /** A round of the scan starts at position `i`; it is not skipped as a value, and the scan does not end before. */
  predicate StartsRound(options: seq<Opt>, rest: seq<string>, stop: bool, i: nat)
    decreases |rest|
  {
    rest != [] &&
    (i == 0 ||
     match StepOf(options, rest, stop)
     case End(_, _, _) => false
     case Go(n, _, _) => n <= i && StartsRound(options, rest[n..], stop, i - n))
  }

  lemma StepCrash(options: seq<Opt>, rest: seq<string>, stop: bool)
    requires rest != []
    ensures var step := StepOf(options, rest, stop);
            && (step.End? && step.crash ==> |rest| == 1)
            && (|rest| == 1 ==> (step.End? && step.crash <==> GroupCrashes(options, rest[0])))
  {
    hide LongFrom, ShortFrom, FindCommand;
  }

  /**
    The NULL behind the last argument is read exactly if a round starts at the last argument and that is a
    group of short flags which asks for a number.
   */
  lemma {:induction false} CrashIff(options: seq<Opt>, rest: seq<string>, stop: bool)
    ensures Scan(options, rest, stop).crash <==>
            rest != [] && StartsRound(options, rest, stop, |rest| - 1) && GroupCrashes(options, rest[|rest| - 1])
    decreases |rest|
  {
    hide StepOf, GroupCrashes;
    if rest != [] {
      StepCrash(options, rest, stop);
      var step := StepOf(options, rest, stop);
      if step.Go? {
        CrashIff(options, rest[step.n..], stop);
      }
    }
  }

  /** A missing argument is read only if the last argument is a group whose last flag takes a number. */
  lemma CrashAtEnd(options: seq<Opt>, rest: seq<string>, stop: bool)
    requires Scan(options, rest, stop).crash
    ensures rest != [] && IsOption(rest[|rest| - 1]) && !IsLong(rest[|rest| - 1])
    ensures EndsInIntFlag(options, rest[|rest| - 1][1..])
  {
    CrashIff(options, rest, stop);
    ShortCrash(options, 0, rest[|rest| - 1][1..], None);
  }

  // ---------- long options with a value ----------

  /** Option `k` is the first with the long flag `flag`; no flag up to it has an equals sign. */
  ghost predicate FirstLong(options: seq<Opt>, k: nat, flag: string) {
    && k < |options| && options[k].long == Some(flag)
    && (forall i | 0 <= i < k :: options[i].long != Some(flag))
    && (forall i | 0 <= i <= k && options[i].long.Some? :: '=' !in options[i].long.value)
  }

  /** A value may be attached with an equals sign or be the next argument; both store the same. */
  lemma {:induction false} LongValue(options: seq<Opt>, i: nat, k: nat, flag: string, value: string,
                                     next: Option<string>)
    requires FirstLong(options, k, flag) && i <= k && Store(options[k].kind, k, value, 1).Some?
    ensures LongFrom(options, i, flag + "=" + value, next) == Store(options[k].kind, k, value, 1).value
    ensures LongFrom(options, i, flag, Some(value)) == Store(options[k].kind, k, value, 2).value
    decreases k - i
  {
    hide IsInteger, ToInt;
    var arg := flag + "=" + value;
    if i == k {
      assert flag <= arg && arg[|flag|] == '=' && arg[|flag| + 1..] == value;
    } else {
      LongValue(options, i + 1, k, flag, value, next);
      if options[i].long.Some? {
        NotThisFlag(options[i].long.value, flag, value);
      }
    }
  }

  lemma NotThisFlag(other: string, flag: string, value: string)
    requires other != flag && '=' !in other && '=' !in flag
    ensures var arg := flag + "=" + value;
            && arg != other && (other <= arg ==> |other| < |arg| && arg[|other|] != '=')
    ensures other <= flag ==> |other| < |flag| && flag[|other|] != '='
  {
    var arg := flag + "=" + value;
    assert arg[|flag|] == '=';
    assert other <= arg && |other| <= |flag| ==> other == flag[..|other|];
    assert |other| == |flag| && other == flag[..|other|] ==> other == flag;
  }
}
