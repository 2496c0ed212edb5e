/** Decimal numbers as git writes them, and as `strtoimax` and `strtol` read them. */
module Decimals {
  import opened Text

  predicate IsDigit(c: char) {
    '0' <= c <= '9'
  }

  predicate AllDigits(s: string) {
    forall i | 0 <= i < |s| :: IsDigit(s[i])
  }

  function DigitValue(c: char): nat
    requires IsDigit(c)
  {
    c as int - '0' as int
  }

  function DigitOf(v: nat): (c: char)
    requires v < 10
    ensures IsDigit(c) && DigitValue(c) == v
  {
    ('0' as int + v) as char
  }

  function DecimalValue(s: string): nat
    requires AllDigits(s)
  {
    if s == "" then 0 else 10 * DecimalValue(s[..|s| - 1]) + DigitValue(s[|s| - 1])
  }

  function Decimal(n: nat): (s: string)
    ensures AllDigits(s) && s != "" && (|s| == 1 || s[0] != '0')
    ensures n > 0 ==> s[0] != '0'
  {
    if n < 10 then [DigitOf(n)] else Decimal(n / 10) + [DigitOf(n % 10)]
  }

  lemma {:induction false} DecimalReads(n: nat)
    ensures DecimalValue(Decimal(n)) == n
  {
    var s := Decimal(n);
    if n < 10 {
      assert s[..0] == "";
    } else {
      assert s[..|s| - 1] == Decimal(n / 10);
      DecimalReads(n / 10);
    }
  }

  /** Length of the leading run of digits. */
  function DigitRun(s: string): (n: nat)
    ensures n <= |s| && AllDigits(s[..n]) && (n < |s| ==> !IsDigit(s[n]))
  {
    if s != "" && IsDigit(s[0]) then
      assert AllDigits(s[..1 + DigitRun(s[1..])]) by {
        assert s[..1 + DigitRun(s[1..])] == [s[0]] + s[1..][..DigitRun(s[1..])];
      }
      1 + DigitRun(s[1..])
    else 0
  }

  lemma {:induction false} DigitRunOf(d: string, t: string)
    requires AllDigits(d) && (t == "" || !IsDigit(t[0]))
    ensures DigitRun(d + t) == |d|
  {
    if d == "" {
      assert d + t == t;
    } else {
      assert (d + t)[1..] == d[1..] + t;
      DigitRunOf(d[1..], t);
    }
  }

  const INTMAX_MAX: int := 0x7fff_ffff_ffff_ffff
  const INTMAX_MIN: int := -0x8000_0000_0000_0000

  function Clamp(v: int): int {
    if v > INTMAX_MAX then INTMAX_MAX else if v < INTMAX_MIN then INTMAX_MIN else v
  }

  function Signed(negative: bool, v: nat): int {
    if negative then 0 - v else v
  }

  /** What `strtoimax` in base 10 gives: the number and the length of the text it used. */
  datatype Number = Number(value: int, used: nat)

  function StrToIMax(s: string): (r: Number)
    ensures r.used <= |s|
  {
    var t := StripLeft(s);
    StripLeftShorter(s);
    NumberAt(t, |s| - |t|)
  }

  /** The number at the start of `t`, which follows `lead` characters of white space. */
  function NumberAt(t: string, lead: nat): (r: Number)
    ensures r.used <= lead + |t|
  {
    var sign := if t != "" && (t[0] == '-' || t[0] == '+') then 1 else 0;
    var n := DigitRun(t[sign..]);
    if n == 0 then Number(0, 0)
    else Number(Clamp(Signed(t[0] == '-', DecimalValue(t[sign..][..n]))), lead + sign + n)
  }

  lemma StripLeftShorter(s: string)
    ensures |StripLeft(s)| <= |s|
  {
    var a := StripLeftSplits(s);
  }

  lemma NumberAtReads(sign: string, digits: string, t: string)
    requires sign == "" || sign == "-" || sign == "+"
    requires AllDigits(digits) && digits != "" && (t == "" || !IsDigit(t[0]))
    ensures NumberAt(sign + (digits + t), 0) ==
            Number(Clamp(Signed(sign == "-", DecimalValue(digits))), |sign| + |digits|)
  {
    var r := digits + t;
    DigitRunOf(digits, t);
    assert r[..|digits|] == digits && r[0] == digits[0];
    assert (sign + r)[|sign|..] == r;
  }

  /** A signed number in front of something that is not a digit is read exactly. */
  lemma StrToIMaxReads(sign: string, digits: string, t: string)
    requires sign == "" || sign == "-" || sign == "+"
    requires AllDigits(digits) && digits != "" && (t == "" || !IsDigit(t[0]))
    ensures StrToIMax(sign + (digits + t)) ==
            Number(Clamp(Signed(sign == "-", DecimalValue(digits))), |sign| + |digits|)
  {
    hide NumberAt, DecimalValue, Clamp, Signed;
    NumberAtReads(sign, digits, t);
    assert (digits + t)[0] == digits[0];
    assert !IsSpace((sign + (digits + t))[0]);
  }

  // ---------- strtol with base 0 ----------

  predicate IsDigitIn(c: char, base: nat) {
    ('0' <= c <= '9' && c as int - '0' as int < base)
    || (base == 16 && ('a' <= c <= 'f' || 'A' <= c <= 'F'))
  }

  function DigitIn(c: char): nat {
    if '0' <= c <= '9' then c as int - '0' as int
    else if 'a' <= c <= 'z' then c as int - 'a' as int + 10
    else if 'A' <= c <= 'Z' then c as int - 'A' as int + 10
    else 0
  }

  function RunIn(s: string, base: nat): (n: nat)
    ensures n <= |s|
  {
    if s != "" && IsDigitIn(s[0], base) then 1 + RunIn(s[1..], base) else 0
  }

  function ValueIn(s: string, base: nat): nat {
    if s == "" then 0 else base * ValueIn(s[..|s| - 1], base) + DigitIn(s[|s| - 1])
  }

  /** The base that a prefix announces, and the length of that prefix. */
  function BaseOf(s: string): (r: (nat, nat))
    ensures r.1 <= |s|
  {
    if |s| >= 3 && s[0] == '0' && (s[1] == 'x' || s[1] == 'X') && IsDigitIn(s[2], 16) then (16, 2)
    else if s != "" && s[0] == '0' then (8, 0)
    else (10, 0)
  }

  /** `strtol` with base 0: decimal, octal after `0`, hexadecimal after `0x`. */
  function StrToL(s: string): (r: Number)
    ensures r.used <= |s|
  {
    var t := StripLeft(s);
    StripLeftShorter(s);
    var sign := if t != "" && (t[0] == '-' || t[0] == '+') then 1 else 0;
    var (base, prefix) := BaseOf(t[sign..]);
    var digits := t[sign + prefix..];
    var n := RunIn(digits, base);
    if n == 0 then Number(0, 0)
    else Number(Clamp(Signed(t[0] == '-', ValueIn(digits[..n], base))), |s| - |t| + sign + prefix + n)
  }

  lemma {:induction false} RunAll(s: string, base: nat)
    requires forall i | 0 <= i < |s| :: IsDigitIn(s[i], base)
    ensures RunIn(s, base) == |s|
  {
    if s != "" {
      RunAll(s[1..], base);
    }
  }

  lemma {:induction false} ValueInTen(s: string)
    requires AllDigits(s)
    ensures ValueIn(s, 10) == DecimalValue(s)
  {
    if s != "" {
      ValueInTen(s[..|s| - 1]);
    }
  }

  /** A number as git prints it is read exactly, and all of it is used. */
  lemma StrToLReads(n: nat)
    ensures StrToL(Decimal(n)) == Number(Clamp(n), |Decimal(n)|)
  {
    var s := Decimal(n);
    var base := BaseOf(s).0;
    assert StripLeft(s) == s && s[0..] == s && s[..|s|] == s;
    if s[0] == '0' {
      assert n == 0 && base == 8 && ValueIn(s[..0], 8) == 0;
      assert ValueIn(s, 8) == 0;
    } else {
      DecimalReads(n);
      ValueInTen(s);
      assert base == 10;
    }
    RunAll(s, base);
    assert BaseOf(s).1 == 0;
  }
}
