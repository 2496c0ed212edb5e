/** The numerals that `strtol` reads with base 0, and how a number is narrowed to an `int`. */
module Numerals {
  import opened Text
  import opened Decimals

  // ---------- numerals ----------

  /** Decimal, octal behind a zero, or hexadecimal behind `0x` or `0X`. */
  datatype Base = Ten | Eight | Sixteen(x: char)

  function Radix(b: Base): nat {
    match b
    case Ten => 10
    case Eight => 8
    case Sixteen(_) => 16
  }

  function Prefix(b: Base): string {
    if b.Sixteen? then ['0', b.x] else ""
  }

  const LOWER_DIGITS := "0123456789abcdef"
  const UPPER_DIGITS := "0123456789ABCDEF"

  /** The digits of each base, one by one. */
  lemma DigitsOfBase(c: char)
    ensures IsDigitIn(c, 8) <==> c in "01234567"
    ensures IsDigitIn(c, 10) <==> c in "0123456789"
    ensures IsDigitIn(c, 16) <==> c in LOWER_DIGITS || c in UPPER_DIGITS
  {
  }

  lemma ValueOfDigit(v: nat)
    requires v < 16
    ensures DigitIn(LOWER_DIGITS[v]) == v == DigitIn(UPPER_DIGITS[v])
  {
  }

  /** White space, a sign, and digits with the prefix of their base; or no text at all, which reads as zero. */
  datatype Numeral = Nothing | Numeral(blanks: string, sign: string, base: Base, digits: string)

  predicate AllDigitsIn(s: string, base: nat) {
    forall i | 0 <= i < |s| :: IsDigitIn(s[i], base)
  }

  predicate ProperNumeral(n: Numeral) {
    n.Numeral? ==>
      && AllSpace(n.blanks) && (n.sign == "" || n.sign == "-" || n.sign == "+")
      && n.digits != "" && AllDigitsIn(n.digits, Radix(n.base))
      && match n.base
         case Ten => n.digits[0] != '0'
         case Eight => n.digits[0] == '0'
         case Sixteen(x) => x == 'x' || x == 'X'
  }

  function NumeralText(n: Numeral): string {
    if n.Nothing? then "" else n.blanks + (n.sign + (Prefix(n.base) + n.digits))
  }

  function NumeralValue(n: Numeral): int {
    if n.Nothing? then 0 else Signed(n.sign == "-", ValueIn(n.digits, Radix(n.base)))
  }

  lemma BaseOfNumeral(b: Base, digits: string)
    requires ProperNumeral(Numeral("", "", b, digits))
    ensures BaseOf(Prefix(b) + digits) == (Radix(b), |Prefix(b)|)
  {
    var s := Prefix(b) + digits;
    if b.Sixteen? {
      SixteenFirst(b.x, digits);
    } else {
      assert s == digits;
      NoPrefix(b, digits);
    }
  }

  lemma SixteenFirst(x: char, digits: string)
    requires digits != ""
    ensures var s := ['0', x] + digits; |s| >= 3 && s[0] == '0' && s[1] == x && s[2] == digits[0]
  {
  }

  lemma NoPrefix(b: Base, digits: string)
    requires !b.Sixteen? && ProperNumeral(Numeral("", "", b, digits))
    ensures BaseOf(digits) == (Radix(b), 0)
  {
    assert |digits| >= 2 ==> IsDigitIn(digits[1], Radix(b));
  }

  lemma SkipBlanks(blanks: string, t: string)
    requires AllSpace(blanks) && t != "" && !IsSpace(t[0])
    ensures StripLeft(blanks + t) == t
  {
    StripLeftSkips(blanks, t);
  }

  lemma FirstOfNumeral(n: Numeral)
    requires ProperNumeral(n) && n.Numeral?
    ensures var t := n.sign + (Prefix(n.base) + n.digits);
            t != "" && !IsSpace(t[0]) && (t[0] == '-' <==> n.sign == "-") &&
            ((t[0] == '-' || t[0] == '+') <==> n.sign != "")
  {
    var r := Prefix(n.base) + n.digits;
    assert IsDigitIn(n.digits[0], Radix(n.base));
    assert r[0] == if n.base.Sixteen? then '0' else n.digits[0];
    if n.sign == "" {
      assert n.sign + r == r;
    }
  }

  /** Every numeral is read as its value, clamped, and all of it is used. */
  lemma NumeralReads(n: Numeral)
    requires ProperNumeral(n)
    ensures StrToL(NumeralText(n)) == Number(Clamp(NumeralValue(n)), |NumeralText(n)|)
  {
    if n.Nothing? {
      assert StripLeft("") == "";
    } else {
      hide ValueIn, Clamp, Signed, BaseOf, StripLeft;
      var r := Prefix(n.base) + n.digits;
      var t := n.sign + r;
      FirstOfNumeral(n);
      SkipBlanks(n.blanks, t);
      BaseOfNumeral(n.base, n.digits);
      RunAll(n.digits, Radix(n.base));
      assert t[|n.sign|..] == r && t[|n.sign| + |Prefix(n.base)|..] == n.digits;
      assert n.digits[..|n.digits|] == n.digits;
    }
  }

  lemma {:induction false} RunIsDigits(s: string, base: nat)
    ensures AllDigitsIn(s[..RunIn(s, base)], base)
  {
    if s != "" && IsDigitIn(s[0], base) {
      RunIsDigits(s[1..], base);
      assert s[..RunIn(s, base)] == [s[0]] + s[1..][..RunIn(s[1..], base)];
    }
  }

  lemma UnsignedOf(r: string) returns (b: Base, digits: string)
    requires var (base, prefix) := BaseOf(r); 0 < RunIn(r[prefix..], base) == |r| - prefix
    ensures r == Prefix(b) + digits && ProperNumeral(Numeral("", "", b, digits))
  {
    var (base, prefix) := BaseOf(r);
    digits := r[prefix..];
    RunIsDigits(digits, base);
    assert digits[..|digits|] == digits;
    b := if base == 16 then Sixteen(r[1]) else if base == 8 then Eight else Ten;
    assert r == r[..prefix] + digits;
    if base == 16 {
      assert r[..prefix] == Prefix(b);
    } else {
      assert digits[0] == r[0];
    }
  }

  /** A text that is used up as a number has no digits only if it is empty. */
  lemma UsedUp(s: string)
    requires StrToL(s).used == |s| && s != ""
    ensures var t := StripLeft(s);
            var sign := if t != "" && (t[0] == '-' || t[0] == '+') then 1 else 0;
            var (base, prefix) := BaseOf(t[sign..]);
            0 < RunIn(t[sign..][prefix..], base) == |t| - sign - prefix
  {
    var t := StripLeft(s);
    var sign := if t != "" && (t[0] == '-' || t[0] == '+') then 1 else 0;
    var (base, prefix) := BaseOf(t[sign..]);
    assert t[sign + prefix..] == t[sign..][prefix..];
  }

  /** Every text that is used up as a number is a numeral. */
  lemma NumeralOf(s: string) returns (n: Numeral)
    requires StrToL(s).used == |s|
    ensures ProperNumeral(n) && NumeralText(n) == s
  {
    if s == "" {
      return Nothing;
    }
    hide StrToL, BaseOf, RunIn, Prefix;
    UsedUp(s);
    var t := StripLeft(s);
    var blanks := StripLeftSplits(s);
    var sign := if t != "" && (t[0] == '-' || t[0] == '+') then 1 else 0;
    var b, digits := UnsignedOf(t[sign..]);
    n := Numeral(blanks, t[..sign], b, digits);
    assert t == t[..sign] + t[sign..];
  }

  // ---------- narrowing ----------

  const INT_MIN: int := -0x8000_0000
  const INT_SPAN: int := 0x1_0000_0000

  /** The `int` that is congruent to the number. */
  function Narrowed(v: int): int {
    (v - INT_MIN) % INT_SPAN + INT_MIN
  }

  /** It is the only one that differs from the number by a multiple of the span of the type. */
  lemma NarrowedIff(v: int, m: int)
    ensures m == Narrowed(v) <==> INT_MIN <= m < INT_MIN + INT_SPAN && exists q: int :: v == m + q * INT_SPAN
  {
    var q := (v - INT_MIN) / INT_SPAN;
    assert v == Narrowed(v) + q * INT_SPAN;
    if INT_MIN <= m < INT_MIN + INT_SPAN && exists p: int :: v == m + p * INT_SPAN {
      var p: int :| v == m + p * INT_SPAN;
      assert v - INT_MIN == (m - INT_MIN) + p * INT_SPAN;
      assert p == q;
    }
  }

  /** A number that fits is kept. */
  lemma NarrowedFits(v: int)
    requires INT_MIN <= v < INT_MIN + INT_SPAN
    ensures Narrowed(v) == v
  {
  }
}
