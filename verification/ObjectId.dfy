/** Object ids and their hex form (src/git/git.c). */
module ObjectIds {
  import opened Decimals


  const GIT_RAW_OBJECT_ID: nat := 20
  const GIT_HEX_OBJECT_ID: nat := 40

  type Byte = b: int | 0 <= b < 256

  type Oid = o: seq<Byte> | |o| == GIT_RAW_OBJECT_ID witness seq(GIT_RAW_OBJECT_ID, _ => 0)

  predicate IsHexDigit(c: char) {
    '0' <= c <= '9' || 'a' <= c <= 'f' || 'A' <= c <= 'F'
  }

  function HexValue(c: char): (v: int)
    requires IsHexDigit(c)
    ensures 0 <= v < 16
  {
    if c <= '9' then c as int - 0x30
    else if c <= 'F' then c as int - 0x41 + 10
    else c as int - 0x61 + 10
  }

  /** The digit table: `0` to `9`, then `a` to `f`. */
  function HexDigitOf(v: int): (c: char)
    requires 0 <= v < 16
    ensures IsHexDigit(c) && HexValue(c) == v
  {
    if v < 10 then (0x30 + v) as char else (0x61 + v - 10) as char
  }

  function HexPair(c1: char, c2: char): Byte
    requires IsHexDigit(c1) && IsHexDigit(c2)
  {
    16 * HexValue(c1) + HexValue(c2)
  }

  predicate IsHex(s: string) {
    forall i | 0 <= i < |s| :: IsHexDigit(s[i])
  }

  /** The bytes written by pairs of hex digits. */
  function HexDecode(s: string): (r: seq<Byte>)
    requires IsHex(s) && |s| % 2 == 0
    ensures |r| == |s| / 2
  {
    if s == "" then [] else [HexPair(s[0], s[1])] + HexDecode(s[2..])
  }

  function HexByte(b: Byte): string {
    [HexDigitOf(b / 16), HexDigitOf(b % 16)]
  }

  /** Each byte as two lower-case hex digits. */
  function HexEncode(o: seq<Byte>): (r: string)
    ensures |r| == 2 * |o|
  {
    if o == [] then "" else HexByte(o[0]) + HexEncode(o[1..])
  }

  function LowerHex(s: string): string
    requires IsHex(s)
  {
    if s == "" then "" else [HexDigitOf(HexValue(s[0]))] + LowerHex(s[1..])
  }

  lemma PairOfByte(b: Byte)
    ensures HexPair(HexDigitOf(b / 16), HexDigitOf(b % 16)) == b
  {
  }

  lemma ByteOfPair(c1: char, c2: char)
    requires IsHexDigit(c1) && IsHexDigit(c2)
    ensures HexByte(HexPair(c1, c2)) == [HexDigitOf(HexValue(c1)), HexDigitOf(HexValue(c2))]
  {
    var b := HexPair(c1, c2);
    assert b / 16 == HexValue(c1) && b % 16 == HexValue(c2);
  }

  lemma DecodePair(p: string, s: string)
    requires |p| == 2 && IsHex(p) && IsHex(s) && |s| % 2 == 0
    ensures IsHex(p + s) && HexDecode(p + s) == [HexPair(p[0], p[1])] + HexDecode(s)
  {
    hide HexPair, IsHexDigit;
    assert p + s != "" && (p + s)[0] == p[0] && (p + s)[1] == p[1];
    assert (p + s)[2..] == s;
  }

  /** Decoding undoes encoding. */
  lemma {:induction false} DecodeEncode(o: seq<Byte>)
    ensures IsHex(HexEncode(o)) && HexDecode(HexEncode(o)) == o
  {
    if o != [] {
      DecodeEncode(o[1..]);
      PairOfByte(o[0]);
      DecodePair(HexByte(o[0]), HexEncode(o[1..]));
    }
  }

  lemma LowerPair(s: string)
    requires IsHex(s) && |s| >= 2
    ensures LowerHex(s) == [HexDigitOf(HexValue(s[0])), HexDigitOf(HexValue(s[1]))] + LowerHex(s[2..])
  {
    hide HexDigitOf, HexValue, IsHexDigit;
    assert s[1..] != "" && s[1..][0] == s[1] && s[1..][1..] == s[2..];
    PairThen(HexDigitOf(HexValue(s[0])), HexDigitOf(HexValue(s[1])), LowerHex(s[2..]));
  }

  lemma PairThen(a: char, b: char, s: string)
    ensures [a] + ([b] + s) == [a, b] + s
  {
  }

  /** Encoding gives back the decoded text, with letters in lower case. */
  lemma {:induction false} EncodeDecode(s: string)
    requires IsHex(s) && |s| % 2 == 0
    ensures HexEncode(HexDecode(s)) == LowerHex(s)
    decreases |s|
  {
    if s != "" {
      LowerPair(s);
      ByteOfPair(s[0], s[1]);
      EncodeDecode(s[2..]);
      assert HexDecode(s)[1..] == HexDecode(s[2..]);
    }
  }

  lemma {:induction false} DecodeSnoc(s: string, c1: char, c2: char)
    requires IsHex(s) && |s| % 2 == 0 && IsHexDigit(c1) && IsHexDigit(c2)
    ensures HexDecode(s + [c1, c2]) == HexDecode(s) + [HexPair(c1, c2)]
    decreases |s|
  {
    if s == "" {
      assert s + [c1, c2] == [c1, c2];
    } else {
      assert (s + [c1, c2])[2..] == s[2..] + [c1, c2];
      DecodeSnoc(s[2..], c1, c2);
    }
  }

  lemma {:induction false} EncodeSnoc(o: seq<Byte>, b: Byte)
    ensures HexEncode(o + [b]) == HexEncode(o) + HexByte(b)
  {
    if o == [] {
      assert o + [b] == [b];
    } else {
      assert (o + [b])[1..] == o[1..] + [b];
      EncodeSnoc(o[1..], b);
    }
  }

  /** `git_str_to_oid`: fill the id from its hex text; dies at the first character that is not hex. */
  method StrToOid(oid: array<Byte>, str: string) returns (died: bool)
    requires oid.Length == GIT_RAW_OBJECT_ID && |str| >= GIT_HEX_OBJECT_ID
    modifies oid
    ensures died <==> !IsHex(str[..GIT_HEX_OBJECT_ID])
    ensures !died ==> oid[..] == HexDecode(str[..GIT_HEX_OBJECT_ID])
  {
    for index := 0 to GIT_RAW_OBJECT_ID
      invariant IsHex(str[..2 * index]) && oid[..index] == HexDecode(str[..2 * index])
    {
      var c1, c2 := str[index * 2], str[index * 2 + 1];
      if !IsHexDigit(c1) || !IsHexDigit(c2) {
        assert str[..GIT_HEX_OBJECT_ID][index * 2] == c1 && str[..GIT_HEX_OBJECT_ID][index * 2 + 1] == c2;
        return true;
      }
      DecodeSnoc(str[..2 * index], c1, c2);
      assert str[..2 * index] + [c1, c2] == str[..2 * (index + 1)];
      oid[index] := HexPair(c1, c2);
      assert oid[..index + 1] == oid[..index] + [oid[index]];
    }
    assert oid[..GIT_RAW_OBJECT_ID] == oid[..];
    return false;
  }

  /** `git_oid_to_str` */
  method OidToStr(oid: array<Byte>, hex: array<char>)
    requires oid.Length == GIT_RAW_OBJECT_ID && hex.Length == GIT_HEX_OBJECT_ID
    modifies hex
    ensures hex[..] == HexEncode(oid[..])
  {
    for i := 0 to GIT_RAW_OBJECT_ID
      invariant hex[..2 * i] == HexEncode(oid[..i])
    {
      hex[i * 2] := HexDigitOf(oid[i] / 16);
      hex[i * 2 + 1] := HexDigitOf(oid[i] % 16);
      EncodeSnoc(oid[..i], oid[i]);
      assert oid[..i] + [oid[i]] == oid[..i + 1];
      assert hex[..2 * (i + 1)] == hex[..2 * i] + HexByte(oid[i]);
    }
    assert hex[..GIT_HEX_OBJECT_ID] == hex[..] && oid[..GIT_RAW_OBJECT_ID] == oid[..];
  }

  // ---------- as numbers ----------

  function BytesValue(o: seq<Byte>): nat {
    if o == [] then 0 else 256 * BytesValue(o[..|o| - 1]) + o[|o| - 1]
  }

  lemma DigitsAgree(c: char)
    ensures IsHexDigit(c) <==> IsDigitIn(c, 16)
    ensures IsHexDigit(c) ==> HexValue(c) == DigitIn(c)
  {
  }

  /** The decoded bytes are those of the number that the text stands for in base 16. */
  lemma {:induction false} DecodeIsNumber(s: string)
    requires IsHex(s) && |s| % 2 == 0
    ensures BytesValue(HexDecode(s)) == ValueIn(s, 16)
  {
    if s != "" {
      var n := |s|;
      var front, c1, c2 := s[..n - 2], s[n - 2], s[n - 1];
      assert s == front + [c1, c2] && s[..n - 1][..n - 2] == front;
      DecodeIsNumber(front);
      DecodeSnoc(front, c1, c2);
      DigitsAgree(c1);
      DigitsAgree(c2);
      assert ValueIn(s, 16) == 16 * ValueIn(s[..n - 1], 16) + DigitIn(c2);
      assert ValueIn(s[..n - 1], 16) == 16 * ValueIn(front, 16) + DigitIn(c1);
    }
  }

  const HEX_DIGITS := "0123456789abcdef"

  lemma LowerDigits(v: int)
    requires 0 <= v < 16
    ensures HexDigitOf(v) == HEX_DIGITS[v] && DigitIn(HEX_DIGITS[v]) == v
  {
  }
}
