/** Binary parameters and columns: convert.c's text forms of bytea, hexadecimal and octal-escaped
    (section 8.4 of the PostgreSQL documentation), and the reader of either. */
module Bytea {
  import opened Basics
  import opened BigNum
  import opened SqlLiteral

  /** The digit at index `d` of the table 0123456789ABCDEF. */
  function HexDigit(d: nat): (c: char)
    requires d < 16
  {
    if d < 10 then '0' + d as char else 'A' + (d - 10) as char
  }

  function HexPair(b: byte): (t: string)
    ensures |t| == 2
  {
    [HexDigit(b / 16), HexDigit(b % 16)]
  }

  function HexText(bs: seq<byte>): (t: string)
    ensures |t| == 2 * |bs|
  {
    if bs == [] then "" else HexPair(bs[0]) + HexText(bs[1..])
  }

  /** Letters, digits and the blank are written as they are. */
  predicate IsPlain(b: byte) {
    48 <= b <= 57 || 65 <= b <= 90 || 97 <= b <= 122 || b == 32
  }

  function Octal(d: nat): char
    requires d < 8
  {
    '0' + d as char
  }

  function OctalUnit(b: byte): string {
    if IsPlain(b) then [b as char] else ['\\', Octal(b / 64), Octal(b / 8 % 8), Octal(b % 8)]
  }

  function OctalText(bs: seq<byte>): string {
    if bs == [] then "" else OctalUnit(bs[0]) + OctalText(bs[1..])
  }

  /** The bytea input text of a value. */
  function ByteaText(bs: seq<byte>, hex: bool): string {
    if hex then "\\x" + HexText(bs) else OctalText(bs)
  }

  // ----- Reading -----

  /** Value the reader gives a character where it expects a hexadecimal digit. */
  function HexValue(c: char): int {
    if 'a' <= c <= 'f' then c as int - 'a' as int + 10
    else if 'A' <= c <= 'F' then c as int - 'A' as int + 10
    else c as int - '0' as int
  }

  function FromHex(t: string): seq<byte> {
    if |t| < 2 then [] else [(HexValue(t[0]) * 16 + HexValue(t[1])) % 256] + FromHex(t[2..])
  }

  function OctalValue(t: string): byte
    requires |t| >= 4
  {
    ((t[1] as int - 48) * 64 + (t[2] as int - 48) * 8 + (t[3] as int - 48)) % 256
  }

  /** Every backslash starts a form the reader knows, and is complete. */
  predicate WellFormed(t: string)
    decreases |t|
  {
    t == "" ||
    if t[0] != '\\' then WellFormed(t[1..])
    else if |t| > 1 && t[1] == '\\' then WellFormed(t[2..])
    else (|t| > 1 && t[1] == 'x') || (|t| >= 4 && WellFormed(t[4..]))
  }

  /** The bytes convert_from_pgbinary yields. */
  function FromBytea(t: string): seq<byte>
    requires WellFormed(t)
    decreases |t|
  {
    if t == "" then []
    else if t[0] != '\\' then [t[0] as int % 256] + FromBytea(t[1..])
    else if t[1] == '\\' then ['\\' as int] + FromBytea(t[2..])
    else if t[1] == 'x' then FromHex(t[2..])
    else [OctalValue(t)] + FromBytea(t[4..])
  }

  // ----- Round trips -----

  lemma HexDigitValue(d: nat)
    requires d < 16
    ensures HexValue(HexDigit(d)) == d && HexDigit(d) != '\'' && HexDigit(d) != '\\'
  {
  }

  lemma HexByte(b: byte)
    ensures (HexValue(HexDigit(b / 16)) * 16 + HexValue(HexDigit(b % 16))) % 256 == b
  {
    HexDigitValue(b / 16);
    HexDigitValue(b % 16);
    assert b / 16 * 16 + b % 16 == b;
  }

  lemma {:induction false} HexComesBack(bs: seq<byte>)
    ensures FromHex(HexText(bs)) == bs
  {
    if bs != [] {
      var t, b := HexText(bs), bs[0];
      HexComesBack(bs[1..]);
      assert t[2..] == HexText(bs[1..]);
      HexByte(b);
      assert t[0] == HexDigit(b / 16) && t[1] == HexDigit(b % 16);
      assert bs == [b] + bs[1..];
    }
  }

  lemma OctalByte(b: byte)
    requires !IsPlain(b)
    ensures OctalValue(OctalUnit(b)) == b
  {
    OctalParts(b);
    OctalDigit(b / 64);
    OctalDigit(b / 8 % 8);
    OctalDigit(b % 8);
  }

  lemma OctalParts(b: byte)
    ensures b / 64 < 8 && b / 64 * 64 + b / 8 % 8 * 8 + b % 8 == b
  {
  }

  lemma OctalDigit(d: nat)
    requires d < 8
    ensures Octal(d) as int - 48 == d
  {
  }

  lemma PlainStep(b: byte, rest: string)
    requires IsPlain(b) && WellFormed(rest)
    ensures WellFormed([b as char] + rest) && FromBytea([b as char] + rest) == [b] + FromBytea(rest)
  {
    assert ([b as char] + rest)[1..] == rest;
  }

  lemma OctalStep(b: byte, rest: string)
    requires !IsPlain(b) && WellFormed(rest)
    ensures WellFormed(OctalUnit(b) + rest) && FromBytea(OctalUnit(b) + rest) == [b] + FromBytea(rest)
  {
    var u, t := OctalUnit(b), OctalUnit(b) + rest;
    OctalByte(b);
    assert t[4..] == rest && t[1] == u[1] && t[2] == u[2] && t[3] == u[3];
    assert OctalValue(t) == OctalValue(u);
  }

  lemma {:induction false} OctalComesBack(bs: seq<byte>)
    ensures WellFormed(OctalText(bs)) && FromBytea(OctalText(bs)) == bs
  {
    if bs != [] {
      var b, rest := bs[0], OctalText(bs[1..]);
      OctalComesBack(bs[1..]);
      assert bs == [b] + bs[1..];
      if IsPlain(b) { PlainStep(b, rest); } else { OctalStep(b, rest); }
    }
  }

  /** Both text forms read back as the bytes they were made from. */
  lemma ByteaComesBack(bs: seq<byte>, hex: bool)
    ensures WellFormed(ByteaText(bs, hex)) && FromBytea(ByteaText(bs, hex)) == bs
  {
    if hex {
      HexComesBack(bs);
      assert ByteaText(bs, hex)[2..] == HexText(bs);
    } else {
      OctalComesBack(bs);
    }
  }

  predicate NoQuote(t: string) {
    forall i :: 0 <= i < |t| ==> t[i] != '\''
  }

  lemma UnitsHaveNoQuote(b: byte)
    ensures NoQuote(HexPair(b)) && NoQuote(OctalUnit(b))
  {
    HexDigitValue(b / 16);
    HexDigitValue(b % 16);
  }

  lemma {:induction false} ByteaHasNoQuote(bs: seq<byte>)
    ensures NoQuote(HexText(bs)) && NoQuote(OctalText(bs))
  {
    if bs != [] {
      UnitsHaveNoQuote(bs[0]);
      ByteaHasNoQuote(bs[1..]);
    }
  }

  lemma {:induction false} EscapedNoSpecials(t: string, escapes: bool)
    requires forall i :: 0 <= i < |t| ==> t[i] != '\'' && t[i] != '\\'
    ensures Escaped(t, escapes) == t
  {
    if t != "" {
      EscapedNoSpecials(t[1..], escapes);
      assert t == [t[0]] + t[1..];
    }
  }

  lemma OctalUnitEscaped(b: byte, escapes: bool)
    ensures Escaped(OctalUnit(b), escapes) == (if IsPlain(b) || !escapes then "" else "\\") + OctalUnit(b)
  {
    var u := OctalUnit(b);
    if IsPlain(b) {
      EscapedNoSpecials(u, escapes);
    } else {
      EscapedNoSpecials(u[1..], escapes);
      assert u == [u[0]] + u[1..];
    }
  }

  lemma {:induction false} HexHasNoSpecials(bs: seq<byte>)
    ensures forall i :: 0 <= i < |HexText(bs)| ==> HexText(bs)[i] != '\'' && HexText(bs)[i] != '\\'
  {
    if bs != [] {
      HexDigitValue(bs[0] / 16);
      HexDigitValue(bs[0] % 16);
      HexHasNoSpecials(bs[1..]);
    }
  }

  lemma HexEscaped(bs: seq<byte>, escapes: bool)
    ensures Escaped("\\x" + HexText(bs), escapes) == (if escapes then "\\" else "") + ("\\x" + HexText(bs))
  {
    var t := "\\x" + HexText(bs);
    HexHasNoSpecials(bs);
    EscapedNoSpecials(t[1..], escapes);
    assert t == ['\\'] + t[1..];
  }

  /** The whole trip of a binary parameter: the quoted text is one complete string constant, the server
      takes its value as bytea input, and reading that value restores every byte. */
  lemma ParameterComesBack(bs: seq<byte>, hex: bool, escapes: bool)
    ensures var text := Constant(ByteaText(bs, hex), escapes);
            && ReadConstant(text) == Some((ByteaText(bs, hex), ""))
            && WellFormed(ByteaText(bs, hex)) && FromBytea(ByteaText(bs, hex)) == bs
  {
    ConstantReadsBack(ByteaText(bs, hex), escapes);
    ByteaComesBack(bs, hex);
  }
}
