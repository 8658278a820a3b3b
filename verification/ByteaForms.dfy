/** The texts in which a server sends bytea, from the tables of digits: which bytes the driver reads from them, and
    that what it writes is such a text. */
module ByteaForms {
  import opened Basics
  import opened BigNum
  import opened Bytea

  const LOWER := "0123456789abcdef"
  const UPPER := "0123456789ABCDEF"
  const OCTALS := "01234567"

  /** Two hexadecimal digits for each byte, each in either case. */
  predicate HexSpells(t: string, bs: seq<byte>)
    decreases |bs|
  {
    if bs == [] then t == ""
    else |t| >= 2 && DigitSpells(t[0], bs[0] / 16) && DigitSpells(t[1], bs[0] % 16) && HexSpells(t[2..], bs[1..])
  }

  predicate DigitSpells(c: char, d: nat) {
    d < 16 && (c == LOWER[d] || c == UPPER[d])
  }

  lemma DigitReads(c: char, d: nat)
    requires DigitSpells(c, d)
    ensures HexValue(c) == d
  {
  }

  /** Any other character counts as its distance from the digit zero. */
  lemma OtherReads(c: char)
    requires !('a' <= c <= 'f') && !('A' <= c <= 'F')
    ensures HexValue(c) == c as int - 48
  {
  }

  lemma PairReads(b: byte, high: char, low: char)
    requires DigitSpells(high, b / 16) && DigitSpells(low, b % 16)
    ensures (HexValue(high) * 16 + HexValue(low)) % 256 == b
  {
    DigitReads(high, b / 16);
    DigitReads(low, b % 16);
  }

  lemma {:induction false} HexReads(t: string, bs: seq<byte>)
    requires HexSpells(t, bs)
    ensures FromHex(t) == bs
    decreases |bs|
  {
    if bs != [] {
      HexReads(t[2..], bs[1..]);
      HexStep(t, bs[0], bs[1..]);
      assert bs == [bs[0]] + bs[1..];
    }
  }

  lemma HexStep(t: string, b: byte, rest: seq<byte>)
    requires |t| >= 2 && DigitSpells(t[0], b / 16) && DigitSpells(t[1], b % 16) && FromHex(t[2..]) == rest
    ensures FromHex(t) == [b] + rest
  {
    PairReads(b, t[0], t[1]);
  }

  /** Every byte string is read from its hexadecimal text, whatever the case of each digit. */
  lemma HexTextReads(t: string, bs: seq<byte>)
    requires HexSpells(t, bs)
    ensures WellFormed("\\x" + t) && FromBytea("\\x" + t) == bs
  {
    HexReads(t, bs);
    assert ("\\x" + t)[2..] == t;
  }

  /** A byte in the escape format: itself, the backslash doubled, or a backslash and three octal digits. */
  predicate UnitSpells(u: string, b: byte) {
    || (b != 92 && |u| == 1 && u[0] as int == b)
    || (b == 92 && u == "\\\\")
    || u == ['\\', OCTALS[b / 64], OCTALS[b / 8 % 8], OCTALS[b % 8]]
  }

  lemma OctalIs(b: byte)
    ensures Octal(b / 64) == OCTALS[b / 64] && Octal(b / 8 % 8) == OCTALS[b / 8 % 8] && Octal(b % 8) == OCTALS[b % 8]
  {
    OctalDigitIs(b / 64);
    OctalDigitIs(b / 8 % 8);
    OctalDigitIs(b % 8);
  }

  lemma OctalDigitIs(d: nat)
    requires d < 8
    ensures Octal(d) == OCTALS[d]
  {
  }

  lemma UnitReads(u: string, b: byte, rest: string)
    requires UnitSpells(u, b) && WellFormed(rest)
    ensures WellFormed(u + rest) && FromBytea(u + rest) == [b] + FromBytea(rest)
  {
    if |u| == 4 {
      OctalIs(b);
      OctalUnitReads(b, rest);
    } else {
      ShortUnitReads(u, b, rest);
    }
  }

  lemma ShortUnitReads(u: string, b: byte, rest: string)
    requires WellFormed(rest) && if b == 92 then u == "\\\\" else |u| == 1 && u[0] as int == b
    ensures WellFormed(u + rest) && FromBytea(u + rest) == [b] + FromBytea(rest)
  {
    assert (u + rest)[|u|..] == rest;
  }

  lemma OctalUnitReads(b: byte, rest: string)
    requires WellFormed(rest)
    ensures var t := ['\\', Octal(b / 64), Octal(b / 8 % 8), Octal(b % 8)] + rest;
            WellFormed(t) && FromBytea(t) == [b] + FromBytea(rest)
  {
    var u := ['\\', Octal(b / 64), Octal(b / 8 % 8), Octal(b % 8)];
    var t := u + rest;
    assert t[4..] == rest && t[1] == u[1] && t[2] == u[2] && t[3] == u[3];
    OctalDigit(b / 64);
    OctalDigit(b / 8 % 8);
    OctalDigit(b % 8);
    OctalParts(b);
  }

  /** Every byte string is read from its escape-format text, whichever form each byte takes. */
  lemma {:induction false} EscapeTextReads(us: seq<string>, bs: seq<byte>)
    requires |us| == |bs| && forall k :: 0 <= k < |bs| ==> UnitSpells(us[k], bs[k])
    ensures WellFormed(Concat(us)) && FromBytea(Concat(us)) == bs
    decreases |bs|
  {
    if bs != [] {
      EscapeTextReads(us[1..], bs[1..]);
      UnitReads(us[0], bs[0], Concat(us[1..]));
      assert bs == [bs[0]] + bs[1..];
    }
  }

  // ----- What the driver writes -----

  /** The driver's hexadecimal text is the one in upper-case digits. */
  lemma {:induction false} DriverWritesHex(bs: seq<byte>)
    ensures HexSpells(HexText(bs), bs)
    ensures forall p :: 0 <= p < |HexText(bs)| ==> HexText(bs)[p] in UPPER
  {
    if bs != [] {
      DriverWritesHex(bs[1..]);
      HexDigitIs(bs[0] / 16);
      HexDigitIs(bs[0] % 16);
      assert HexText(bs)[2..] == HexText(bs[1..]);
    }
  }

  lemma HexDigitIs(d: nat)
    requires d < 16
    ensures HexDigit(d) == UPPER[d]
  {
  }

  predicate WrittenPlain(c: char) {
    'A' <= c <= 'Z' || 'a' <= c <= 'z' || '0' <= c <= '9' || c == ' '
  }

  /** The driver writes letters, digits and blanks as they are and all other bytes in octal. */
  lemma {:induction false} DriverWritesUnits(bs: seq<byte>) returns (us: seq<string>)
    ensures |us| == |bs| && OctalText(bs) == Concat(us)
    ensures forall k :: 0 <= k < |bs| ==>
              UnitSpells(us[k], bs[k]) && |us[k]| == if WrittenPlain(bs[k] as char) then 1 else 4
  {
    us := [];
    if bs != [] {
      var rest := DriverWritesUnits(bs[1..]);
      us := [OctalUnit(bs[0])] + rest;
      assert us[1..] == rest;
      UnitIsWritten(bs[0]);
    }
  }

  lemma UnitIsWritten(b: byte)
    ensures UnitSpells(OctalUnit(b), b) && |OctalUnit(b)| == if WrittenPlain(b as char) then 1 else 4
  {
    OctalIs(b);
  }
}
