/** Printing and parsing of numeric parameters denote the same numbers. */
module NumericTheorems {
  import opened Basics
  import opened BigNum
  import opened NumericPrint
  import opened NumericParse

  /** The decimal number a text denotes: sign, all digits read as one integer, number of digits after
      the point. */
  datatype Number = Number(negative: bool, digits: nat, scale: nat)

  // ----- Printing -----

  /** The printed digits, point removed, are the value kept; the point stands before the last `scale`
      of them. */
  lemma PrintedDigits(ds: seq<nat>, scale: nat)
    requires Digits10(ds)
    ensures AllDigits(Whole(ds, scale) + Fraction(ds, scale))
    ensures Decimal(Whole(ds, scale) + Fraction(ds, scale)) == Num(10, ds)
  {
    var p := Padded(ds, scale);
    ShowSplit(p, scale);
    DecimalOfShow(p);
    NumPad(10, ds, p[|ds|..]);
    assert p == ds + p[|ds|..];
  }

  // ----- Parsing -----

  /** The scale is kept in a signed byte: the congruent number from -128 to 127. */
  lemma ScaleWraps(x: int)
    ensures -128 <= SChar(x) < 128 && (x - SChar(x)) % 256 == 0
  {
    var q, m := (x + 128) / 256, (x + 128) % 256;
    assert x - SChar(x) == 256 * q;
  }

  /** A numeric text taken apart: blanks, sign, leading zeros, the digits before and after the point,
      and whatever follows. */
  datatype Numeral = Numeral(
    blanks: string, sign: string, zeros: string, whole: string, point: bool, frac: string, rest: string)

  function Before(m: Numeral): string {
    m.whole + After(m)
  }

  function After(m: Numeral): string {
    (if m.point then "." + m.frac else "") + m.rest
  }

  function Spelled(m: Numeral): string {
    m.blanks + (m.sign + (m.zeros + Before(m)))
  }

  /** Blank, tab, line feed, vertical tab, form feed, carriage return. */
  predicate Blank(c: char) {
    c == ' ' || c == '\t' || c == '\n' || c == '\U{0B}' || c == '\U{0C}' || c == '\r'
  }

  predicate Sound(m: Numeral) {
    && (forall i :: 0 <= i < |m.blanks| ==> Blank(m.blanks[i]))
    && (m.sign == "" || m.sign == "-" || m.sign == "+")
    && (forall i :: 0 <= i < |m.zeros| ==> m.zeros[i] == '0')
    && AllDigits(m.whole) && AllDigits(m.frac)
    && (m.whole != "" ==> m.whole[0] != '0')
    && (!m.point ==> m.frac == "" && (m.rest != "" ==> m.rest[0] != '.'))
    && (m.rest != "" ==> !IsDigit(m.rest[0]))
    && (m.sign == "" && m.zeros == "" && m.whole == "" && !m.point && m.rest != "" ==>
          !Blank(m.rest[0]) && m.rest[0] != '-' && m.rest[0] != '+')
  }

  lemma {:induction false} SkipSpaceOver(b: string, t: string)
    requires (forall i :: 0 <= i < |b| ==> Blank(b[i])) && (t != "" ==> !Blank(t[0]))
    ensures SkipSpace(b + t) == t
    decreases |b|
  {
    if b == "" { assert b + t == t; } else {
      assert (b + t)[1..] == b[1..] + t;
      SkipSpaceOver(b[1..], t);
    }
  }

  lemma {:induction false} SkipZerosOver(z: string, t: string)
    requires (forall i :: 0 <= i < |z| ==> z[i] == '0') && (t != "" ==> t[0] != '0')
    ensures SkipZeros(z + t) == t
    decreases |z|
  {
    if z == "" { assert z + t == t; } else {
      assert (z + t)[1..] == z[1..] + t;
      SkipZerosOver(z[1..], t);
    }
  }

  // ----- Every text is such a numeral -----

  lemma {:induction false} SpacesInFront(t: string) returns (b: string)
    ensures t == b + SkipSpace(t) && forall i :: 0 <= i < |b| ==> Blank(b[i])
    ensures SkipSpace(t) != "" ==> !Blank(SkipSpace(t)[0])
    decreases |t|
  {
    b := "";
    if t != "" && IsSpace(t[0]) {
      var b1 := SpacesInFront(t[1..]);
      b := [t[0]] + b1;
    }
  }

  lemma {:induction false} ZerosOfText(t: string) returns (z: string)
    ensures t == z + SkipZeros(t) && forall i :: 0 <= i < |z| ==> z[i] == '0'
    ensures (SkipZeros(t) != "" ==> SkipZeros(t)[0] != '0') && (AllDigits(t) ==> AllDigits(SkipZeros(t)))
    decreases |t|
  {
    z := "";
    if t != "" && t[0] == '0' {
      var z1 := ZerosOfText(t[1..]);
      z := "0" + z1;
    }
  }

  lemma {:induction false} DigitsInFront(t: string) returns (d: string, rest: string)
    ensures t == d + rest && AllDigits(d) && (rest != "" ==> !IsDigit(rest[0]))
    ensures d != "" ==> d[0] == t[0]
    decreases |t|
  {
    d, rest := "", t;
    if t != "" && IsDigit(t[0]) {
      var d1;
      d1, rest := DigitsInFront(t[1..]);
      d := [t[0]] + d1;
      assert t == [t[0]] + t[1..];
    }
  }

  /** The digits before and after the point, and the rest. */
  lemma MantissaSplits(t: string) returns (whole: string, point: bool, frac: string, rest: string)
    ensures t == whole + ((if point then "." + frac else "") + rest) && AllDigits(whole) && AllDigits(frac)
    ensures !point ==> frac == "" && (rest != "" ==> rest[0] != '.')
    ensures (rest != "" ==> !IsDigit(rest[0])) && (whole != "" ==> whole[0] == t[0])
  {
    var tail;
    whole, tail := DigitsInFront(t);
    point, frac, rest := tail != "" && tail[0] == '.', "", tail;
    if point { frac, rest := DigitsInFront(tail[1..]); }
    PointInFront(tail, point, frac, rest);
  }

  lemma PointInFront(tail: string, point: bool, frac: string, rest: string)
    requires if point then tail != "" && tail[0] == '.' && tail[1..] == frac + rest else frac == "" && tail == rest
    ensures tail == (if point then "." + frac else "") + rest
  {
    if point { assert tail == [tail[0]] + tail[1..]; }
  }

  /** Every text is the spelling of a sound numeral, so what is proved of those holds of all inputs. */
  lemma EveryTextIsNumeral(wv: string) returns (m: Numeral)
    ensures Sound(m) && Spelled(m) == wv
  {
    var blanks := SpacesInFront(wv);
    var sign, body := SignInFront(SkipSpace(wv));
    var zeros := ZerosOfText(body);
    var whole, point, frac, rest := MantissaSplits(SkipZeros(body));
    m := Numeral(blanks, sign, zeros, whole, point, frac, rest);
    assert Before(m) == SkipZeros(body);
    if sign == "" && zeros == "" && whole == "" && !point { NothingInFront(SkipSpace(wv), body, rest); }
  }

  lemma SignInFront(t: string) returns (sign: string, body: string)
    ensures t == sign + body && (sign == "" || sign == "-" || sign == "+")
    ensures sign == "" && body != "" ==> body[0] != '-' && body[0] != '+'
  {
    if t != "" && (t[0] == '-' || t[0] == '+') {
      sign, body := [t[0]], t[1..];
    } else {
      sign, body := "", t;
    }
  }

  lemma NothingInFront(signed: string, body: string, rest: string)
    requires signed == "" + body && body == "" + SkipZeros(body) && SkipZeros(body) == "" + ("" + rest)
    ensures rest == signed == body
  {
  }

  lemma MantissaOf(m: Numeral)
    requires Sound(m)
    ensures Mantissa(Spelled(m)) == Before(m) && Negative(SkipSpace(Spelled(m))) == (m.sign == "-")
  {
    var body := m.zeros + Before(m);
    var signed := m.sign + body;
    assert signed != "" ==> !IsSpace(signed[0]);
    SkipSpaceOver(m.blanks, signed);
    if m.sign != "" { assert signed[1..] == body; } else { assert signed == body; }
    SkipZerosOver(m.zeros, Before(m));
  }

  lemma {:induction false} ScanFraction(frac: string, rest: string, n: nat)
    requires AllDigits(frac) && n <= MAX_STORED && (rest != "" ==> !IsDigit(rest[0]))
    ensures var k := Min(|frac|, MAX_STORED - n);
            Scan(frac + rest, true, n) == Scanned(frac[..k], k, false)
    decreases |frac|
  {
    if frac == "" {
      assert frac + rest == rest;
    } else {
      assert (frac + rest)[0] == frac[0] && (frac + rest)[1..] == frac[1..] + rest;
      if n < MAX_STORED {
        ScanFraction(frac[1..], rest, n + 1);
        var k := Min(|frac|, MAX_STORED - n);
        assert frac[..k] == [frac[0]] + frac[1..][..k - 1];
      }
    }
  }

  lemma PrefixCons(whole: string, k: nat, ds: string)
    requires 0 < k <= |whole|
    ensures whole[..k] + ds == [whole[0]] + (whole[1..][..k - 1] + ds)
  {
  }

  lemma ConsSplit(whole: string, tail: string)
    requires whole != ""
    ensures (whole + tail)[0] == whole[0] && (whole + tail)[1..] == whole[1..] + tail
  {
  }

  /** What `whole` in front of a tail that scans as `r` should yield. */
  function WholeThen(whole: string, k: int, r: Scanned): Scanned
    requires 0 <= k <= |whole|
  {
    Scanned(whole[..k] + r.digits, r.scale - (|whole| - k), r.lost || |whole| > k)
  }

  lemma StoredDigit(whole: string, tail: string, n: nat, k: nat, r: Scanned)
    requires whole != "" && AllDigits(whole) && n < MAX_STORED && 0 < k <= |whole|
    requires Scan(whole[1..] + tail, false, n + 1) == WholeThen(whole[1..], k - 1, r)
    ensures Scan(whole + tail, false, n) == WholeThen(whole, k, r)
  {
    ConsSplit(whole, tail);
    PrefixCons(whole, k, r.digits);
  }

  lemma LostDigit(whole: string, tail: string, n: nat, r: Scanned)
    requires whole != "" && AllDigits(whole) && n >= MAX_STORED
    requires Scan(whole[1..] + tail, false, n) == WholeThen(whole[1..], 0, r)
    ensures Scan(whole + tail, false, n) == WholeThen(whole, 0, r)
  {
    ConsSplit(whole, tail);
    assert whole[..0] == whole[1..][..0];
  }

  lemma {:induction false} ScanWhole(whole: string, tail: string, n: nat)
    requires AllDigits(whole) && n <= MAX_STORED && (tail != "" ==> !IsDigit(tail[0]))
    ensures var k := Min(|whole|, MAX_STORED - n);
            Scan(whole + tail, false, n) == WholeThen(whole, k, Scan(tail, false, n + k))
    decreases |whole|
  {
    var k := Min(|whole|, MAX_STORED - n);
    if whole == "" {
      assert whole + tail == tail && whole[..0] + Scan(tail, false, n).digits == Scan(tail, false, n).digits;
    } else if n < MAX_STORED {
      ScanWhole(whole[1..], tail, n + 1);
      StoredDigit(whole, tail, n, k, Scan(tail, false, n + k));
    } else {
      ScanWhole(whole[1..], tail, n);
      LostDigit(whole, tail, n, Scan(tail, false, n));
    }
  }

  function Stored(m: Numeral): string {
    (m.whole + m.frac)[..Min(|m.whole| + |m.frac|, MAX_STORED)]
  }

  lemma ScanAfter(m: Numeral, n: nat)
    requires Sound(m) && n <= MAX_STORED
    ensures var k := Min(|m.frac|, MAX_STORED - n);
            Scan(After(m), false, n) == Scanned(m.frac[..k], k, false)
  {
    if m.point {
      assert After(m)[1..] == m.frac + m.rest;
      ScanFraction(m.frac, m.rest, n);
    } else {
      assert After(m) == m.rest;
    }
  }

  lemma ScanOf(m: Numeral)
    requires Sound(m)
    ensures var r := Scan(Mantissa(Spelled(m)), false, 0);
            && r.digits == Stored(m) && (r.lost <==> |m.whole| > MAX_STORED)
            && (|m.whole| <= MAX_STORED ==> r.scale == |r.digits| - |m.whole|)
  {
    MantissaOf(m);
    ScanWhole(m.whole, After(m), 0);
    var k := Min(|m.whole|, MAX_STORED);
    ScanAfter(m, k);
    StoredParts(m, k);
  }

  lemma StoredParts(m: Numeral, k: nat)
    requires k == Min(|m.whole|, MAX_STORED)
    ensures Stored(m) == m.whole[..k] + m.frac[..Min(|m.frac|, MAX_STORED - k)]
  {
  }

  lemma LostIsLarge(m: Numeral)
    requires Sound(m) && |m.whole| > MAX_STORED
    ensures AllDigits(Stored(m)) && Decimal(Stored(m)) >= TWO128
  {
    var t := Stored(m);
    assert t[0] == m.whole[0];
    LeadingDigitBound(t);
    PowFacts();
  }

  /** Parsing is exact with a sharp bound: overflow is reported exactly if the stored digits, at most 48,
      denote 2^128 or more; otherwise the bytes hold that integer and the scale counts the stored digits
      after the point. With at most 48 digits everything is stored. */
  lemma ParsingIsExact(m: Numeral, ns: Numeric, overflow: bool)
    requires Sound(m) && ParsedAs(Spelled(m), ns, overflow)
    ensures AllDigits(Stored(m)) && ns.precision == |Stored(m)|
    ensures ns.sign == (if m.sign == "-" then 0 else 1)
    ensures overflow <==> Decimal(Stored(m)) >= TWO128
    ensures !overflow ==> Num(256, ns.val) == Decimal(Stored(m)) && ns.scale == |Stored(m)| - |m.whole|
    ensures |m.whole| + |m.frac| <= MAX_STORED ==> Stored(m) == m.whole + m.frac && ns.scale == |m.frac|
  {
    MantissaOf(m);
    ScanOf(m);
    if |m.whole| > MAX_STORED { LostIsLarge(m); }
    if |m.whole| + |m.frac| <= MAX_STORED { AllStored(m); }
  }

  /** On every text at all. */
  lemma AnyTextParsesExactly(wv: string, ns: Numeric, overflow: bool) returns (m: Numeral)
    requires ParsedAs(wv, ns, overflow)
    ensures Sound(m) && Spelled(m) == wv && AllDigits(Stored(m))
    ensures overflow <==> Decimal(Stored(m)) >= TWO128
    ensures !overflow ==> Num(256, ns.val) == Decimal(Stored(m)) && ns.scale == |Stored(m)| - |m.whole|
    ensures ns.sign == (if m.sign == "-" then 0 else 1)
  {
    m := EveryTextIsNumeral(wv);
    ParsingIsExact(m, ns, overflow);
  }

  lemma AllStored(m: Numeral)
    requires |m.whole| + |m.frac| <= MAX_STORED
    ensures Stored(m) == m.whole + m.frac && |Stored(m)| - |m.whole| == |m.frac| && SChar(|m.frac|) == |m.frac|
  {
  }

  // ----- Round trips -----

  /** `text` is a plain numeral for the number: `digits` divided by ten to the `scale`. */
  ghost predicate Denotes(text: string, v: Number) {
    exists m :: Sound(m) && Spelled(m) == text && m.rest == "" && IsNumber(m, v)
  }

  predicate IsNumber(m: Numeral, v: Number)
    requires Sound(m)
  {
    v == Number(m.sign == "-", Decimal(m.whole + m.frac), |m.frac|)
  }

  lemma PrintedSpelling(m: Numeral, z: string, w: string, f: string)
    requires Sound(m) && m == Numeral("", m.sign, z, m.whole, m.point, f, "") && w == z + m.whole
    ensures Spelled(m) == m.sign + w + (if m.point then "." + f else "")
  {
  }

  /** The numeral behind a printed text. */
  lemma PrintedNumeral(negative: bool, ds: seq<nat>, scale: nat) returns (m: Numeral)
    requires Digits10(ds)
    ensures Sound(m) && Spelled(m) == Text(negative, ds, scale) && m.rest == ""
    ensures m.sign == (if negative then "-" else "") && |m.frac| == scale
    ensures Decimal(m.whole + m.frac) == Num(10, ds)
  {
    var w, f := Whole(ds, scale), Fraction(ds, scale);
    var z := ZerosOfText(w);
    m := Numeral("", if negative then "-" else "", z, SkipZeros(w), scale > 0, f, "");
    PrintedDigits(ds, scale);
    assert Decimal(m.whole + f) == Num(10, ds) by {
      DecimalZeros(z, m.whole + f);
      assert w + f == z + (m.whole + f);
    }
    PrintedSpelling(m, z, w, f);
  }

  /** Printing is exact: the text denotes sign times the kept digits over ten to the scale. */
  lemma PrintingIsExact(negative: bool, ds: seq<nat>, scale: nat)
    requires Digits10(ds)
    ensures Denotes(Text(negative, ds, scale), Number(negative, Num(10, ds), scale))
  {
    var m := PrintedNumeral(negative, ds, scale);
    assert IsNumber(m, Number(negative, Num(10, ds), scale));
  }

  /** A number below 2^128 written without superfluous zeros has at most 39 digits. */
  lemma FewDigits(t: string)
    requires AllDigits(t) && t != "" && t[0] != '0' && Decimal(t) < TWO128
    ensures |t| <= MAX_NUMERIC_DIGITS
  {
    LeadingDigitBound(t);
    PowFacts();
    if |t| - 1 >= 39 { PowMonotone(10, 39, |t| - 1); }
  }

  lemma {:induction false} NumInjective(a: seq<nat>, b: seq<nat>)
    requires |a| == |b| && (forall i :: 0 <= i < |a| ==> a[i] < 256 && b[i] < 256)
    requires Num(256, a) == Num(256, b)
    ensures a == b
    decreases |a|
  {
    if a != [] {
      assert a[0] == b[0] && Num(256, a[1..]) == Num(256, b[1..]);
      NumInjective(a[1..], b[1..]);
      assert a == [a[0]] + a[1..] && b == [b[0]] + b[1..];
    }
  }

  /** Parsing what was printed restores sign, scale and every byte, whenever the precision covers the
      digits and the scale is at most 48. */
  lemma ParseOfPrinted(ns: Numeric, ds: seq<nat>, back: Numeric, overflow: bool)
    requires |ns.val| == MAX_NUMERIC_LEN && 0 <= ns.scale <= MAX_STORED && ns.precision > 0
    requires Num(256, ns.val) < Pow(10, Kept39(ns.precision))
    requires Digits10(ds) && IsRemainder(Num(256, ns.val), Pow(10, Kept39(ns.precision)), Num(10, ds))
    requires ParsedAs(Text(ns.sign == 0, ds, ns.scale), back, overflow)
    ensures !overflow && back.val == ns.val && back.scale == ns.scale
    ensures back.sign == 0 <==> ns.sign == 0
  {
    RemainderOfSmall(Num(256, ns.val), Pow(10, Kept39(ns.precision)), Num(10, ds));
    NumBound(256, ns.val);
    PowFacts();
    var m := PrintedNumeral(ns.sign == 0, ds, ns.scale);
    if m.whole != "" {
      assert (m.whole + m.frac)[0] == m.whole[0];
      FewDigits(m.whole + m.frac);
    }
    ParsingIsExact(m, back, overflow);
    NumInjective(back.val, ns.val);
  }

  /** Printing what was parsed denotes the number that was read, digit for digit and with the same
      scale. */
  lemma PrintOfParsed(m: Numeral, ns: Numeric, ds: seq<nat>)
    requires Sound(m) && |m.whole| + |m.frac| <= MAX_STORED && ParsedAs(Spelled(m), ns, false)
    requires ns.precision > 0
    requires Digits10(ds) && IsRemainder(Num(256, ns.val), Pow(10, Kept39(ns.precision)), Num(10, ds))
    ensures ns.scale == |m.frac|
    ensures Denotes(Text(ns.sign == 0, ds, ns.scale), Number(m.sign == "-", Decimal(m.whole + m.frac), |m.frac|))
  {
    ParsingIsExact(m, ns, false);
    DecimalBound(m.whole + m.frac);
    PowFacts();
    RemainderOfSmall(Num(256, ns.val), Pow(10, Kept39(ns.precision)), Num(10, ds));
    PrintingIsExact(ns.sign == 0, ds, ns.scale);
  }

  /** No digit is stored exactly if the text denotes a zero without a fraction, which prints as "0". */
  lemma ParsedZero(m: Numeral, ns: Numeric, overflow: bool)
    requires Sound(m) && ParsedAs(Spelled(m), ns, overflow)
    ensures ns.precision == 0 <==> m.whole == "" && m.frac == ""
  {
    ParsingIsExact(m, ns, overflow);
  }
}
