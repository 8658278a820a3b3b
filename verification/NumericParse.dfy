/** convert.c's parse_to_numeric_struct: decimal text to a 128-bit SQL_NUMERIC_STRUCT by multiply and carry. */
module NumericParse {
  import opened BigNum
  import opened NumericPrint

  const MAX_STORED := 48  // size of the digit buffer

  predicate IsSpace(c: char) {
    c == ' ' || 9 <= c as int <= 13
  }

  function SkipSpace(t: string): string {
    if t != "" && IsSpace(t[0]) then SkipSpace(t[1..]) else t
  }

  function SkipZeros(t: string): string {
    if t != "" && t[0] == '0' then SkipZeros(t[1..]) else t
  }

  /** The digits read into the buffer, the scale they carry, and whether a digit before the point was
      dropped because the buffer was full. */
  datatype Scanned = Scanned(digits: string, scale: int, lost: bool)

  function Scan(t: string, dot: bool, n: nat): (r: Scanned)
    ensures AllDigits(r.digits)
  {
    if t == "" then Scanned("", 0, false)
    else if t[0] == '.' then if dot then Scanned("", 0, false) else Scan(t[1..], true, n)
    else if !IsDigit(t[0]) then Scanned("", 0, false)
    else if n >= MAX_STORED then
      if dot then Scanned("", 0, false)
      else var r := Scan(t[1..], dot, n); Scanned(r.digits, r.scale - 1, true)
    else
      var r := Scan(t[1..], dot, n + 1);
      Scanned([t[0]] + r.digits, r.scale + (if dot then 1 else 0), r.lost)
  }

  predicate Negative(t: string) {
    t != "" && t[0] == '-'
  }

  function AfterSign(t: string): string {
    if t != "" && (t[0] == '-' || t[0] == '+') then t[1..] else t
  }

  /** The part of the text that the digit loop reads. */
  function Mantissa(wv: string): string {
    SkipZeros(AfterSign(SkipSpace(wv)))
  }

  /** Value of a signed 8-bit field. */
  function SChar(x: int): int {
    (x + 128) % 256 - 128
  }

  method ReadDigits(t: string) returns (digits: string, scale: int, lost: bool)
    ensures Scanned(digits, scale, lost) == Scan(t, false, 0) && |digits| <= MAX_STORED
  {
    digits, scale, lost := "", 0, false;
    var i, dot := 0, false;
    while i < |t|
      invariant 0 <= i <= |t| && |digits| <= MAX_STORED
      invariant var r := Scan(t[i..], dot, |digits|);
                Scan(t, false, 0) == Scanned(digits + r.digits, scale + r.scale, lost || r.lost)
    {
      var c := t[i];
      assert t[i..][0] == c && t[i..][1..] == t[i + 1..];
      ghost var r := Scan(t[i + 1..], dot, |digits| + 1);
      if c == '.' {
        if dot { break; }
        dot := true;
      } else if !IsDigit(c) {
        break;
      } else if |digits| >= MAX_STORED {
        if dot { break; }
        scale := scale - 1;
        lost := true;
      } else {
        if dot { scale := scale + 1; }
        assert digits + ([c] + r.digits) == (digits + [c]) + r.digits;
        digits := digits + [c];
      }
      i := i + 1;
    }
    assert digits + "" == digits;
  }

  /** Multiplies the number in `val` by ten and adds a digit, in place; `carry` is what does not fit. */
  method TimesTenPlus(val: array<byte>, digit: nat) returns (carry: nat)
    requires digit < 10
    modifies val
    ensures Num(256, val[..]) + Pow(256, val.Length) * carry == 10 * Num(256, old(val[..])) + digit
  {
    carry := digit;
    ghost var orig := val[..];
    var i := 0;
    assert val[..0] == [] && orig[..0] == [];
    while i < val.Length
      invariant 0 <= i <= val.Length && carry < 10
      invariant val[i..] == orig[i..]
      invariant Num(256, val[..i]) + Pow(256, i) * carry == 10 * Num(256, orig[..i]) + digit
    {
      assert val[i] == orig[i] by { assert val[i..][0] == orig[i..][0]; }
      ghost var done, c := val[..i], carry;
      var t := val[i] * 10 + carry;
      val[i] := t % 256;
      carry := t / 256;
      assert val[..i + 1] == done + [val[i]] && orig[..i + 1] == orig[..i] + [orig[i]];
      NumAppend(256, done, val[i]);
      NumAppend(256, orig[..i], orig[i]);
      ByteStep(Pow(256, i), Pow(256, i + 1), Num(256, done), Num(256, orig[..i]), digit, orig[i], c, val[i], carry);
      i := i + 1;
    }
    assert val[..i] == val[..] && orig[..i] == orig;
  }

  lemma ByteStep(p: nat, p1: nat, v: nat, o: nat, digit: nat, b: nat, c: nat, b1: nat, c1: nat)
    requires p1 == 256 * p && v + p * c == 10 * o + digit && b * 10 + c == 256 * c1 + b1
    ensures (v + p * b1) + p1 * c1 == 10 * (o + p * b) + digit
  {
    calc {
      (v + p * b1) + p1 * c1;
      v + p * b1 + (256 * p) * c1;
      { MulAssoc(p, 256, c1); }
      v + p * b1 + p * (256 * c1);
      { MulDistributes(p, b1, 256 * c1); }
      v + p * (b1 + 256 * c1);
      v + p * (b * 10 + c);
      { MulDistributes(p, b * 10, c); MulAssoc(p, b, 10); }
      v + p * c + 10 * (p * b);
      10 * o + digit + 10 * (p * b);
    }
  }

  lemma DecimalStep(digits: string, k: nat)
    requires k < |digits| && AllDigits(digits)
    ensures AllDigits(digits[..k]) && AllDigits(digits[..k + 1])
    ensures Decimal(digits[..k + 1]) == Decimal(digits[..k]) * 10 + DigitOf(digits[k])
  {
    assert digits[..k + 1][..k] == digits[..k];
  }

  /** The digits converted to binary: overflow is reported exactly from 2^128 on. */
  method ToBinary(digits: string, val: array<byte>) returns (overflow: bool)
    requires AllDigits(digits) && val.Length == MAX_NUMERIC_LEN
    modifies val
    ensures overflow <==> Decimal(digits) >= TWO128
    ensures !overflow ==> Num(256, val[..]) == Decimal(digits)
  {
    forall i | 0 <= i < val.Length { val[i] := 0; }
    overflow := false;
    NumZero(256, val[..]);
    PowFacts();
    var k := 0;
    assert digits[..0] == "";
    while k < |digits|
      invariant 0 <= k <= |digits| && AllDigits(digits[..k])
      invariant overflow <==> Decimal(digits[..k]) >= TWO128
      invariant !overflow ==> Num(256, val[..]) == Decimal(digits[..k])
    {
      DecimalStep(digits, k);
      var carry := TimesTenPlus(val, DigitOf(digits[k]));
      NumBound(256, val[..]);
      if carry != 0 {
        MulMonotone(TWO128, 1, carry);
        overflow := true;
      }
      k := k + 1;
    }
    assert digits[..k] == digits;
  }

  /** What parsing a text yields: the fields of the struct, and whether overflow is reported. */
  ghost predicate ParsedAs(wv: string, ns: Numeric, overflow: bool) {
    var r := Scan(Mantissa(wv), false, 0);
    && ns.precision == |r.digits| && ns.scale == SChar(r.scale)
    && ns.sign == (if Negative(SkipSpace(wv)) then 0 else 1)
    && |ns.val| == MAX_NUMERIC_LEN
    && (overflow <==> r.lost || Decimal(r.digits) >= TWO128)
    && (!overflow ==> Num(256, ns.val) == Decimal(r.digits))
  }

  method ParseToNumericStruct(wv: string) returns (ns: Numeric, overflow: bool)
    ensures ParsedAs(wv, ns, overflow)
  {
    var i := 0;
    while i < |wv| && IsSpace(wv[i])
      invariant 0 <= i <= |wv| && SkipSpace(wv[i..]) == SkipSpace(wv)
    {
      assert wv[i..][1..] == wv[i + 1..];
      i := i + 1;
    }
    ghost var afterSpace := wv[i..];
    assert afterSpace == SkipSpace(wv);
    var sign := 1;
    if i < |wv| && wv[i] == '-' {
      sign := 0;
      i := i + 1;
    } else if i < |wv| && wv[i] == '+' {
      i := i + 1;
    }
    assert wv[i..] == AfterSign(afterSpace);
    while i < |wv| && wv[i] == '0'
      invariant 0 <= i <= |wv| && SkipZeros(wv[i..]) == SkipZeros(AfterSign(afterSpace))
    {
      assert wv[i..][1..] == wv[i + 1..];
      i := i + 1;
    }
    assert wv[i..] == Mantissa(wv);
    var digits, scale, lost := ReadDigits(wv[i..]);
    var val := new byte[MAX_NUMERIC_LEN];
    overflow := ToBinary(digits, val);
    ns := Numeric(|digits|, SChar(scale), sign, val[..]);
    overflow := overflow || lost;
  }
}
