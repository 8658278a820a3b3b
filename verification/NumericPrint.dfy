/** convert.c's ResolveNumericParam: a 128-bit SQL_NUMERIC_STRUCT printed by repeated division by ten. */
module NumericPrint {
  import opened BigNum
  import opened CharBuffer

  const MAX_NUMERIC_LEN := 16
  const MAX_NUMERIC_DIGITS := 39
  const TWO128 := 0x1_0000_0000_0000_0000_0000_0000_0000_0000

  lemma PowFacts()
    ensures Pow(256, 16) == TWO128
    ensures TWO128 <= Pow(10, 39) <= Pow(10, 47)
  {
    PowAdd(256, 8, 8);
    assert Pow(256, 8) == 0x1_0000_0000_0000_0000;
    PowAdd(10, 20, 19);
    assert Pow(10, 10) == 10000000000;
    PowAdd(10, 10, 10);
    PowAdd(10, 10, 9);
    assert Pow(10, 9) == 1000000000;
    PowMonotone(10, 39, 47);
  }

  /** One byte of the division: `was` holds the quotient above position `i`, `r` is carried down. */
  lemma DivideStep(orig: seq<byte>, was: seq<byte>, i: nat, r: nat, d: byte)
    requires i < |orig| == |was| && was[i] == orig[i] && d == (orig[i] + r * 256) / 10
    requires Num(256, orig[i + 1..]) == 10 * Num(256, was[i + 1..]) + r
    ensures Num(256, orig[i..]) == 10 * Num(256, was[i := d][i..]) + (orig[i] + r * 256) % 10
  {
    assert orig[i..][1..] == orig[i + 1..];
    assert was[i := d][i..][1..] == was[i + 1..];
  }

  method DivideByte(vals: array<byte>, i: nat, r: nat, ghost orig: seq<byte>) returns (d: byte, r1: nat)
    requires i < vals.Length == |orig| && vals[..i + 1] == orig[..i + 1] && r < 10
    requires Num(256, orig[i + 1..]) == 10 * Num(256, vals[..][i + 1..]) + r
    modifies vals
    ensures vals[i] == d && (forall j :: 0 <= j < vals.Length && j != i ==> vals[j] == old(vals[j]))
    ensures vals[..i] == orig[..i] && r1 < 10
    ensures Num(256, orig[i..]) == 10 * Num(256, vals[..][i..]) + r1
  {
    assert vals[i] == orig[i] by { assert vals[..i + 1][i] == orig[..i + 1][i]; }
    var v := vals[i] + r * 256;
    d, r1 := v / 10, v % 10;
    DivideStep(orig, vals[..], i, r, d);
    vals[i] := d;
    assert vals[..] == old(vals[..])[i := d];
    assert vals[..i] == orig[..i] by { assert vals[..i] == old(vals[..i + 1])[..i]; }
  }

  /** Divides the number in `vals` by ten in place, from the most significant of `vlen` bytes down;
      `top` is the highest byte left non-zero, or -1. Every partial quotient fits a byte. */
  method DivideByTen(vals: array<byte>, vlen: nat) returns (r: nat, top: int)
    requires vlen <= vals.Length && forall j :: vlen <= j < vals.Length ==> vals[j] == 0
    modifies vals
    ensures r < 10 && Num(256, old(vals[..])) == 10 * Num(256, vals[..]) + r
    ensures -1 <= top < vlen
    ensures top >= 0 ==> vals[top] != 0
    ensures forall j :: top < j < vals.Length ==> vals[j] == 0
  {
    r, top := 0, -1;
    ghost var orig := vals[..];
    NumZero(256, orig[vlen..]);
    var i := vlen - 1;
    while i >= 0
      invariant -1 <= i < vlen && r < 10
      invariant |orig| == vals.Length && vals[..i + 1] == orig[..i + 1]
      invariant Num(256, orig[i + 1..]) == 10 * Num(256, vals[..][i + 1..]) + r
      invariant -1 <= top < vlen && (top >= 0 ==> i < top && vals[top] != 0)
      invariant forall j :: (if top < 0 then i else top) < j < vals.Length ==> vals[j] == 0
    {
      var d;
      d, r := DivideByte(vals, i, r, orig);
      if d != 0 && top == -1 { top := i; }
      i := i - 1;
    }
    assert vals[..][0..] == vals[..] && orig[0..] == orig;
  }

  /** The decimal digits, least significant first, until the number or the precision is used up. */
  method ExtractDigits(val: seq<byte>, precision: nat) returns (calv: array<nat>, len: nat)
    requires |val| == MAX_NUMERIC_LEN && 0 < precision <= MAX_NUMERIC_DIGITS
    ensures calv.Length == MAX_NUMERIC_DIGITS && 0 < len <= precision
    ensures Digits10(calv[..len]) && IsRemainder(Num(256, val), Pow(10, precision), Num(10, calv[..len]))
    ensures NoLeadingZero(calv[..len], Num(256, val), precision)
  {
    calv := new nat[MAX_NUMERIC_DIGITS];
    var vals := new byte[MAX_NUMERIC_LEN](i requires 0 <= i < |val| => val[i]);
    assert vals[..] == val;
    len := 0;
    ghost var n := Num(256, val);
    assert calv[..0] == [];
    var top := MAX_NUMERIC_LEN - 1;
    while len == 0 || (top >= 0 && len < precision)
      invariant 0 <= len <= precision && Digits10(calv[..len])
      invariant -1 <= top < MAX_NUMERIC_LEN && forall j :: top < j < vals.Length ==> vals[j] == 0
      invariant len > 0 && top >= 0 ==> vals[top] != 0
      invariant len > 0 && top < 0 ==> NoLeadingZero(calv[..len], n, precision)
      invariant n == Num(10, calv[..len]) + Pow(10, len) * Num(256, vals[..])
      decreases precision - len
    {
      ghost var q, done := Num(256, vals[..]), calv[..len];
      if len > 0 { NumPositive(256, vals[..], top); }
      var r;
      r, top := DivideByTen(vals, top + 1);
      calv[len] := r;
      ghost var q1 := Num(256, vals[..]);
      DigitOut(done, q, q1, r);
      if top < 0 { NumZero(256, vals[..]); }
      assert calv[..len + 1] == done + [r];
      len := len + 1;
    }
    Kept(n, calv[..len], Num(256, vals[..]), precision, top, vals[..]);
    if top >= 0 {
      NumPositive(256, vals[..], top);
      CutOff(n, Num(10, calv[..len]), Pow(10, len), Num(256, vals[..]));
    }
  }

  lemma CutOff(n: nat, d: nat, p: nat, q: nat)
    requires n == d + p * q && q > 0
    ensures n >= p
  {
    MulGrows(p, q);
  }

  /** Digits of `n`, least significant first: no superfluous zero in front unless digits of `n` were cut off there. */
  predicate NoLeadingZero(ds: seq<nat>, n: nat, precision: nat) {
    |ds| == 1 || (|ds| > 0 && ds[|ds| - 1] != 0) || (|ds| == precision && n >= Pow(10, precision))
  }

  lemma {:induction false} NumPositive(base: nat, s: seq<nat>, k: nat)
    requires k < |s| && s[k] != 0 && base > 0
    ensures Num(base, s) > 0
  {
    if k > 0 {
      NumPositive(base, s[1..], k - 1);
      MulPositive(base, Num(base, s[1..]));
    }
  }

  lemma MulPositive(a: nat, b: nat)
    requires a > 0 && b > 0
    ensures a * b > 0
  {
  }

  lemma Kept(n: nat, digits: seq<nat>, q: nat, precision: nat, top: int, rest: seq<nat>)
    requires Digits10(digits) && n == Num(10, digits) + Pow(10, |digits|) * q && q == Num(256, rest)
    requires |digits| <= precision && (top < 0 || |digits| == precision)
    requires top < 0 ==> forall j :: 0 <= j < |rest| ==> rest[j] == 0
    ensures IsRemainder(n, Pow(10, precision), Num(10, digits))
  {
    NumBound(10, digits);
    PowMonotone(10, |digits|, precision);
    if top < 0 { NumZero(256, rest); }
    assert Splits(n, Num(10, digits), Pow(10, precision), q);
  }

  lemma Carry(d: nat, p: nat, q: nat, d1: nat, p1: nat, q1: nat, r: nat)
    requires q == 10 * q1 + r && d1 == d + p * r && p1 == 10 * p
    ensures d + p * q == d1 + p1 * q1
  {
    MulDistributes(p, 10 * q1, r);
    MulAssoc(p, 10, q1);
  }

  lemma DigitOut(done: seq<nat>, q: nat, q1: nat, r: nat)
    requires q == 10 * q1 + r
    ensures Num(10, done) + Pow(10, |done|) * q == Num(10, done + [r]) + Pow(10, |done| + 1) * q1
  {
    NumAppend(10, done, r);
    var p, p1 := Pow(10, |done|), Pow(10, |done| + 1);
    assert p1 == 10 * p;
    Carry(Num(10, done), p, q, Num(10, done + [r]), p1, q1, r);
  }

  // ----- The text -----

  /** SQL_NUMERIC_STRUCT; sign 0 is negative. */
  datatype Numeric = Numeric(precision: nat, scale: int, sign: nat, val: seq<byte>)

  /** The digits with as many leading zeros as the scale asks for, so that one stands before the point. */
  function Padded(ds: seq<nat>, scale: nat): seq<nat> {
    ds + seq(if scale + 1 > |ds| then scale + 1 - |ds| else 0, _ => 0)
  }

  function Whole(ds: seq<nat>, scale: nat): (t: string)
    requires Digits10(ds)
    ensures AllDigits(t) && |t| == (if |ds| > scale + 1 then |ds| else scale + 1) - scale
  {
    Show(Padded(ds, scale)[scale..])
  }

  function Fraction(ds: seq<nat>, scale: nat): (t: string)
    requires Digits10(ds)
    ensures AllDigits(t) && |t| == scale
  {
    Show(Padded(ds, scale)[..scale])
  }

  function Text(negative: bool, ds: seq<nat>, scale: nat): string
    requires Digits10(ds)
  {
    (if negative then "-" else "") + Whole(ds, scale) + (if scale > 0 then "." + Fraction(ds, scale) else "")
  }

  /** Writes the digits from position `hi - 1` down to `lo`, zeros where there is no digit. */
  method PutDigits(chrform: array<char>, n: nat, calv: seq<nat>, ghost p: seq<nat>, hi: nat, lo: nat) returns (m: nat)
    requires n + (hi - lo) < chrform.Length && lo <= hi <= |p| && Digits10(p)
    requires calv <= p && forall j :: |calv| <= j < |p| ==> p[j] == 0
    modifies chrform
    ensures m == n + (hi - lo) && chrform[..m] == old(chrform[..n]) + Show(p[lo..hi])
  {
    m := n;
    var i: int := hi - 1;
    ghost var before := chrform[..n];
    assert p[hi..hi] == [];
    while i >= lo
      invariant lo - 1 <= i < hi && m == n + (hi - 1 - i)
      invariant chrform[..m] == before + Show(p[i + 1..hi])
    {
      assert p[i..hi][1..] == p[i + 1..hi];
      m := Put(chrform, m, if i >= |calv| then '0' else CharOf(calv[i]));
      assert chrform[..m] == before + Show(p[i..hi]);
      i := i - 1;
    }
  }

  method PutWhole(chrform: array<char>, n: nat, calv: seq<nat>, scale: nat) returns (m: nat)
    requires Digits10(calv) && n + |Whole(calv, scale)| < chrform.Length
    modifies chrform
    ensures m == n + |Whole(calv, scale)| && chrform[..m] == old(chrform[..n]) + Whole(calv, scale)
  {
    ghost var p := Padded(calv, scale);
    var hi := if |calv| > scale + 1 then |calv| else scale + 1;
    assert p[scale..hi] == p[scale..];
    m := PutDigits(chrform, n, calv, p, hi, scale);
  }

  method PutFraction(chrform: array<char>, n: nat, calv: seq<nat>, scale: nat) returns (m: nat)
    requires Digits10(calv) && n + scale < chrform.Length
    modifies chrform
    ensures m == n + scale && chrform[..m] == old(chrform[..n]) + Fraction(calv, scale)
  {
    ghost var p := Padded(calv, scale);
    assert p[0..scale] == p[..scale];
    m := PutDigits(chrform, n, calv, p, scale, 0);
  }

  method PutPoint(chrform: array<char>, n: nat, calv: seq<nat>, scale: nat) returns (m: nat)
    requires Digits10(calv) && n + 1 + scale < chrform.Length
    modifies chrform
    ensures m == n + (if scale > 0 then 1 + scale else 0)
    ensures chrform[..m] == old(chrform[..n]) + (if scale > 0 then "." + Fraction(calv, scale) else "")
  {
    m := n;
    if scale > 0 {
      ghost var sofar := chrform[..n];
      m := Put(chrform, n, '.');
      m := PutFraction(chrform, m, calv, scale);
      assert chrform[..m] == sofar + ("." + Fraction(calv, scale));
    }
  }

  method BuildText(chrform: array<char>, negative: bool, calv: seq<nat>, scale: nat) returns (n: nat)
    requires |calv| <= 39 && scale <= 127 && chrform.Length == 150 && Digits10(calv)
    modifies chrform
    ensures n < 150 && chrform[n] == '\0' && chrform[..n] == Text(negative, calv, scale)
  {
    n := 0;
    if negative { n := Put(chrform, 0, '-'); }
    n := PutWhole(chrform, n, calv, scale);
    n := PutPoint(chrform, n, calv, scale);
    chrform[n] := '\0';
  }

  function Kept39(precision: nat): nat {
    if precision < MAX_NUMERIC_DIGITS then precision else MAX_NUMERIC_DIGITS
  }

  /** ResolveNumericParam. The text is exact for the value modulo 10^min(precision, 39), and with its
      terminator it fits the 150 bytes of its destination. */
  method ResolveNumericParam(ns: Numeric, chrform: array<char>) returns (n: nat, ghost ds: seq<nat>)
    requires |ns.val| == MAX_NUMERIC_LEN && 0 <= ns.scale <= 127 && chrform.Length == 150
    modifies chrform
    ensures n < 150 && chrform[n] == '\0'
    ensures ns.precision == 0 ==> chrform[..n] == "0"
    ensures ns.precision > 0 ==>
              && Digits10(ds) && IsRemainder(Num(256, ns.val), Pow(10, Kept39(ns.precision)), Num(10, ds))
              && NoLeadingZero(ds, Num(256, ns.val), Kept39(ns.precision))
              && chrform[..n] == Text(ns.sign == 0, ds, ns.scale)
  {
    ds := [];
    if ns.precision == 0 {
      n := Put(chrform, 0, '0');
      chrform[n] := '\0';
      return;
    }
    var calv, len := ExtractDigits(ns.val, Kept39(ns.precision));
    ds := calv[..len];
    n := BuildText(chrform, ns.sign == 0, calv[..len], ns.scale);
  }
}
