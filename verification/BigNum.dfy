/** Positional numbers: little-endian byte values, decimal digit strings and their powers. */
module BigNum {

  type byte = x: int | 0 <= x < 256

  function Pow(b: nat, e: nat): nat {
    if e == 0 then 1 else b * Pow(b, e - 1)
  }

  /** The number whose digits in base `b`, least significant first, are `ds`. */
  function Num(b: nat, ds: seq<nat>): nat {
    if ds == [] then 0 else ds[0] + b * Num(b, ds[1..])
  }

  predicate IsDigit(c: char) {
    '0' <= c <= '9'
  }

  predicate AllDigits(t: string) {
    forall i :: 0 <= i < |t| ==> IsDigit(t[i])
  }

  function DigitOf(c: char): (d: nat)
    requires IsDigit(c)
    ensures d < 10
  {
    c as int - '0' as int
  }

  function CharOf(d: nat): (c: char)
    requires d < 10
    ensures IsDigit(c) && DigitOf(c) == d
  {
    '0' + d as char
  }

  /** The number a decimal digit string denotes. */
  function Decimal(t: string): nat
    requires AllDigits(t)
  {
    if t == "" then 0 else Decimal(t[..|t| - 1]) * 10 + DigitOf(t[|t| - 1])
  }

  predicate Digits10(ds: seq<nat>) {
    forall i :: 0 <= i < |ds| ==> ds[i] < 10
  }

  /** A little-endian digit list written as text, most significant digit first. */
  function Show(ds: seq<nat>): (t: string)
    requires Digits10(ds)
    ensures |t| == |ds| && AllDigits(t)
  {
    if ds == [] then "" else Show(ds[1..]) + [CharOf(ds[0])]
  }

  predicate Splits(n: nat, d: nat, m: nat, q: nat) {
    n == d + m * q
  }

  /** `d` is `n` modulo `m`. */
  ghost predicate IsRemainder(n: nat, m: nat, d: nat) {
    d < m && exists q :: Splits(n, d, m, q)
  }

  lemma RemainderOfSmall(n: nat, m: nat, d: nat)
    requires IsRemainder(n, m, d) && n < m
    ensures d == n
  {
    var q :| Splits(n, d, m, q);
    if q > 0 { MulMonotone(m, 1, q); }
  }

  // ----- Powers -----

  lemma {:induction false} PowPositive(b: nat, e: nat)
    requires b > 0
    ensures Pow(b, e) > 0
  {
    if e > 0 { PowPositive(b, e - 1); }
  }

  lemma {:induction false} PowAdd(b: nat, m: nat, n: nat)
    ensures Pow(b, m + n) == Pow(b, m) * Pow(b, n)
    decreases m
  {
    if m > 0 {
      PowAdd(b, m - 1, n);
      assert b * (Pow(b, m - 1) * Pow(b, n)) == (b * Pow(b, m - 1)) * Pow(b, n);
    }
  }

  lemma PowMonotone(b: nat, m: nat, n: nat)
    requires b > 0 && m <= n
    ensures Pow(b, m) <= Pow(b, n)
  {
    PowAdd(b, m, n - m);
    PowPositive(b, n - m);
    MulGrows(Pow(b, m), Pow(b, n - m));
  }

  lemma MulGrows(x: nat, y: nat)
    requires y >= 1
    ensures x <= x * y
  {
  }

  // ----- Digit lists -----

  lemma {:induction false} NumAppend(b: nat, ds: seq<nat>, d: nat)
    ensures Num(b, ds + [d]) == Num(b, ds) + Pow(b, |ds|) * d
    decreases |ds|
  {
    if ds == [] {
      assert ds + [d] == [d] && [d][1..] == [];
    } else {
      assert (ds + [d])[1..] == ds[1..] + [d];
      NumAppend(b, ds[1..], d);
      MulAssoc(b, Pow(b, |ds| - 1), d);
      MulDistributes(b, Num(b, ds[1..]), Pow(b, |ds| - 1) * d);
    }
  }

  lemma MulAssoc(x: int, y: int, z: int)
    ensures x * (y * z) == (x * y) * z
  {
  }

  lemma MulDistributes(x: int, y: int, z: int)
    ensures x * (y + z) == x * y + x * z
  {
  }

  lemma {:induction false} NumBound(b: nat, ds: seq<nat>)
    requires b > 0 && forall i :: 0 <= i < |ds| ==> ds[i] < b
    ensures Num(b, ds) < Pow(b, |ds|)
    decreases |ds|
  {
    if ds != [] {
      NumBound(b, ds[1..]);
      var n, p := Num(b, ds[1..]), Pow(b, |ds| - 1);
      assert n + 1 <= p;
      MulMonotone(b, n + 1, p);
      MulDistributes(b, n, 1);
    }
  }

  lemma MulMonotone(x: nat, y: nat, z: nat)
    requires y <= z
    ensures x * y <= x * z
  {
  }

  lemma {:induction false} NumZero(b: nat, ds: seq<nat>)
    requires forall i :: 0 <= i < |ds| ==> ds[i] == 0
    ensures Num(b, ds) == 0
  {
    if ds != [] { NumZero(b, ds[1..]); }
  }

  /** Appending zeros does not change the number. */
  lemma {:induction false} NumPad(b: nat, ds: seq<nat>, zs: seq<nat>)
    requires forall i :: 0 <= i < |zs| ==> zs[i] == 0
    ensures Num(b, ds + zs) == Num(b, ds)
    decreases |ds|
  {
    if ds == [] {
      assert ds + zs == zs;
      NumZero(b, zs);
    } else {
      assert (ds + zs)[1..] == ds[1..] + zs;
      NumPad(b, ds[1..], zs);
    }
  }

  // ----- Digit strings -----

  lemma {:induction false} DecimalOfShow(ds: seq<nat>)
    requires Digits10(ds)
    ensures Decimal(Show(ds)) == Num(10, ds)
  {
    if ds != [] {
      DecimalOfShow(ds[1..]);
      assert Show(ds)[..|ds| - 1] == Show(ds[1..]);
    }
  }

  lemma {:induction false} ShowSplit(ds: seq<nat>, k: nat)
    requires Digits10(ds) && k <= |ds|
    ensures Show(ds) == Show(ds[k..]) + Show(ds[..k])
    decreases k
  {
    if k == 0 {
      assert ds[..0] == [] && ds[0..] == ds;
    } else {
      ShowSplit(ds[1..], k - 1);
      assert ds[1..][k - 1..] == ds[k..];
      assert ds[..k][1..] == ds[1..][..k - 1];
    }
  }

  lemma TimesTen(x: int, p: int, y: int)
    ensures (x * p + y) * 10 == x * (10 * p) + y * 10
  {
  }

  lemma {:induction false} DecimalConcat(a: string, b: string)
    requires AllDigits(a) && AllDigits(b)
    ensures AllDigits(a + b) && Decimal(a + b) == Decimal(a) * Pow(10, |b|) + Decimal(b)
    decreases |b|
  {
    if b == "" {
      assert a + b == a;
    } else {
      var n := |b| - 1;
      DecimalConcat(a, b[..n]);
      assert (a + b)[..|a + b| - 1] == a + b[..n] && (a + b)[|a + b| - 1] == b[n];
      TimesTen(Decimal(a), Pow(10, n), Decimal(b[..n]));
    }
  }

  lemma {:induction false} DecimalBound(t: string)
    requires AllDigits(t)
    ensures Decimal(t) < Pow(10, |t|)
    decreases |t|
  {
    if t != "" { DecimalBound(t[..|t| - 1]); }
  }

  lemma {:induction false} DecimalZeros(z: string, t: string)
    requires AllDigits(t) && forall i :: 0 <= i < |z| ==> z[i] == '0'
    ensures AllDigits(z + t) && Decimal(z + t) == Decimal(t)
    decreases |z|
  {
    if z == "" {
      assert z + t == t;
    } else {
      DecimalZeros(z[1..], t);
      assert z + t == [z[0]] + (z[1..] + t);
      DecimalConcat([z[0]], z[1..] + t);
      assert Decimal([z[0]]) == 0;
    }
  }

  lemma LeadingDigitBound(t: string)
    requires AllDigits(t) && t != "" && t[0] != '0'
    ensures Decimal(t) >= Pow(10, |t| - 1)
  {
    assert t == [t[0]] + t[1..];
    DecimalConcat([t[0]], t[1..]);
    assert Decimal([t[0]]) == DigitOf(t[0]) >= 1;
    MulMonotone(Pow(10, |t| - 1), 1, Decimal([t[0]]));
  }
}
