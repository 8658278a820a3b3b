/** When the counter takes a statement to be a call with a return value, told from the cuts. */
module ReturnMark {
  import opened ScanSpec
  import opened ScanCount
  import opened Blocks
  import opened Cuts
  import opened CommandSplit
  import opened Counter

  /** White space, and words of one ASCII character, do not come between a brace and its marker. */
  predicate Unnoted(s: string, ps: seq<nat>, k: nat)
    requires k + 1 < |ps|
  {
    var c := At(s, ps[k]);
    !Multibyte(c) && if Word(c) then ps[k + 1] == ps[k] + 1 else White(c)
  }

  /** Between the cuts `k` and `m` the last thing noted is an opening brace, or nothing is and `b` holds. */
  predicate BraceLast(s: string, ps: seq<nat>, k: nat, b: bool, m: nat)
    requires k <= m < |ps|
    decreases m - k
  {
    if m == k then b else At(s, ps[m - 1]) == '{' || (Unnoted(s, ps, m - 1) && BraceLast(s, ps, k, b, m - 1))
  }

  lemma {:induction false} BraceLastFront(s: string, ps: seq<nat>, k: nat, b: bool, m: nat)
    requires k < m < |ps|
    ensures BraceLast(s, ps, k, b, m) == BraceLast(s, ps, k + 1, At(s, ps[k]) == '{' || (b && Unnoted(s, ps, k)), m)
    decreases m - k
  {
    if m > k + 1 { BraceLastFront(s, ps, k, b, m - 1); }
  }

  /** The marker at the `m`-th cut is one of a return value: with `c` markers before the cut `k` the 16-bit count is
      zero. */
  predicate ReturnAt(s: string, ps: seq<nat>, k: nat, b: bool, c: nat, m: nat)
    requires k <= m < |ps| && Marks(s, ps, k) <= Marks(s, ps, m)
  {
    At(s, ps[m]) == '?' && (c + Marks(s, ps, m) - Marks(s, ps, k)) % 0x1_0000 == 0 && BraceLast(s, ps, k, b, m)
  }

  lemma {:induction false} MarksGrow(s: string, ps: seq<nat>, k: nat, m: nat)
    requires k <= m <= |ps|
    ensures Marks(s, ps, k) <= Marks(s, ps, m)
    decreases m - k
  {
    if k < m { MarksGrow(s, ps, k, m - 1); }
  }

  ghost predicate SomeReturn(s: string, ps: seq<nat>, k: nat, n: nat, b: bool, c: nat)
    requires n < |ps|
  {
    exists m: nat :: k <= m < n && Marks(s, ps, k) <= Marks(s, ps, m) && ReturnAt(s, ps, k, b, c, m)
  }

  lemma SomeReturnStep(s: string, ps: seq<nat>, k: nat, n: nat, b: bool, c: nat)
    requires k < n < |ps|
    ensures var mark := At(s, ps[k]) == '?';
            SomeReturn(s, ps, k, n, b, c) <==>
            || (mark && b && c % 0x1_0000 == 0)
            || SomeReturn(s, ps, k + 1, n, At(s, ps[k]) == '{' || (b && Unnoted(s, ps, k)),
                          c + if mark then 1 else 0)
  {
    var b1, c1 := At(s, ps[k]) == '{' || (b && Unnoted(s, ps, k)), c + if At(s, ps[k]) == '?' then 1 else 0;
    forall m: nat | k < m < n
      ensures Marks(s, ps, k) <= Marks(s, ps, m) && Marks(s, ps, k + 1) <= Marks(s, ps, m)
      ensures ReturnAt(s, ps, k, b, c, m) == ReturnAt(s, ps, k + 1, b1, c1, m)
    {
      MarksGrow(s, ps, k, m);
      MarksGrow(s, ps, k + 1, m);
      BraceLastFront(s, ps, k, b, m);
    }
    if ReturnAt(s, ps, k, b, c, k) { assert SomeReturn(s, ps, k, n, b, c); }
  }

  lemma Int2Zero(n: nat)
    ensures Int2(n) == 0 <==> n % 0x1_0000 == 0
  {
    Int2Is(n);
  }

  lemma AfterIs(s: string, ps: seq<nat>, k: nat, o: Setting, b: bool)
    requires AreCuts(s, ps, o) && k < |ps| - 1 && 1 <= o.skip <= 2
    ensures ps[k] < |s| && BraceAfter(s, ps[k], o, b) == (At(s, ps[k]) == '{' || (b && Unnoted(s, ps, k)))
  {
    BlockAt(s, ps, k, o);
  }

  lemma BracedStep(s: string, i: nat, e: nat, o: Setting, first: bool, b: bool, c: nat)
    requires i < |s| && 1 <= o.skip <= 2 && e == BlockEnd(s, i, o) && (first ==> s[i] != ';')
    ensures Braced(s, i, o, b, c, first) ==
            (|| (s[i] == '?' && b && c % 0x1_0000 == 0)
             || Braced(s, e, o, BraceAfter(s, i, o, b), c + if s[i] == '?' then 1 else 0, first))
  {
    Int2Zero(c);
  }

  predicate BraceNext(s: string, ps: seq<nat>, k: nat, b: bool)
    requires k + 1 < |ps|
  {
    At(s, ps[k]) == '{' || (b && Unnoted(s, ps, k))
  }

  function CountNext(s: string, ps: seq<nat>, k: nat, c: nat): nat
    requires k < |ps|
  {
    c + if At(s, ps[k]) == '?' then 1 else 0
  }

  lemma ReturnStep(s: string, ps: seq<nat>, k: nat, n: nat, o: Setting, first: bool, b: bool, c: nat)
    requires AreCuts(s, ps, o) && k < n < |ps| && 1 <= o.skip <= 2 && (first ==> At(s, ps[k]) != ';')
    ensures ps[k] < |s| && ps[k + 1] <= |s|
    ensures var b1, c1 := BraceNext(s, ps, k, b), CountNext(s, ps, k, c);
            Braced(s, ps[k + 1], o, b1, c1, first) == SomeReturn(s, ps, k + 1, n, b1, c1) ==>
              Braced(s, ps[k], o, b, c, first) == SomeReturn(s, ps, k, n, b, c)
  {
    BlockAt(s, ps, k, o);
    AfterIs(s, ps, k, o, b);
    BracedStep(s, ps[k], ps[k + 1], o, first, b, c);
    SomeReturnStep(s, ps, k, n, b, c);
  }

  /** The counter sees the marker of a return value exactly when, among the cuts before the end of the scan, a marker
      stands behind an opening brace while the 16-bit count of markers is zero. */
  lemma {:induction false} ReturnByCuts(
    s: string, ps: seq<nat>, k: nat, n: nat, o: Setting, first: bool, b: bool, c: nat)
    requires AreCuts(s, ps, o) && k <= n < |ps| && 1 <= o.skip <= 2
    requires first ==> (forall j :: k <= j < n ==> At(s, ps[j]) != ';') && (n < |ps| - 1 ==> At(s, ps[n]) == ';')
    requires !first ==> n == |ps| - 1
    ensures ps[k] <= |s| && Braced(s, ps[k], o, b, c, first) == SomeReturn(s, ps, k, n, b, c)
    decreases n - k
  {
    if k < n {
      ReturnStep(s, ps, k, n, o, first, b, c);
      ReturnByCuts(s, ps, k + 1, n, o, first, BraceNext(s, ps, k, b), CountNext(s, ps, k, c));
    } else if n < |ps| - 1 {
      BlockAt(s, ps, n, o);
    }
  }

  // ----- The whole report -----

  /** `n`: the cut at the first semicolon, or the end. */
  ghost predicate FirstEnd(s: string, ps: seq<nat>, n: nat) {
    && n < |ps| && (forall j :: 0 <= j < n ==> At(s, ps[j]) != ';') && (n < |ps| - 1 ==> At(s, ps[n]) == ';')
  }

  function Signed16(n: nat): int {
    if n % 0x1_0000 < 0x8000 then n % 0x1_0000 else n % 0x1_0000 - 0x1_0000
  }

  lemma ReportedCount(s: string, ps: seq<nat>, n: nat, o: Setting)
    requires AreCuts(s, ps, o) && 1 <= o.skip <= 2 && FirstEnd(s, ps, n)
    ensures ps[0] <= |s| && FirstSemi(s, ps[0], o) == ps[n] && (n < |ps| - 1 <==> ps[n] < |s|)
    ensures Int2(MarkersBefore(s, ps[0], o)) == Signed16(Marks(s, ps, n))
    ensures Int2(Markers(s, ps[0], o)) == Signed16(Marks(s, ps, |ps| - 1))
  {
    CountsByCuts(s, ps, 0, n, o);
    AllMarkersByCuts(s, ps, 0, o);
    Int2Is(Marks(s, ps, n));
    Int2Is(Marks(s, ps, |ps| - 1));
    if n < |ps| - 1 { BlockAt(s, ps, n, o); }
  }

  lemma OtherBehind(s: string, a: nat)
    ensures NotSpaceIn(s, a, |s|) <==> exists q :: a <= q < |s| && s[q] as int < 128 && !White(s[q])
  {
  }

  /** What SC_scanQueryAndCountParams reports, told from the cuts: with `first`, the markers up to the first semicolon
      and where it stands, otherwise all markers and -1, in either case as a 16-bit number; whether anything but white
      space and multibyte characters stands behind the first semicolon; and the marker of a return value. */
  lemma ReportInWords(s: string, ps: seq<nat>, n: nat, o: Setting, first: bool, numP: int, multi: bool, nextCmd: int,
                      proc: bool)
    requires AreCuts(s, ps, o) && ps[0] <= |s| && o.skip == 2 && FirstEnd(s, ps, n)
    requires Reports(s, ps[0], o, first, numP, multi, nextCmd, proc)
    ensures var m := if first then n else |ps| - 1;
            && numP == Signed16(Marks(s, ps, m))
            && (multi <==> exists q :: ps[n] + 1 <= q < |s| && s[q] as int < 128 && !White(s[q]))
            && nextCmd == (if first && n < |ps| - 1 then ps[n] as int - ps[0] as int else -1)
            && proc == SomeReturn(s, ps, 0, m, false, 0)
  {
    ReportedCount(s, ps, n, o);
    OtherBehind(s, ps[n] + 1);
    ReturnByCuts(s, ps, 0, if first then n else |ps| - 1, o, first, false, 0);
  }
}
