/** The rewriting and the counts of a statement, told from its cuts: the places where its blocks meet. */
module Cuts {
  import opened Basics
  import opened BigNum
  import opened ScanSpec
  import opened ScanCount
  import opened Blocks

  /** Every place in `ps` starts a block that reaches to the next; the last is the end. */
  ghost predicate AreCuts(s: string, ps: seq<nat>, o: Setting) {
    && ps != [] && ps[|ps| - 1] == |s|
    && forall k :: 0 <= k < |ps| - 1 ==> Reaches(s, ps, k, o)
  }

  ghost predicate Reaches(s: string, ps: seq<nat>, k: nat, o: Setting)
    requires k + 1 < |ps|
  {
    ps[k] < |s| && BlockTo(s, ps[k], ps[k + 1], o)
  }

  /** The scanner's block at the `k`-th cut ends at the next one. */
  lemma BlockAt(s: string, ps: seq<nat>, k: nat, o: Setting)
    requires AreCuts(s, ps, o) && k < |ps| - 1 && 1 <= o.skip <= 2
    ensures ps[k] < |s| && BlockEnd(s, ps[k], o) == ps[k + 1]
  {
    assert Reaches(s, ps, k, o);
    BlockEndIff(s, ps[k], ps[k + 1], o);
  }

  /** There is one way to cut from a given place: at the starts of the scanner's blocks. */
  lemma {:induction false} CutsAreOutside(s: string, ps: seq<nat>, k: nat, o: Setting)
    requires AreCuts(s, ps, o) && k < |ps| && 1 <= o.skip <= 2
    ensures ps[k] <= |s| && ps[k..] == Outside(s, ps[k], o) + [|s|]
    decreases |ps| - k
  {
    if k == |ps| - 1 {
      assert Outside(s, |s|, o) == [];
    } else {
      BlockAt(s, ps, k, o);
      CutsAreOutside(s, ps, k + 1, o);
      assert ps[k..] == [ps[k]] + ps[k + 1..];
    }
  }

  lemma {:induction false} OutsideIsCuts(s: string, i: nat, o: Setting)
    requires i <= |s| && 1 <= o.skip <= 2
    ensures AreCuts(s, Outside(s, i, o) + [|s|], o)
    decreases |s| - i
  {
    if i < |s| {
      var ps, rest := Outside(s, i, o) + [|s|], Outside(s, BlockEnd(s, i, o), o) + [|s|];
      OutsideIsCuts(s, BlockEnd(s, i, o), o);
      BlockEnds(s, i, o);
      assert ps == [i] + rest;
      forall k | 0 <= k < |ps| - 1 ensures Reaches(s, ps, k, o) {
        if k > 0 { assert Reaches(s, rest, k - 1, o); }
      }
    }
  }

  // ----- What is written for each block -----

  /** The markers among the first `k` blocks, behind the last semicolon among them. */
  function Since(s: string, ps: seq<nat>, k: nat): nat
    requires k <= |ps|
  {
    if k == 0 || At(s, ps[k - 1]) == ';' then 0
    else Since(s, ps, k - 1) + if At(s, ps[k - 1]) == '?' then 1 else 0
  }

  /** A carriage return in front of a line feed is dropped when line ends are converted, a marker becomes its number,
      everything else is copied. */
  function PieceAt(s: string, ps: seq<nat>, k: nat, o: Setting): string
    requires k + 1 < |ps|
  {
    var i, e := ps[k], ps[k + 1];
    if o.lf && Two(s, i, '\r', '\n') then ""
    else if At(s, i) == '?' then MarkerText(Since(s, ps, k) + 1)
    else if i <= e <= |s| then s[i..e] else ""
  }

  function PiecesFrom(s: string, ps: seq<nat>, k: nat, o: Setting): seq<string>
    requires k < |ps|
    decreases |ps| - k
  {
    if k == |ps| - 1 then [] else [PieceAt(s, ps, k, o)] + PiecesFrom(s, ps, k + 1, o)
  }

  lemma PieceIsWritten(s: string, ps: seq<nat>, k: nat, o: Setting)
    requires AreCuts(s, ps, o) && k < |ps| - 1 && 1 <= o.skip <= 2
    ensures ps[k] < |s| && Written(s, ps[k], Since(s, ps, k), o) == PieceAt(s, ps, k, o)
    ensures Numbered(s, ps[k], Since(s, ps, k)) == Since(s, ps, k + 1)
  {
    BlockAt(s, ps, k, o);
  }

  lemma {:induction false} RewriteFrom(s: string, ps: seq<nat>, k: nat, o: Setting)
    requires AreCuts(s, ps, o) && k < |ps| && 1 <= o.skip <= 2
    ensures ps[k] <= |s| && Rewrite(s, ps[k], Since(s, ps, k), o) == Concat(PiecesFrom(s, ps, k, o))
    decreases |ps| - k
  {
    if k < |ps| - 1 {
      BlockAt(s, ps, k, o);
      PieceIsWritten(s, ps, k, o);
      RewriteStep(s, ps[k], Since(s, ps, k), o);
      RewriteFrom(s, ps, k + 1, o);
      assert PiecesFrom(s, ps, k, o)[1..] == PiecesFrom(s, ps, k + 1, o);
    }
  }

  /** The statement that is written is put together from one piece for each block, in order. */
  lemma RewriteByCuts(s: string, ps: seq<nat>, o: Setting)
    requires AreCuts(s, ps, o) && ps[0] == 0 && 1 <= o.skip <= 2
    ensures Rewrite(s, 0, 0, o) == Concat(PiecesFrom(s, ps, 0, o))
  {
    RewriteFrom(s, ps, 0, o);
  }

  /** The number written for a marker: its 16-bit value in decimal, without superfluous zeros. */
  lemma MarkerTextIs(k: nat)
    ensures var v := if k % 0x1_0000 < 0x8000 then k % 0x1_0000 else k % 0x1_0000 - 0x1_0000;
            var m := if v >= 0 then v else -v;
            MarkerText(k) == (if v >= 0 then "$" else "$-") + Digits(m)
  {
    Int2Is(k);
  }

  lemma Int2Is(k: nat)
    ensures Int2(k) == if k % 0x1_0000 < 0x8000 then k % 0x1_0000 else k % 0x1_0000 - 0x1_0000
  {
    var q, m := k / 0x1_0000, k % 0x1_0000;
    assert k + 0x8000 == q * 0x1_0000 + (m + 0x8000);
  }

  lemma DigitsAre(m: nat)
    ensures AllDigits(Digits(m)) && Decimal(Digits(m)) == m && (Digits(m)[0] == '0' ==> Digits(m) == "0")
  {
    DigitsDenote(m);
    NoLeadingZero(m);
  }

  lemma {:induction false} NoLeadingZero(n: nat)
    ensures n > 0 ==> Digits(n)[0] != '0'
    ensures n == 0 ==> Digits(n) == "0"
  {
    if n >= 10 { NoLeadingZero(n / 10); }
  }

  // ----- What is counted -----

  /** The markers among the first `k` blocks. */
  function Marks(s: string, ps: seq<nat>, k: nat): nat
    requires k <= |ps|
  {
    if k == 0 then 0 else Marks(s, ps, k - 1) + if At(s, ps[k - 1]) == '?' then 1 else 0
  }

  /** From the `k`-th cut on, the first semicolon outside all blocks is the first cut that holds one, and the markers
      counted before it are the cuts that hold one. */
  lemma {:induction false} CountsByCuts(s: string, ps: seq<nat>, k: nat, n: nat, o: Setting)
    requires AreCuts(s, ps, o) && k <= n < |ps| && 1 <= o.skip <= 2
    requires (forall j :: k <= j < n ==> At(s, ps[j]) != ';') && (n < |ps| - 1 ==> At(s, ps[n]) == ';')
    ensures ps[k] <= |s| && FirstSemi(s, ps[k], o) == ps[n]
    ensures MarkersBefore(s, ps[k], o) == Marks(s, ps, n) - Marks(s, ps, k)
    decreases n - k
  {
    if k < n {
      BlockAt(s, ps, k, o);
      CountsByCuts(s, ps, k + 1, n, o);
    }
  }

  /** All markers from there on: the cuts that hold one. */
  lemma {:induction false} AllMarkersByCuts(s: string, ps: seq<nat>, k: nat, o: Setting)
    requires AreCuts(s, ps, o) && k < |ps| && 1 <= o.skip <= 2
    ensures ps[k] <= |s| && Markers(s, ps[k], o) == Marks(s, ps, |ps| - 1) - Marks(s, ps, k)
    decreases |ps| - k
  {
    if k == |ps| - 1 {
      assert Outside(s, |s|, o) == [];
    } else {
      BlockAt(s, ps, k, o);
      MarkersStep(s, ps[k], o);
      AllMarkersByCuts(s, ps, k + 1, o);
    }
  }

  // ----- A marker behind a comment -----

  /** Behind the line feed that ends a line comment a question mark is a marker again, written and counted. */
  lemma MarkerBehindComment(x: string, o: Setting)
    requires '\n' !in x && 1 <= o.skip <= 2
    ensures Rewrite("--" + x + "\n?", 0, 0, o) == "--" + x + "\n$1"
    ensures MarkersBefore("--" + x + "\n?", 0, o) == 1
  {
    var s, c := "--" + x + "\n?", |x| + 3;
    var ps := [0, c, c + 1];
    forall p | 2 <= p < c - 1 ensures !Closes(s, LineFeed, p) { assert s[p] == x[p - 2]; }
    assert BlockTo(s, 0, c, o) && BlockTo(s, c, c + 1, o);
    assert forall k :: 0 <= k < 2 ==> Reaches(s, ps, k, o);
    RewriteByCuts(s, ps, o);
    CountsByCuts(s, ps, 0, 2, o);
    TwoPieces(s, ps, o);
    assert s[0..c] == "--" + x + "\n";
    assert "--" + x + "\n" + "$1" == "--" + x + "\n$1";
  }

  lemma TwoPieces(s: string, ps: seq<nat>, o: Setting)
    requires |ps| == 3 && ps[0] == 0 < ps[1] <= |s| && ps[1] < |s| && s[ps[1]] == '?' && s[0] != '?' && s[0] != '\r'
    ensures Concat(PiecesFrom(s, ps, 0, o)) == s[0..ps[1]] + "$1"
  {
    var a, b := PieceAt(s, ps, 0, o), PieceAt(s, ps, 1, o);
    assert Since(s, ps, 1) == 0;
    assert Digits(1) == "1" && MarkerText(1) == "$" + Digits(1);
    assert a == s[0..ps[1]] && b == "$1";
    assert PiecesFrom(s, ps, 1, o) == [b] + [];
    assert PiecesFrom(s, ps, 0, o) == [a] + PiecesFrom(s, ps, 1, o);
    assert ([a] + ([b] + []))[1..] == [b] && [b][1..] == [];
    assert Concat([b]) == b + Concat([]);
  }
}
