/** When the commands of a statement are cut where they end: exactly when each of them, rewritten and taken alone
    with its semicolon, ends at that semicolon. */
module CommandAlone {
  import opened ScanSpec
  import opened ScanLocal
  import opened ScanCount
  import opened ScanSplit
  import opened CommandSplit

  // ----- The end of a command depends on its own text -----

  /** The texts agree from `i` up to and including the semicolon at `p`. */
  predicate SameThrough(s: string, t: string, d: int, i: nat, p: nat) {
    && i <= p < |s| && 0 <= i + d && p + d < |t| && s[p] == ';'
    && forall q :: i <= q <= p ==> s[q] == t[q + d]
  }

  lemma BlockThrough(s: string, t: string, d: int, i: nat, p: nat, o: Setting)
    requires SameThrough(s, t, d, i, p) && 1 <= o.skip <= 2 && SameBefore(s, i, t, i + d, o)
    requires BlockEnd(s, i, o) <= p
    ensures BlockEnd(t, i + d, o) == BlockEnd(s, i, o) + d
  {
    var e := BlockEnd(s, i, o);
    assert s[e] == t[e + d] && s[i + 1] == t[i + 1 + d] && t[p + d] == ';';
    if StartsIdent(s[i]) {
      IdentStops(s, i + 1);
    } else if s[i] == '$' && TagLength(s, i) == 0 {
      NoTagCopied(s, t, d, i + 1, p);
    }
    BlockLocal(s, t, d, i, o);
  }

  lemma {:induction false} EndsThrough(s: string, t: string, d: int, i: nat, p: nat, o: Setting)
    requires SameThrough(s, t, d, i, p) && 1 <= o.skip <= 2 && SameBefore(s, i, t, i + d, o)
    requires FirstSemi(s, i, o) == p
    ensures FirstSemi(t, i + d, o) == p + d
    decreases p - i
  {
    assert s[i] == t[i + d];
    if i < p {
      var e := BlockEnd(s, i, o);
      BlockThrough(s, t, d, i, p, o);
      assert s[e - 1] == t[e - 1 + d] && s[e] == t[e + d];
      EndsThrough(s, t, d, e, p, o);
    }
  }

  lemma SameBack(s: string, t: string, d: int, i: nat, p: nat, o: Setting)
    requires SameThrough(s, t, d, i, p) && SameBefore(s, i, t, i + d, o)
    ensures SameThrough(t, s, -d, i + d, p + d) && SameBefore(t, i + d, s, i, o)
  {
    forall q | i + d <= q <= p + d ensures t[q] == s[q - d] { assert s[q - d] == t[q - d + d]; }
    assert s[i] == t[i + d] && s[p] == t[p + d];
  }

  lemma EndsThere(s: string, t: string, d: int, i: nat, p: nat, j: nat, r: nat, o: Setting)
    requires SameThrough(s, t, d, i, p) && 1 <= o.skip <= 2 && j == i + d && r == p + d && SameBefore(s, i, t, j, o)
    ensures FirstSemi(s, i, o) == p ==> FirstSemi(t, j, o) == r
  {
    if FirstSemi(s, i, o) == p { EndsThrough(s, t, d, i, p, o); }
  }

  /** Whether a command ends at a semicolon is seen from its text up to that semicolon. */
  lemma EndsAlike(s: string, t: string, d: int, i: nat, p: nat, j: nat, r: nat, o: Setting)
    requires SameThrough(s, t, d, i, p) && 1 <= o.skip <= 2 && j == i + d && r == p + d && SameBefore(s, i, t, j, o)
    ensures FirstSemi(s, i, o) == p <==> FirstSemi(t, j, o) == r
  {
    EndsThere(s, t, d, i, p, j, r, o);
    SameBack(s, t, d, i, p, o);
    EndsThere(t, s, -d, j, r, i, p, o);
  }

  /** `s` is the end of `t`, from `d` on. */
  predicate Tail(s: string, t: string, d: nat) {
    |t| == |s| + d && forall q :: 0 <= q < |s| ==> s[q] == t[q + d]
  }

  lemma TailBlock(s: string, t: string, d: nat, i: nat, o: Setting)
    requires Tail(s, t, d) && i < |s| && 1 <= o.skip <= 2 && SameBefore(s, i, t, i + d, o)
    ensures BlockEnd(t, i + d, o) == BlockEnd(s, i, o) + d
    ensures SameBefore(s, BlockEnd(s, i, o), t, BlockEnd(s, i, o) + d, o)
  {
    var e := BlockEnd(s, i, o);
    assert s[e - 1] == t[e - 1 + d];
    if StartsIdent(s[i]) {
      IdentStops(s, i + 1);
    } else if s[i] == '$' && TagLength(s, i) == 0 {
      NoTagCopied(s, t, d, i + 1, |s|);
    }
    BlockLocal(s, t, d, i, o);
  }

  /** A text scanned from the start and the same text scanned as the end of another. */
  lemma {:induction false} TailEnds(s: string, t: string, d: nat, i: nat, o: Setting)
    requires Tail(s, t, d) && i <= |s| && 1 <= o.skip <= 2 && SameBefore(s, i, t, i + d, o)
    ensures FirstSemi(t, i + d, o) == FirstSemi(s, i, o) + d
    decreases |s| - i
  {
    if i < |s| {
      assert s[i] == t[i + d];
      if s[i] != ';' {
        var e := BlockEnd(s, i, o);
        TailBlock(s, t, d, i, o);
        TailEnds(s, t, d, e, o);
        assert FirstSemi(t, i + d, o) == FirstSemi(t, e + d, o);
      }
    }
  }

  // ----- The condition -----

  /** The command `c`, taken alone with its semicolon, ends at that semicolon; the last one has none. */
  predicate Alone(c: string, last: bool, o: Setting)
    requires 1 <= o.skip <= 2
  {
    FirstSemi(if last then c else c + ";", 0, o) == |c|
  }

  /** So do the first `n` commands; a semicolon stands before all but the first. */
  predicate EachAlone(cs: seq<string>, n: nat, o: Setting)
    requires n <= |cs| && 1 <= o.skip <= 2
  {
    n == 0 || (Alone(cs[0], |cs| == 1, o) && EachAlone(cs[1..], n - 1, o.(before := ';')))
  }

  /** At `j` stands the text `c`, and behind it the end or a semicolon. */
  predicate Here(t: string, j: nat, c: string, last: bool)
    requires j <= |t|
  {
    if last then t[j..] == c else j + |c| < |t| && t[j..j + |c|] == c && t[j + |c|] == ';'
  }

  /** Where the text behind it and its semicolon begins. */
  function Behind(j: nat, c: string): nat {
    j + |c| + 1
  }

  /** From `j` on, `t` starts with the first `n` commands, each with its semicolon. */
  predicate Starts(t: string, j: nat, cs: seq<string>, n: nat)
    requires n <= |cs| && j <= |t|
    decreases n
  {
    n == 0 || (Here(t, j, cs[0], |cs| == 1) && (n > 1 ==> Starts(t, Behind(j, cs[0]), cs[1..], n - 1)))
  }

  /** The commands joined by semicolons. */
  function Join(cs: seq<string>): string {
    if cs == [] then "" else if |cs| == 1 then cs[0] else cs[0] + ";" + Join(cs[1..])
  }

  lemma JoinCons(cs: seq<string>)
    requires |cs| > 1
    ensures Join(cs) == cs[0] + (";" + Join(cs[1..]))
  {
  }

  lemma JoinHead(c: string, cs: seq<string>)
    requires cs != []
    ensures Join([c] + cs) == c + (";" + Join(cs))
  {
    assert ([c] + cs)[1..] == cs;
    JoinCons([c] + cs);
  }

  // ----- One command -----

  /** The character in front of `j`; the setting `own` of a command taken alone puts it in front of the command. */
  predicate OwnSetting(t: string, j: nat, o: Setting, own: Setting) {
    && 1 <= o.skip <= 2 && j <= |t| && own == o.(before := own.before)
    && own.before == if j == 0 then o.before else t[j - 1]
  }

  lemma {:induction false} BeforeUnused(t: string, j: nat, o: Setting, c: char)
    requires 0 < j <= |t| && 1 <= o.skip <= 2
    ensures FirstSemi(t, j, o) == FirstSemi(t, j, o.(before := c))
    decreases |t| - j
  {
    if j < |t| && t[j] != ';' {
      assert BlockEnd(t, j, o) == BlockEnd(t, j, o.(before := c));
      BeforeUnused(t, BlockEnd(t, j, o), o, c);
    }
  }

  lemma OwnScan(t: string, j: nat, o: Setting, own: Setting)
    requires OwnSetting(t, j, o, own)
    ensures FirstSemi(t, j, o) == FirstSemi(t, j, own)
  {
    if j > 0 { BeforeUnused(t, j, o, own.before); }
  }

  lemma AloneIff(c: string, last: bool, t: string, j: nat, o: Setting, own: Setting)
    requires OwnSetting(t, j, o, own) && Here(t, j, c, last)
    ensures FirstSemi(t, j, o) == j + |c| <==> Alone(c, last, own)
  {
    OwnScan(t, j, o, own);
    if last { TailEnds(c, t, j, 0, own); } else { AloneWithSemi(c, t, j, own); }
  }

  lemma AloneWithSemi(c: string, t: string, j: nat, own: Setting)
    requires 1 <= own.skip <= 2 && j <= |t| && Here(t, j, c, false) && (j > 0 ==> own.before == t[j - 1])
    ensures FirstSemi(c + ";", 0, own) == |c| <==> FirstSemi(t, j, own) == j + |c|
  {
    var u := c + ";";
    assert forall q :: 0 <= q < |c| ==> u[q] == t[j..j + |c|][q] == t[q + j];
    EndsAlike(u, t, j, 0, |c|, j, j + |c|, own);
  }

  // ----- Rewriting keeps the semicolons -----

  /** The semicolons of `s` from `i` on. */
  function Semis(s: string, i: nat): nat
    requires i <= |s|
    decreases |s| - i
  {
    if i == |s| then 0 else (if s[i] == ';' then 1 else 0) + Semis(s, i + 1)
  }

  /** The same text has the same semicolons. */
  lemma {:induction false} SemisCopied(s: string, i: nat, t: string, j: nat, n: nat)
    requires i + n <= |s| && j + n <= |t| && s[i..i + n] == t[j..j + n]
    ensures Semis(s, i) - Semis(s, i + n) == Semis(t, j) - Semis(t, j + n)
    decreases n
  {
    if n > 0 {
      assert s[i] == s[i..i + n][0] == t[j..j + n][0] == t[j];
      assert s[i + 1..i + n] == s[i..i + n][1..] && t[j + 1..j + n] == t[j..j + n][1..];
      SemisCopied(s, i + 1, t, j + 1, n - 1);
    }
  }

  lemma SemisConcat(s: string, t: string)
    ensures Semis(s + t, 0) == Semis(s, 0) + Semis(t, 0)
  {
    assert (s + t)[0..|s|] == s[0..|s|] && (s + t)[|s|..|s| + |t|] == t[0..|t|];
    SemisCopied(s + t, 0, s, 0, |s|);
    SemisCopied(s + t, |s|, t, 0, |t|);
  }

  lemma {:induction false} NoSemis(s: string, i: nat)
    requires i <= |s| && forall q :: i <= q < |s| ==> s[q] != ';'
    ensures Semis(s, i) == 0
    decreases |s| - i
  {
    if i < |s| { NoSemis(s, i + 1); }
  }

  lemma WrittenSemis(s: string, i: nat, k: nat, o: Setting)
    requires i < |s| && 1 <= o.skip <= 2
    ensures Semis(Written(s, i, k, o), 0) == Semis(s, i) - Semis(s, BlockEnd(s, i, o))
  {
    if s[i] == '?' {
      MarkerSemis(k + 1);
    } else if !Dropped(s, i, o) {
      var w, e := Written(s, i, k, o), BlockEnd(s, i, o);
      assert w[0..|w|] == s[i..e];
      SemisCopied(w, 0, s, i, e - i);
    }
  }

  lemma MarkerSemis(k: nat)
    ensures Semis(MarkerText(k), 0) == 0
  {
    var m, n := MarkerShape(k);
    NoSemis(MarkerText(k), 0);
  }

  lemma {:induction false} RewriteSemis(s: string, i: nat, k: nat, o: Setting)
    requires i <= |s| && 1 <= o.skip <= 2
    ensures Semis(Rewrite(s, i, k, o), 0) == Semis(s, i)
    decreases |s| - i
  {
    if i < |s| {
      var e, k1 := BlockEnd(s, i, o), Numbered(s, i, k);
      RewriteStep(s, i, k, o);
      SemisConcat(Written(s, i, k, o), Rewrite(s, e, k1, o));
      WrittenSemis(s, i, k, o);
      RewriteSemis(s, e, k1, o);
    }
  }

  /** How many semicolons the joined commands have. */
  function Needed(cs: seq<string>): nat {
    if cs == [] then 0 else Semis(cs[0], 0) + if |cs| == 1 then 0 else 1 + Needed(cs[1..])
  }

  lemma {:induction false} JoinSemis(cs: seq<string>)
    ensures Semis(Join(cs), 0) == Needed(cs)
  {
    if |cs| > 1 {
      JoinSemis(cs[1..]);
      SemisConcat(cs[0] + ";", Join(cs[1..]));
      SemisConcat(cs[0], ";");
      assert Semis(";", 0) == 1;
    }
  }

  /** From `j` on, `t` has as many semicolons as the commands. */
  predicate Enough(t: string, j: nat, cs: seq<string>) {
    j <= |t| && Semis(t, j) == Needed(cs)
  }

  /** In such a text a piece that is the first command has its semicolon behind it, and as many semicolons follow as
      the others have. */
  lemma PieceIsCommand(cs: seq<string>, t: string, j: nat, o: Setting, b: nat)
    requires cs != [] && Enough(t, j, cs) && 1 <= o.skip <= 2 && b == FirstSemi(t, j, o) && t[j..b] == cs[0]
    ensures Here(t, j, cs[0], |cs| == 1)
    ensures |cs| > 1 ==> b < |t| && t[b] == ';' && b + 1 == Behind(j, cs[0]) && Enough(t, b + 1, cs[1..])
  {
    var c := cs[0];
    assert Semis(t, j) == Semis(c, 0) + Semis(t, b) by {
      assert c[0..|c|] == t[j..b];
      SemisCopied(t, j, c, 0, |c|);
    }
    SemiStands(t, j, o);
  }

  /** The next piece is the next command exactly when the command stands there and alone ends there. */
  lemma HeadIff(cs: seq<string>, t: string, j: nat, o: Setting, own: Setting, b: nat)
    requires cs != [] && OwnSetting(t, j, o, own) && b == FirstSemi(t, j, o) && Enough(t, j, cs)
    ensures t[j..b] == cs[0] <==> Here(t, j, cs[0], |cs| == 1) && Alone(cs[0], |cs| == 1, own)
  {
    if t[j..b] == cs[0] { PieceIsCommand(cs, t, j, o, b); }
    if Here(t, j, cs[0], |cs| == 1) { AloneIff(cs[0], |cs| == 1, t, j, o, own); }
  }

  lemma ConsIff<T>(x: T, xs: seq<T>, y: T, ys: seq<T>)
    ensures [x] + xs == [y] + ys <==> x == y && xs == ys
  {
    assert ([x] + xs)[0] == x && ([y] + ys)[0] == y;
    assert ([x] + xs)[1..] == xs && ([y] + ys)[1..] == ys;
  }

  // ----- All commands -----

  /** The first `n` pieces the loop takes from `t`. */
  function Cut(t: string, j: nat, n: nat, o: Setting): (ps: seq<string>)
    requires j <= |t| && 1 <= o.skip <= 2
    ensures |ps| == n
    decreases n
  {
    if n == 0 then []
    else var b := FirstSemi(t, j, o); [t[j..b]] + Cut(t, Next(t, j, b), n - 1, o)
  }

  lemma CutHead(cs: seq<string>, t: string, j: nat, n: nat, o: Setting, b: nat, j1: nat)
    requires 0 < n <= |cs| && j <= |t| && 1 <= o.skip <= 2 && b == FirstSemi(t, j, o)
    requires j1 == Next(t, j, b)
    ensures Cut(t, j, n, o) == cs[..n] <==> t[j..b] == cs[0] && Cut(t, j1, n - 1, o) == cs[1..][..n - 1]
  {
    assert cs[..n] == [cs[0]] + cs[1..][..n - 1];
    ConsIff(t[j..b], Cut(t, j1, n - 1, o), cs[0], cs[1..][..n - 1]);
  }

  predicate CutExact(cs: seq<string>, t: string, j: nat, n: nat, o: Setting, own: Setting)
    requires n <= |cs| && j <= |t| && 1 <= o.skip <= 2 && 1 <= own.skip <= 2
  {
    Cut(t, j, n, o) == cs[..n] <==> Starts(t, j, cs, n) && EachAlone(cs, n, own)
  }

  lemma ConditionStep(cs: seq<string>, t: string, j: nat, n: nat, own: Setting, j1: nat)
    requires 0 < n <= |cs| && j <= |t| && 1 <= own.skip <= 2 && Here(t, j, cs[0], |cs| == 1)
    requires Alone(cs[0], |cs| == 1, own) && (n > 1 ==> j1 == Behind(j, cs[0]))
    ensures Starts(t, j, cs, n) && EachAlone(cs, n, own) <==>
            (n > 1 ==> Starts(t, j1, cs[1..], n - 1) && EachAlone(cs[1..], n - 1, own.(before := ';')))
  {
  }

  lemma CutExactStep(cs: seq<string>, t: string, j: nat, n: nat, o: Setting, own: Setting, b: nat)
    requires 0 < n <= |cs| && j <= |t| && 1 <= o.skip <= 2 && 1 <= own.skip <= 2 && b == FirstSemi(t, j, o)
    requires t[j..b] == cs[0] <==> Here(t, j, cs[0], |cs| == 1) && Alone(cs[0], |cs| == 1, own)
    requires n > 1 && t[j..b] == cs[0] ==> b < |t| && CutExact(cs[1..], t, b + 1, n - 1, o, own.(before := ';'))
    ensures CutExact(cs, t, j, n, o, own)
  {
    var j1 := Next(t, j, b);
    CutHead(cs, t, j, n, o, b, j1);
    if t[j..b] == cs[0] { CutBehind(cs, t, j, n, o, own, b, j1); }
  }

  lemma CutBehind(cs: seq<string>, t: string, j: nat, n: nat, o: Setting, own: Setting, b: nat, j1: nat)
    requires 0 < n <= |cs| && j <= b <= |t| && 1 <= o.skip <= 2 && 1 <= own.skip <= 2 && b == j + |cs[0]|
    requires Here(t, j, cs[0], |cs| == 1) && Alone(cs[0], |cs| == 1, own)
    requires j1 <= |t| && (n > 1 ==> j1 == b + 1 && CutExact(cs[1..], t, j1, n - 1, o, own.(before := ';')))
    ensures Cut(t, j1, n - 1, o) == cs[1..][..n - 1] <==> Starts(t, j, cs, n) && EachAlone(cs, n, own)
  {
    ConditionStep(cs, t, j, n, own, j1);
  }

  lemma {:induction false} CutIff(cs: seq<string>, t: string, j: nat, n: nat, o: Setting, own: Setting)
    requires 0 < n <= |cs| && OwnSetting(t, j, o, own) && Enough(t, j, cs)
    ensures CutExact(cs, t, j, n, o, own) == true
    decreases n
  {
    var b := FirstSemi(t, j, o);
    HeadIff(cs, t, j, o, own, b);
    if n > 1 && t[j..b] == cs[0] {
      PieceIsCommand(cs, t, j, o, b);
      CutIff(cs[1..], t, b + 1, n - 1, o, own.(before := ';'));
    }
    CutExactStep(cs, t, j, n, o, own, b);
  }

  /** The texts the loop takes are the commands. */
  predicate SplitByText(s: string, i: nat, t: string, j: nat, o: Setting)
    requires i <= |s| && j <= |t| && 1 <= o.skip <= 2
  {
    var cs, ps := Commands(s, i, o), Prepared(s, i, o);
    && 0 < |ps| <= |cs|
    && (Split(s, i, t, j, o) == ps <==> Cut(t, j, |ps|, o) == cs[..|ps|])
  }

  lemma SplitHead(s: string, i: nat, t: string, j: nat, o: Setting, a: nat, b: nat, j1: nat)
    requires i <= |s| && j <= |t| && 1 <= o.skip <= 2 && a == FirstSemi(s, i, o) && b == FirstSemi(t, j, o)
    requires j1 == Next(t, j, b)
    ensures Split(s, i, t, j, o) == Prepared(s, i, o) <==>
            t[j..b] == Command(s, i, 0, o) && (More(s, a) ==> Split(s, a + 1, t, j1, o) == Prepared(s, a + 1, o))
  {
    var m, c := Int2(MarkersBefore(s, i, o)), Command(s, i, 0, o);
    SplitStep(s, i, t, j, o, a, b);
    PreparedStep(s, i, o, a);
    if More(s, a) {
      ConsIff((t[j..b], m), Split(s, a + 1, t, j1, o), (c, m), Prepared(s, a + 1, o));
    } else {
      ConsIff((t[j..b], m), [], (c, m), []);
    }
  }

  lemma CommandsHead(s: string, i: nat, o: Setting, a: nat)
    requires i <= |s| && 1 <= o.skip <= 2 && a == FirstSemi(s, i, o)
    ensures var cs := Commands(s, i, o);
            |cs| > 0 && cs[0] == Command(s, i, 0, o) && cs[1..] == if a < |s| then Commands(s, a + 1, o) else []
    ensures |Prepared(s, i, o)| == 1 + if More(s, a) then |Prepared(s, a + 1, o)| else 0
  {
    CommandsStep(s, i, o, a);
    PreparedStep(s, i, o, a);
  }

  lemma SplitByTextStep(s: string, i: nat, t: string, j: nat, o: Setting, a: nat, b: nat, j1: nat)
    requires i <= |s| && j <= |t| && 1 <= o.skip <= 2 && a == FirstSemi(s, i, o) && b == FirstSemi(t, j, o)
    requires j1 == Next(t, j, b)
    requires More(s, a) ==> SplitByText(s, a + 1, t, j1, o)
    ensures SplitByText(s, i, t, j, o)
  {
    SplitHead(s, i, t, j, o, a, b, j1);
    CommandsHead(s, i, o, a);
    CutHead(Commands(s, i, o), t, j, |Prepared(s, i, o)|, o, b, j1);
  }

  lemma {:induction false} SplitIsCut(s: string, i: nat, t: string, j: nat, o: Setting)
    requires i <= |s| && j <= |t| && 1 <= o.skip <= 2
    ensures SplitByText(s, i, t, j, o) == true
    decreases |s| - i
  {
    var a, b := FirstSemi(s, i, o), FirstSemi(t, j, o);
    var j1 := Next(t, j, b);
    if More(s, a) { SplitIsCut(s, a + 1, t, j1, o); }
    SplitByTextStep(s, i, t, j, o, a, b, j1);
  }

  /** The commands joined by semicolons are the rewritten text. */
  predicate Joined(s: string, i: nat, o: Setting)
    requires i <= |s| && 1 <= o.skip <= 2
  {
    Commands(s, i, o) != [] && Join(Commands(s, i, o)) == Rewrite(s, i, 0, o)
  }

  lemma JoinedStep(s: string, i: nat, o: Setting, a: nat)
    requires i <= |s| && 1 <= o.skip <= 2 && a == FirstSemi(s, i, o)
    requires a < |s| ==> Joined(s, a + 1, o) == true
    ensures Joined(s, i, o) == true
  {
    var c, n := Command(s, i, 0, o), MarkersBefore(s, i, o);
    SemiStands(s, i, o);
    RewriteSplits(s, i, 0, o, a, n);
    CommandsStep(s, i, o, a);
    if a < |s| {
      JoinHead(c, Commands(s, a + 1, o));
      RewriteSemi(s, a, n, o);
    }
  }

  lemma {:induction false} JoinCommands(s: string, i: nat, o: Setting)
    requires i <= |s| && 1 <= o.skip <= 2
    ensures Joined(s, i, o) == true
    decreases |s| - i
  {
    var a := FirstSemi(s, i, o);
    if a < |s| { JoinCommands(s, a + 1, o); }
    JoinedStep(s, i, o, a);
  }

  lemma RewriteSemi(s: string, a: nat, n: nat, o: Setting)
    requires a < |s| && 1 <= o.skip <= 2 && s[a] == ';'
    ensures Rewrite(s, a, n, o) == ";" + Rewrite(s, a + 1, 0, o)
  {
  }

  /** The rewriter writes as many semicolons as the commands in the counter's view have. */
  lemma RewriterKeepsSemis(s: string, o: Setting)
    ensures Enough(Rewrite(s, 0, 0, o.(skip := 1)), 0, Commands(s, 0, o.(skip := 2)))
  {
    RewriteSemis(s, 0, 0, o.(skip := 1));
    RewriteSemis(s, 0, 0, o.(skip := 2));
    JoinCommands(s, 0, o.(skip := 2));
    JoinSemis(Commands(s, 0, o.(skip := 2)));
  }

  /** The loop takes exactly the commands of the original, each with its rewritten text and the number of its own
      parameters, if and only if the rewriter wrote these commands where the counter looks for them, and each of them,
      taken alone with its semicolon, ends at that semicolon. */
  lemma CommandsArePreparedIff(s: string, o: Setting)
    ensures var t, o2 := Rewrite(s, 0, 0, o.(skip := 1)), o.(skip := 2);
            var cs, n := Commands(s, 0, o2), |Prepared(s, 0, o2)|;
            && 0 < n <= |cs|
            && (Split(s, 0, t, 0, o2) == Prepared(s, 0, o2) <==> Starts(t, 0, cs, n) && EachAlone(cs, n, o2))
  {
    var t, o2 := Rewrite(s, 0, 0, o.(skip := 1)), o.(skip := 2);
    SplitIsCut(s, 0, t, 0, o2);
    RewriterKeepsSemis(s, o);
    CutIff(Commands(s, 0, o2), t, 0, |Prepared(s, 0, o2)|, o2, o2);
  }

  // ----- When no comment overlaps its own opener -----

  lemma JoinHere(t: string, j: nat, cs: seq<string>)
    requires cs != [] && j <= |t| && t[j..] == Join(cs)
    ensures Here(t, j, cs[0], |cs| == 1)
    ensures |cs| > 1 ==> t[Behind(j, cs[0])..] == Join(cs[1..])
  {
    if |cs| > 1 {
      var c, rest := cs[0], Join(cs[1..]);
      JoinCons(cs);
      Front(t, j, c, ";" + rest);
      Front(t, j + |c|, ";", rest);
      assert t[j + |c|] == t[j + |c|..][0];
    }
  }

  lemma {:induction false} JoinStarts(t: string, j: nat, cs: seq<string>, n: nat)
    requires 0 < n <= |cs| && j <= |t| && t[j..] == Join(cs)
    ensures Starts(t, j, cs, n)
    decreases n
  {
    JoinHere(t, j, cs);
    if n > 1 { JoinStarts(t, Behind(j, cs[0]), cs[1..], n - 1); }
  }

  /** Then only the commands taken alone matter. */
  lemma CommandsArePrepared(s: string, o: Setting)
    requires NoOverlap(s, Outside(s, 0, o.(skip := 1)))
    ensures var t, o2 := Rewrite(s, 0, 0, o.(skip := 1)), o.(skip := 2);
            var cs, n := Commands(s, 0, o2), |Prepared(s, 0, o2)|;
            && 0 < n <= |cs|
            && (Split(s, 0, t, 0, o2) == Prepared(s, 0, o2) <==> EachAlone(cs, n, o2))
  {
    var t, o2 := Rewrite(s, 0, 0, o.(skip := 1)), o.(skip := 2);
    CommandsArePreparedIff(s, o);
    SameRewriting(s, 0, 0, o.(skip := 1));
    JoinCommands(s, 0, o2);
    assert t[0..] == t;
    JoinStarts(t, 0, Commands(s, 0, o2), |Prepared(s, 0, o2)|);
  }

  // ----- All pieces -----

  predicate PiecesJoined(t: string, j: nat, o: Setting)
    requires j <= |t| && 1 <= o.skip <= 2
  {
    Pieces(t, j, o) != [] && Join(Pieces(t, j, o)) == t[j..]
  }

  lemma CutAt(t: string, j: nat, b: nat)
    requires j <= b < |t| && t[b] == ';'
    ensures t[j..] == t[j..b] + (";" + t[b + 1..])
  {
  }

  lemma PiecesJoinedStep(t: string, j: nat, o: Setting, b: nat)
    requires j <= |t| && 1 <= o.skip <= 2 && b == FirstSemi(t, j, o)
    requires b < |t| ==> PiecesJoined(t, b + 1, o) == true
    ensures PiecesJoined(t, j, o) == true
  {
    PiecesStep(t, j, o, b);
    SemiStands(t, j, o);
    if b < |t| {
      JoinHead(t[j..b], Pieces(t, b + 1, o));
      CutAt(t, j, b);
    }
  }

  lemma {:induction false} PiecesJoin(t: string, j: nat, o: Setting)
    requires j <= |t| && 1 <= o.skip <= 2
    ensures PiecesJoined(t, j, o) == true
    decreases |t| - j
  {
    var b := FirstSemi(t, j, o);
    if b < |t| { PiecesJoin(t, b + 1, o); }
    PiecesJoinedStep(t, j, o, b);
  }

  predicate PiecesExact(cs: seq<string>, t: string, j: nat, o: Setting, own: Setting)
    requires j <= |t| && 1 <= o.skip <= 2 && 1 <= own.skip <= 2
  {
    Pieces(t, j, o) == cs <==> EachAlone(cs, |cs|, own)
  }

  lemma PiecesCons(t: string, j: nat, o: Setting, b: nat, c: string, rest: seq<string>)
    requires j <= |t| && 1 <= o.skip <= 2 && b == FirstSemi(t, j, o)
    ensures Pieces(t, j, o) == [c] + rest <==> t[j..b] == c && (if b < |t| then Pieces(t, b + 1, o) else []) == rest
  {
    var tail := if b < |t| then Pieces(t, b + 1, o) else [];
    PiecesStep(t, j, o, b);
    assert Pieces(t, j, o) == [t[j..b]] + tail;
    ConsIff(t[j..b], tail, c, rest);
  }

  /** Where the command stands, the piece is the command exactly when it has its length. */
  lemma HereLength(t: string, j: nat, c: string, last: bool, b: nat)
    requires j <= b <= |t| && Here(t, j, c, last)
    ensures t[j..b] == c <==> b == j + |c|
    ensures b == j + |c| ==> (last <==> b == |t|) && (!last ==> b + 1 == Behind(j, c))
  {
  }

  lemma PiecesHead(cs: seq<string>, t: string, j: nat, o: Setting, b: nat)
    requires cs != [] && j <= |t| && 1 <= o.skip <= 2 && b == FirstSemi(t, j, o) && Here(t, j, cs[0], |cs| == 1)
    ensures Pieces(t, j, o) == cs <==>
            b == j + |cs[0]| && (|cs| > 1 ==> Pieces(t, Behind(j, cs[0]), o) == cs[1..])
  {
    assert cs == [cs[0]] + cs[1..];
    PiecesCons(t, j, o, b, cs[0], cs[1..]);
    HereLength(t, j, cs[0], |cs| == 1, b);
  }

  lemma PiecesExactStep(cs: seq<string>, t: string, j: nat, o: Setting, own: Setting, b: nat)
    requires cs != [] && OwnSetting(t, j, o, own) && Here(t, j, cs[0], |cs| == 1) && b == FirstSemi(t, j, o)
    requires |cs| > 1 ==> PiecesExact(cs[1..], t, Behind(j, cs[0]), o, own.(before := ';'))
    ensures PiecesExact(cs, t, j, o, own)
  {
    AloneIff(cs[0], |cs| == 1, t, j, o, own);
    PiecesHead(cs, t, j, o, b);
    AloneStep(cs, own);
  }

  lemma {:induction false} PiecesIff(cs: seq<string>, t: string, j: nat, o: Setting, own: Setting)
    requires cs != [] && OwnSetting(t, j, o, own) && t[j..] == Join(cs)
    ensures PiecesExact(cs, t, j, o, own) == true
    decreases |cs|
  {
    JoinHere(t, j, cs);
    if |cs| > 1 { PiecesIff(cs[1..], t, Behind(j, cs[0]), o, own.(before := ';')); }
    PiecesExactStep(cs, t, j, o, own, FirstSemi(t, j, o));
  }

  lemma AloneStep(cs: seq<string>, own: Setting)
    requires cs != [] && 1 <= own.skip <= 2
    ensures EachAlone(cs, |cs|, own) <==>
            Alone(cs[0], |cs| == 1, own) && (|cs| > 1 ==> EachAlone(cs[1..], |cs[1..]|, own.(before := ';')))
  {
  }

  /** Of the pieces between semicolons, blank ones included: they are the commands if and only if both views of the
      blocks give the same rewriting and each command alone ends where it should. */
  lemma PiecesAreCommandsIff(s: string, o: Setting)
    ensures var t, o2 := Rewrite(s, 0, 0, o.(skip := 1)), o.(skip := 2);
            var cs := Commands(s, 0, o2);
            Pieces(t, 0, o2) == cs <==> t == Rewrite(s, 0, 0, o2) && EachAlone(cs, |cs|, o2)
  {
    var t, o2 := Rewrite(s, 0, 0, o.(skip := 1)), o.(skip := 2);
    assert t[0..] == t;
    JoinCommands(s, 0, o2);
    CommandsHead(s, 0, o2, FirstSemi(s, 0, o2));
    PiecesJoin(t, 0, o2);
    if t == Rewrite(s, 0, 0, o2) { PiecesIff(Commands(s, 0, o2), t, 0, o2, o2); }
  }

  // ----- Markers that stand clear -----

  lemma {:induction false} FewerAlone(cs: seq<string>, n: nat, m: nat, o: Setting)
    requires n <= m <= |cs| && 1 <= o.skip <= 2 && EachAlone(cs, m, o)
    ensures EachAlone(cs, n, o)
    decreases n
  {
    if n > 0 { FewerAlone(cs[1..], n - 1, m - 1, o.(before := ';')); }
  }

  /** A simple sufficient condition: no marker touches an identifier, a dollar sign or a marker. */
  lemma ApartSuffices(s: string, n: nat, o: Setting)
    requires 1 <= o.skip <= 2 && Apart(s, 0, o) && n <= |Commands(s, 0, o)|
    ensures EachAlone(Commands(s, 0, o), n, o)
  {
    var t, cs := Rewrite(s, 0, 0, o), Commands(s, 0, o);
    assert t[0..] == t;
    EverywhereCutAlike(s, 0, t, 0, o);
    JoinCommands(s, 0, o);
    CommandsHead(s, 0, o, FirstSemi(s, 0, o));
    PiecesIff(cs, t, 0, o, o);
    FewerAlone(cs, n, |cs|, o);
  }
}
