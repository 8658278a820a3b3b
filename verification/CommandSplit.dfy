/** The end of prepareParametersNoDesc: the commands of a statement, each with its rewritten text and the
    number of its parameters. The statement is rewritten by one scanner and cut by the other. */
module CommandSplit {
  import opened ScanSpec
  import opened ScanSplit
  import opened Counter

  /** The last character below `n` that is neither a blank nor part of a multibyte character, or -1. */
  function LastWord(s: string, n: nat): (p: int)
    requires n <= |s|
    ensures -1 <= p < n
  {
    if n == 0 then -1 else if NotSpace(s[n - 1]) then n - 1 else LastWord(s, n - 1)
  }

  lemma {:induction false} LastWordIff(s: string, n: nat, a: nat)
    requires n <= |s|
    ensures LastWord(s, n) > a <==> NotSpaceIn(s, a + 1, n)
  {
    if n > 0 && !NotSpace(s[n - 1]) { LastWordIff(s, n - 1, a); }
  }

  /** Is there another command behind the semicolon at `a`? */
  predicate More(s: string, a: nat) {
    LastWord(s, |s|) > a
  }

  /** Where the loop goes on in a text whose next semicolon stands at `b`. */
  function Next(t: string, j: nat, b: nat): nat {
    if b < |t| then b + 1 else j
  }

  /** Another command follows exactly when some ASCII character that is no white space does. */
  lemma MoreIff(s: string, a: nat)
    ensures More(s, a) <==> exists q :: a < q < |s| && s[q] as int < 128 && !White(s[q])
  {
    LastWordIff(s, |s|, a);
  }

  /** Blank, tab, line feed, vertical tab, form feed, carriage return. */
  predicate White(c: char) {
    c == ' ' || c == '\t' || c == '\n' || c == '\U{0B}' || c == '\U{0C}' || c == '\r'
  }

  /** What the loop takes, standing at `i` in the original and at `j` in the rewritten text. Where the rewritten
      text has no further semicolon, the position in it stays. */
  function Split(s: string, i: nat, t: string, j: nat, o: Setting): seq<(string, int)>
    requires i <= |s| && j <= |t| && 1 <= o.skip <= 2
    decreases |s| - i
  {
    var a, b := FirstSemi(s, i, o), FirstSemi(t, j, o);
    var here := (t[j..b], Int2(MarkersBefore(s, i, o)));
    if More(s, a) then [here] + Split(s, a + 1, t, Next(t, j, b), o) else [here]
  }

  lemma SplitStep(s: string, i: nat, t: string, j: nat, o: Setting, a: nat, b: nat)
    requires i <= |s| && j <= |t| && 1 <= o.skip <= 2 && a == FirstSemi(s, i, o) && b == FirstSemi(t, j, o)
    ensures var here := (t[j..b], Int2(MarkersBefore(s, i, o)));
            Split(s, i, t, j, o) ==
            if More(s, a) then [here] + Split(s, a + 1, t, Next(t, j, b), o) else [here]
  {
  }

  /** Scanning does not depend on the conversion of line ends. */
  lemma {:induction false} SameWithoutLf(s: string, i: nat, o: Setting)
    requires i <= |s| && 1 <= o.skip <= 2
    ensures FirstSemi(s, i, o) == FirstSemi(s, i, o.(lf := false))
    ensures MarkersBefore(s, i, o) == MarkersBefore(s, i, o.(lf := false))
    decreases |s| - i
  {
    if i < |s| && s[i] != ';' {
      assert BlockEnd(s, i, o) == BlockEnd(s, i, o.(lf := false));
      SameWithoutLf(s, BlockEnd(s, i, o), o);
    }
  }

  /** The two scans of one turn: the end of the command in the rewritten text, its parameters, whether another
      command follows, and where it starts. */
  method ScanBoth(org: string, i: nat, srv: string, j: nat, o: Setting)
    returns (b: nat, num: int, multi: bool, i1: nat, j1: nat)
    requires '\0' !in org && '\0' !in srv && i <= |org| && j <= |srv| && o.skip == 2
    ensures b == FirstSemi(srv, j, o) && num == Int2(MarkersBefore(org, i, o))
    ensures multi == More(org, FirstSemi(org, i, o))
    ensures multi ==> i1 == FirstSemi(org, i, o) + 1 <= |org| && j1 == Next(srv, j, b)
  {
    SameWithoutLf(org, i, o);
    SameWithoutLf(srv, j, o);
    var end1, end2, num2, multi2, proc1, proc2;
    num, multi, end1, proc1 := ScanQueryAndCountParams(org, i, o.escape, o.before, true);
    num2, multi2, end2, proc2 := ScanQueryAndCountParams(srv, j, o.escape, o.before, true);
    LastWordIff(org, |org|, FirstSemi(org, i, o));
    b := if end2 < 0 then |srv| else j + end2;
    if multi { i1, j1 := i + (end1 + 1), j + (end2 + 1); } else { i1, j1 := i, j; }
  }

  /** One turn: a command, and where the next one starts. */
  method TakeCommand(org: string, i: nat, srv: string, j: nat, o: Setting)
    returns (stmt: (string, int), multi: bool, i1: nat, j1: nat)
    requires '\0' !in org && '\0' !in srv && i <= |org| && j <= |srv| && o.skip == 2
    ensures multi ==> i < i1 <= |org| && j1 <= |srv|
    ensures Split(org, i, srv, j, o) == if multi then [stmt] + Split(org, i1, srv, j1, o) else [stmt]
  {
    var b, num;
    b, num, multi, i1, j1 := ScanBoth(org, i, srv, j, o);
    stmt := (srv[j..b], num);
    SplitStep(org, i, srv, j, o, FirstSemi(org, i, o), b);
  }

  /** The loop of prepareParametersNoDesc over the two texts. */
  method SplitStatements(org: string, srv: string, o: Setting) returns (stmts: seq<(string, int)>)
    requires '\0' !in org && '\0' !in srv && o.skip == 2
    ensures stmts == Split(org, 0, srv, 0, o)
  {
    var stmt, multi;
    var i: nat, j: nat;
    stmt, multi, i, j := TakeCommand(org, 0, srv, 0, o);
    stmts := [stmt];
    while multi
      invariant multi ==> i <= |org| && j <= |srv|
      invariant stmts + (if multi then Split(org, i, srv, j, o) else []) == Split(org, 0, srv, 0, o)
      decreases multi, |org| - i
    {
      stmt, multi, i, j := TakeCommand(org, i, srv, j, o);
      stmts := stmts + [stmt];
    }
  }

  // ----- What it should take -----

  /** The commands of the original, each rewritten with its parameters numbered from one, and their number; blanks
      behind the last semicolon are no command. */
  function Prepared(s: string, i: nat, o: Setting): seq<(string, int)>
    requires i <= |s| && 1 <= o.skip <= 2
    decreases |s| - i
  {
    var a := FirstSemi(s, i, o);
    var here := (Command(s, i, 0, o), Int2(MarkersBefore(s, i, o)));
    if More(s, a) then [here] + Prepared(s, a + 1, o) else [here]
  }

  lemma PreparedStep(s: string, i: nat, o: Setting, a: nat)
    requires i <= |s| && 1 <= o.skip <= 2 && a == FirstSemi(s, i, o)
    ensures var here := (Command(s, i, 0, o), Int2(MarkersBefore(s, i, o)));
            Prepared(s, i, o) == if More(s, a) then [here] + Prepared(s, a + 1, o) else [here]
  {
  }

  // ----- A marker that touches a dollar sign -----

  const EXAMPLE := Setting(false, false, '\0', 2)

  lemma DollarTail(o: Setting)
    requires o == EXAMPLE.(skip := 1)
    ensures Rewrite("?$;x", 1, 1, o) == "$;x"
  {
    var s := "?$;x";
    assert BlockEnd(s, 3, o) == IdentEnd(s, 4) == 4;
    assert BlockEnd(s, 1, o) == 2 by { assert TagClose(s, 2) == 4; }
    RewriteStep(s, 3, 0, o);
    RewriteStep(s, 2, 1, o);
    RewriteStep(s, 1, 1, o);
    assert s[3..4] == "x" && s[2..3] == ";" && s[1..2] == "$";
  }

  lemma DollarRewritten()
    ensures Rewrite("?$;x", 0, 0, EXAMPLE.(skip := 1)) == "$1$;x"
  {
    var o := EXAMPLE.(skip := 1);
    assert Written("?$;x", 0, 0, o) == "$1" by { assert MarkerText(1) == "$" + Digits(1) && Digits(1) == "1"; }
    assert Rewrite("?$;x", 0, 0, o) == "$1" + Rewrite("?$;x", 1, 1, o) by { RewriteStep("?$;x", 0, 0, o); }
    DollarTail(o);
  }

  lemma DollarScans()
    ensures FirstSemi("?$;x", 0, EXAMPLE) == 2 && MarkersBefore("?$;x", 0, EXAMPLE) == 1
    ensures FirstSemi("?$;x", 3, EXAMPLE) == 4 && MarkersBefore("?$;x", 3, EXAMPLE) == 0
    ensures FirstSemi("$1$;x", 0, EXAMPLE) == 5
  {
    var o, s, t := EXAMPLE, "?$;x", "$1$;x";
    assert BlockEnd(s, 1, o) == 2 by { assert TagClose(s, 2) == 4; }
    assert FirstSemi(s, 1, o) == 2 && MarkersBefore(s, 1, o) == 0;
    assert BlockEnd(s, 3, o) == IdentEnd(s, 4) == 4;
    assert BlockEnd(t, 0, o) == 5 by {
      assert TagClose(t, 1) == TagClose(t, 2) == 2 && TagLength(t, 0) == 3;
      assert DollarEnd(t, 0, 3, 3) == DollarEnd(t, 0, 3, 4) == DollarEnd(t, 0, 3, 5) == 5;
    }
  }

  /** The number written for the marker opens a dollar quote that hides the semicolon: both commands get the whole
      text. */
  lemma DollarTakesWholeTextTwice()
    ensures Split("?$;x", 0, Rewrite("?$;x", 0, 0, EXAMPLE.(skip := 1)), 0, EXAMPLE) == [("$1$;x", 1), ("$1$;x", 0)]
  {
    var o, s, t := EXAMPLE, "?$;x", "$1$;x";
    DollarRewritten();
    DollarScans();
    assert t[0..5] == t;
    assert LastWord(s, 4) == 3;
    SplitStep(s, 3, t, 0, o, 4, 5);
    SplitStep(s, 0, t, 0, o, 2, 5);
  }
}
