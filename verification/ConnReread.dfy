/** When text inside a braced value of a connection string is read again as a setting of its own. */
module ConnReread {
  import opened ConnString

  /** Where the value taken by the turn at `pos` ends. */
  function ValueEnd(s: string, pos: nat): nat
    requires pos <= |s| && OneTurn(s, pos).pairs != []
  {
    IndexFrom(s, SkipDelims(s, pos), '=') + 1 + |OneTurn(s, pos).pairs[0].1|
  }

  /** From `pos` on, no turn starts inside a value that another turn took. */
  predicate ReadOnce(s: string, pos: nat)
    requires pos <= |s|
    decreases |s| - pos
  {
    var t := OneTurn(s, pos);
    t.More? ==> (t.pairs != [] ==> ValueEnd(s, pos) <= t.next) && ReadOnce(s, t.next)
  }

  /** The turn at `pos` takes a braced value with a semicolon in it, and the string ends with a doubled bracket
      before the value is closed. */
  predicate RunsOffAt(s: string, pos: nat)
    requires pos <= |s|
  {
    var start := SkipDelims(s, pos);
    var e, v := IndexFrom(s, start, ';'), IndexFrom(s, start, '=') + 1;
    v < e < |s| && s[v] == '{' && FindEnding(s, v).RunsOff?
  }

  predicate NoneRunsOff(s: string, pos: nat)
    requires pos <= |s|
    decreases |s| - pos
  {
    !RunsOffAt(s, pos) && (OneTurn(s, pos).More? ==> NoneRunsOff(s, OneTurn(s, pos).next))
  }

  lemma {:induction false} RunsOffEnds(s: string, i: nat)
    requires i <= |s| && FindEnding(s, i).RunsOff?
    ensures s != "" && s[|s| - 1] == '}'
    decreases |s| - i
  {
    var c := IndexFrom(s, i, '}');
    if c + 2 < |s| { RunsOffEnds(s, c + 2); }
  }

  lemma TurnReadsAgainIff(s: string, pos: nat)
    requires pos <= |s|
    ensures var t := OneTurn(s, pos);
            t.More? && t.pairs != [] && t.next < ValueEnd(s, pos) <==> RunsOffAt(s, pos)
  {
    var start := SkipDelims(s, pos);
    var v := IndexFrom(s, start, '=') + 1;
    if RunsOffAt(s, pos) { RunsOffEnds(s, v); }
  }

  /** Text inside a braced value is read again as a setting of its own if and only if some value runs off the end
      behind a semicolon. */
  lemma {:induction false} ReadOnceIff(s: string, pos: nat)
    requires pos <= |s|
    ensures ReadOnce(s, pos) <==> NoneRunsOff(s, pos)
    decreases |s| - pos
  {
    TurnReadsAgainIff(s, pos);
    if OneTurn(s, pos).More? { ReadOnceIff(s, OneTurn(s, pos).next); }
  }

  // ----- A string that is read twice -----

  const EXAMPLE := "A={x;B=y}}"

  lemma FirstTurn()
    ensures OneTurn(EXAMPLE, 0) == More([("A", "{x;B=y}}")], 5)
  {
    var s := EXAMPLE;
    IndexFromIs(s, 0, ';', 4);
    IndexFromIs(s, 0, '=', 1);
    IndexFromIs(s, 2, '}', 8);
    assert FindEnding(s, 2) == RunsOff;
    assert s[0..1] == "A" && s[2..] == "{x;B=y}}";
  }

  lemma SecondTurn()
    ensures OneTurn(EXAMPLE, 5) == More([("B", "y}}")], 10)
  {
    var s := EXAMPLE;
    IndexFromIs(s, 5, ';', 10);
    IndexFromIs(s, 5, '=', 6);
    assert s[5..6] == "B" && s[7..10] == "y}}";
  }

  /** The text inside the value of A is read again as a setting B. */
  lemma ReadTwice()
    ensures Parse("A={x;B=y}}", 0) == Outcome(true, [("A", "{x;B=y}}"), ("B", "y}}")])
  {
    FirstTurn();
    SecondTurn();
    assert OneTurn(EXAMPLE, 10) == Last([], true);
  }
}
