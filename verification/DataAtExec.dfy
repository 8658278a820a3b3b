/** Parameters supplied at execution time: PGAPI_Execute's stop at a row that needs data, PGAPI_ParamData and
    PGAPI_PutData. */
module DataAtExec {
  import opened Basics

  // ----- What an application sees -----

  /** A row of parameters: skipped by the application or not, which parameters are data-at-execution, and whether its
      execution fails. */
  datatype Row = Row(ignored: bool, flags: seq<bool>, fails: bool)

  /** A parameter of a row is asked for; a row is executed. */
  datatype Event = Token(row: nat, param: nat) | Executed(row: nat)

  /** The deferred parameters of row `r` from `i` on, each once and in increasing order. */
  function Tokens(flags: seq<bool>, r: nat, i: nat): seq<Event>
    requires i <= |flags|
    decreases |flags| - i
  {
    if i == |flags| then []
    else (if flags[i] then [Token(r, i)] else []) + Tokens(flags, r, i + 1)
  }

  predicate Deferred(row: Row) {
    exists i :: 0 <= i < |row.flags| && row.flags[i]
  }

  /** Row `r` is executed, and the rows behind it follow unless it fails. */
  function ExecScript(rows: seq<Row>, r: nat): seq<Event>
    requires r < |rows|
    decreases |rows| - r, 0
  {
    [Executed(r)] + if rows[r].fails then [] else Script(rows, r + 1)
  }

  /** Row `r` from its parameter `i` on: deferred parameters, then the execution. */
  function RowScript(rows: seq<Row>, r: nat, i: nat): seq<Event>
    requires r < |rows| && i <= |rows[r].flags|
    decreases |rows| - r, 1
  {
    Tokens(rows[r].flags, r, i) + ExecScript(rows, r)
  }

  /** Row after row, up to the first that fails. */
  function Script(rows: seq<Row>, r: nat): seq<Event>
    requires r <= |rows|
    decreases |rows| - r, 2
  {
    if r == |rows| then [] else if rows[r].ignored then Script(rows, r + 1) else RowScript(rows, r, 0)
  }

  /** The row taken last, the rows behind a failing one being left; `d` if there is none. */
  function LastTaken(rows: seq<Row>, r: nat, d: int): int
    requires r <= |rows|
    decreases |rows| - r
  {
    if r == |rows| then d
    else if rows[r].ignored then LastTaken(rows, r + 1, d)
    else if rows[r].fails then r
    else LastTaken(rows, r + 1, r)
  }

  lemma LastTakenStep(rows: seq<Row>, r: nat, d: int)
    requires r < |rows|
    ensures rows[r].ignored && r + 1 == |rows| ==> LastTaken(rows, r, d) == d
    ensures rows[r].ignored && r + 1 < |rows| ==> LastTaken(rows, r, d) == LastTaken(rows, r + 1, d)
    ensures !rows[r].ignored && (rows[r].fails || r + 1 == |rows|) ==> LastTaken(rows, r, d) == r
    ensures !rows[r].ignored && !rows[r].fails && r + 1 < |rows| ==> LastTaken(rows, r, d) == LastTaken(rows, r + 1, r)
  {
  }

  lemma SkippedRow(sofar: seq<Event>, rows: seq<Row>, r: nat)
    requires r < |rows| && rows[r].ignored
    ensures sofar + Script(rows, r) == sofar + Script(rows, r + 1)
    ensures r + 1 == |rows| ==> sofar + Script(rows, r) == sofar
  {
  }

  lemma {:induction false} TokensAreDeferred(flags: seq<bool>, r: nat, i: nat)
    requires i <= |flags|
    ensures forall a :: 0 <= a < |Tokens(flags, r, i)| ==>
              var t := Tokens(flags, r, i)[a]; t.Token? && t.row == r && i <= t.param < |flags| && flags[t.param]
    ensures forall a, c :: 0 <= a < c < |Tokens(flags, r, i)| ==>
              Tokens(flags, r, i)[a].param < Tokens(flags, r, i)[c].param
    ensures forall p :: i <= p < |flags| && flags[p] ==> Token(r, p) in Tokens(flags, r, i)
    decreases |flags| - i
  {
    if i < |flags| { TokensAreDeferred(flags, r, i + 1); }
  }

  lemma DeferredIff(row: Row, r: nat)
    ensures Deferred(row) <==> Tokens(row.flags, r, 0) != []
  {
    TokensAreDeferred(row.flags, r, 0);
    if Tokens(row.flags, r, 0) != [] { assert row.flags[Tokens(row.flags, r, 0)[0].param]; }
  }

  /** How often a parameter is asked for. */
  function Asked(events: seq<Event>): nat {
    if events == [] then 0
    else Asked(events[..|events| - 1]) + if events[|events| - 1].Token? then 1 else 0
  }

  lemma AskedSnoc(events: seq<Event>, e: Event)
    ensures Asked(events + [e]) == Asked(events) + if e.Token? then 1 else 0
  {
    assert (events + [e])[..|events|] == events;
  }

  /** A row without deferred parameters is just executed. */
  lemma PlainRow(sofar: seq<Event>, rows: seq<Row>, r: nat)
    requires r < |rows| && !rows[r].ignored && Tokens(rows[r].flags, r, 0) == []
    ensures sofar + Script(rows, r) == sofar + ExecScript(rows, r)
  {
    assert Script(rows, r) == ExecScript(rows, r);
  }

  lemma ExecutedRow(sofar: seq<Event>, rows: seq<Row>, r: nat)
    requires r < |rows|
    ensures sofar + ExecScript(rows, r) ==
            if rows[r].fails || r + 1 == |rows| then sofar + [Executed(r)]
            else sofar + [Executed(r)] + Script(rows, r + 1)
  {
  }

  /** The execution that a resumed statement starts with, and what follows it. */
  lemma ResumeScript(sofar: seq<Event>, rows: seq<Row>, r: nat, coming: seq<Event>, waiting: bool)
    requires r < |rows| && (waiting ==> coming == ExecScript(rows, r))
    requires !waiting ==> r == 0 && coming == [Executed(0)] + if rows[0].fails then [] else Script(rows, 0)
    ensures rows[r].fails || (waiting && r + 1 == |rows|) ==> sofar + coming == sofar + [Executed(r)]
    ensures !rows[r].fails && waiting && r + 1 < |rows| ==>
              sofar + coming == sofar + [Executed(r)] + Script(rows, r + 1)
    ensures !rows[r].fails && !waiting ==> sofar + coming == sofar + [Executed(0)] + Script(rows, 0)
  {
  }

  /** The next deferred parameter of a row. */
  function NextDeferred(flags: seq<bool>, i: nat): (p: nat)
    requires i <= |flags|
    ensures i <= p <= |flags| && (p < |flags| ==> flags[p])
    decreases |flags| - i
  {
    if i == |flags| || flags[i] then i else NextDeferred(flags, i + 1)
  }

  lemma {:induction false} NextToken(flags: seq<bool>, r: nat, i: nat)
    requires i <= |flags| && Tokens(flags, r, i) != []
    ensures var p := NextDeferred(flags, i);
            p < |flags| && Tokens(flags, r, i) == [Token(r, p)] + Tokens(flags, r, p + 1)
    decreases |flags| - i
  {
    if !flags[i] { NextToken(flags, r, i + 1); }
  }

  lemma TokenMoves(sofar: seq<Event>, t: Event, tokens: seq<Event>, rest: seq<Event>)
    ensures sofar + [t] + (tokens + rest) == sofar + ([t] + tokens + rest)
  {
  }

  // ----- The script in words -----

  /** Row `r` is taken: it is not ignored, and no live row from `s` on up to it fails. */
  predicate Taken(rows: seq<Row>, s: nat, r: nat) {
    s <= r < |rows| && !rows[r].ignored && forall i :: s <= i < r ==> rows[i].ignored || !rows[i].fails
  }

  /** Rows come in order, in each row the parameters in order, and then its execution. */
  predicate Precedes(e: Event, f: Event) {
    e.row < f.row || (e.row == f.row && e.Token? && (f.Token? ==> e.param < f.param))
  }

  predicate InOrder(events: seq<Event>) {
    forall a, c :: 0 <= a < c < |events| ==> Precedes(events[a], events[c])
  }

  predicate Happens(rows: seq<Row>, s: nat, e: Event) {
    Taken(rows, s, e.row) && (e.Token? ==> e.param < |rows[e.row].flags| && rows[e.row].flags[e.param])
  }

  lemma RowScriptInWords(rows: seq<Row>, r: nat, e: Event)
    requires r < |rows| && !rows[r].ignored
    ensures var head := Tokens(rows[r].flags, r, 0) + [Executed(r)];
            && InOrder(head) && (e in head <==> e.row == r && Happens(rows, r, e))
            && forall f :: f in head ==> f.row == r
  {
    TokensAreDeferred(rows[r].flags, r, 0);
  }

  /** The events of a row in front of those of later rows. */
  lemma OrderedJoin(head: seq<Event>, rest: seq<Event>, r: nat)
    requires InOrder(head) && InOrder(rest)
    requires (forall f :: f in head ==> f.row == r) && forall f :: f in rest ==> f.row > r
    ensures InOrder(head + rest)
  {
    var all := head + rest;
    forall a, c | 0 <= a < c < |all| ensures Precedes(all[a], all[c]) {
      if a < |head| { assert all[a] == head[a] && all[a] in head; }
      if c >= |head| { assert all[c] == rest[c - |head|] && all[c] in rest; }
    }
  }

  lemma RowSplits(rows: seq<Row>, s: nat)
    requires s < |rows| && !rows[s].ignored
    ensures Script(rows, s) ==
            Tokens(rows[s].flags, s, 0) + [Executed(s)] + if rows[s].fails then [] else Script(rows, s + 1)
  {
    var tokens, rest := Tokens(rows[s].flags, s, 0), if rows[s].fails then [] else Script(rows, s + 1);
    assert Script(rows, s) == tokens + ExecScript(rows, s) && ExecScript(rows, s) == [Executed(s)] + rest;
    assert tokens + ([Executed(s)] + rest) == tokens + [Executed(s)] + rest;
  }

  lemma TakenStep(rows: seq<Row>, s: nat, r: nat)
    requires s < |rows|
    ensures Taken(rows, s, r) <==>
            if r == s then !rows[s].ignored else (rows[s].ignored || !rows[s].fails) && Taken(rows, s + 1, r)
  {
  }

  ghost predicate SaysAll(rows: seq<Row>, s: nat)
    requires s <= |rows|
  {
    forall e :: e in Script(rows, s) <==> Happens(rows, s, e)
  }

  /** The script is determined by these two facts: what is in it, and in which order. An ignored row leaves no trace, a
      failing one is the last. */
  lemma {:induction false} ScriptInWords(rows: seq<Row>, s: nat)
    requires s <= |rows|
    ensures InOrder(Script(rows, s)) && SaysAll(rows, s)
    decreases |rows| - s
  {
    if s < |rows| {
      ScriptInWords(rows, s + 1);
      forall e: Event ensures Taken(rows, s + 1, e.row) ==> e.row > s {}
      if rows[s].ignored {
        forall e: Event ensures Happens(rows, s, e) <==> Happens(rows, s + 1, e) { TakenStep(rows, s, e.row); }
      } else {
        LiveRowInWords(rows, s);
      }
    }
  }

  lemma LiveRowInWords(rows: seq<Row>, s: nat)
    requires s < |rows| && !rows[s].ignored && InOrder(Script(rows, s + 1))
    requires SaysAll(rows, s + 1)
    ensures InOrder(Script(rows, s)) && SaysAll(rows, s)
  {
    var head, rest := Tokens(rows[s].flags, s, 0) + [Executed(s)], if rows[s].fails then [] else Script(rows, s + 1);
    RowSplits(rows, s);
    RowScriptInWords(rows, s, Executed(s));
    OrderedJoin(head, rest, s);
    forall e: Event ensures e in head + rest <==> Happens(rows, s, e) {
      RowScriptInWords(rows, s, e);
      TakenStep(rows, s, e.row);
    }
  }

  /** The row taken last. */
  lemma {:induction false} LastTakenIs(rows: seq<Row>, s: nat, d: int)
    requires s <= |rows|
    ensures var r := LastTaken(rows, s, d);
            if exists i: nat :: Taken(rows, s, i)
            then r >= 0 && Taken(rows, s, r) && forall i :: i > r ==> !Taken(rows, s, i)
            else r == d
    decreases |rows| - s
  {
    if s < |rows| {
      LastTakenIs(rows, s + 1, if rows[s].ignored then d else s);
      forall i: nat ensures Taken(rows, s, i) <==>
        if i == s then !rows[s].ignored else (rows[s].ignored || !rows[s].fails) && Taken(rows, s + 1, i)
      {
        TakenStep(rows, s, i);
      }
      if rows[s].ignored {
        assert forall i: nat :: Taken(rows, s, i) <==> Taken(rows, s + 1, i);
      } else {
        assert Taken(rows, s, s);
      }
    }
  }

  /** Does a live row from `s` on fail? */
  predicate SomeFails(rows: seq<Row>, s: nat) {
    exists i :: s <= i < |rows| && !rows[i].ignored && rows[i].fails
  }

  /** It does exactly when something that happens is an execution that fails. */
  lemma {:induction false} FailureHappens(rows: seq<Row>, s: nat)
    requires s <= |rows|
    ensures SomeFails(rows, s) <==> exists r: nat :: r < |rows| && rows[r].fails && Executed(r) in Script(rows, s)
    decreases |rows| - s
  {
    ScriptInWords(rows, s);
    if r: nat :| r < |rows| && rows[r].fails && Executed(r) in Script(rows, s) { assert Happens(rows, s, Executed(r)); }
    if SomeFails(rows, s) {
      var i := FirstFailing(rows, s);
      assert Happens(rows, s, Executed(i));
    }
  }

  lemma {:induction false} FirstFailing(rows: seq<Row>, s: nat) returns (i: nat)
    requires s <= |rows| && SomeFails(rows, s)
    ensures Taken(rows, s, i) && rows[i].fails
    decreases |rows| - s
  {
    i := s;
    if rows[s].ignored || !rows[s].fails {
      i := FirstFailing(rows, s + 1);
      TakenStep(rows, s, i);
    }
  }

  // ----- The statement -----

  datatype ReturnCode = SQL_SUCCESS | SQL_NEED_DATA | SQL_ERROR

  class StatementClass {
    const rows: seq<Row>  // from the first row on
    var execCurrentRow: int
    var dataAtExec: int
    var currentExecParam: int
    var putData: bool
    var events: seq<Event>
    ghost var counted: int  // the row whose deferred parameters were counted last, or -1

    /** A row waits for data. */
    ghost predicate Waiting()
      reads this
    {
      && 0 <= execCurrentRow < |rows|
      && -1 <= currentExecParam < |rows[execCurrentRow].flags|
      && dataAtExec == |Tokens(rows[execCurrentRow].flags, execCurrentRow, currentExecParam + 1)|
      && counted == execCurrentRow && Deferred(rows[counted]) && !rows[counted].ignored
    }

    /** What is still to happen while a row waits. */
    ghost function Ahead(): seq<Event>
      requires Waiting()
      reads this
    {
      RowScript(rows, execCurrentRow, currentExecParam + 1)
    }

    /** Between rows the count of deferred parameters is left as it came out for the row counted last. */
    ghost predicate Counted()
      reads this
    {
      && currentExecParam == -1 && -1 <= counted < |rows|
      && dataAtExec == if counted >= 0 && Deferred(rows[counted]) then 0 else -1
    }

    /** An execution is over, or none has begun. */
    ghost predicate Over()
      reads this
    {
      execCurrentRow == -1 && Counted()
    }

    constructor (rows: seq<Row>)
      requires rows != []
      ensures this.rows == rows && events == [] && Over() && counted == -1 && !putData
    {
      this.rows := rows;
      execCurrentRow, dataAtExec, currentExecParam, putData, events := -1, -1, -1, false, [];
      counted := -1;
    }

    /** The count of deferred parameters of the current row; -1 if there are none. */
    method CountDeferred()
      requires 0 <= execCurrentRow < |rows|
      modifies this`dataAtExec, this`counted
      ensures counted == execCurrentRow
      ensures var n := |Tokens(rows[execCurrentRow].flags, execCurrentRow, 0)|; dataAtExec == if n == 0 then -1 else n
    {
      dataAtExec := -1;
      counted := execCurrentRow;
      var flags := rows[execCurrentRow].flags;
      ghost var n := |Tokens(flags, execCurrentRow, 0)|;
      for i := 0 to |flags|
        invariant dataAtExec != 0 && counted == execCurrentRow
        invariant (if dataAtExec < 0 then 0 else dataAtExec) + |Tokens(flags, execCurrentRow, i)| == n
        invariant dataAtExec >= -1
      {
        if flags[i] { dataAtExec := if dataAtExec < 0 then 1 else dataAtExec + 1; }
      }
    }

    /** Exec_with_parameters_resolved: a row number below zero stands for the first row. */
    method ExecWithParametersResolved() returns (execEnd: bool)
      requires -1 <= execCurrentRow < |rows| && rows != []
      modifies this`execCurrentRow, this`currentExecParam, this`events
      ensures var r := if old(execCurrentRow) < 0 then 0 else old(execCurrentRow);
              && events == old(events) + [Executed(r)] && currentExecParam == -1
              && execEnd == (rows[r].fails || old(execCurrentRow) + 1 == |rows|)
              && execCurrentRow == if execEnd then -1 else old(execCurrentRow) + 1
    {
      var r := if execCurrentRow < 0 then 0 else execCurrentRow;
      currentExecParam := -1;
      events := events + [Executed(r)];
      execEnd := rows[r].fails || execCurrentRow >= |rows| - 1;
      execCurrentRow := if execEnd then -1 else execCurrentRow + 1;
    }
 
    /** One turn of the row loop of PGAPI_Execute. */
    method NextRow() returns (execEnd: bool, code: ReturnCode)
      requires 0 <= execCurrentRow < |rows| && Counted()
      modifies this
      ensures Asked(events) == old(Asked(events)) && old(events) <= events
      ensures code == SQL_NEED_DATA ==>
                && execEnd && Waiting() && dataAtExec > 0 && execCurrentRow == old(execCurrentRow)
                && events + Ahead() == old(events + Script(rows, execCurrentRow))
      ensures code != SQL_NEED_DATA && execEnd ==> Over() && events == old(events + Script(rows, execCurrentRow))
      ensures code != SQL_NEED_DATA && execEnd ==>
                code == if SomeFails(rows, old(execCurrentRow)) then SQL_ERROR else SQL_SUCCESS
      ensures !execEnd ==>
                && Counted() && old(execCurrentRow) < execCurrentRow < |rows|
                && events + Script(rows, execCurrentRow) == old(events + Script(rows, execCurrentRow))
                && SomeFails(rows, execCurrentRow) == SomeFails(rows, old(execCurrentRow))
      ensures (if execEnd && code != SQL_NEED_DATA then counted else LastTaken(rows, execCurrentRow, counted)) ==
              old(LastTaken(rows, execCurrentRow, counted))
    {
      var r := execCurrentRow;
      LastTakenStep(rows, r, counted);
      execEnd, code := false, SQL_SUCCESS;
      if rows[r].ignored {
        SkippedRow(events, rows, r);
        execEnd := r >= |rows| - 1;
        execCurrentRow := if execEnd then -1 else r + 1;
        return;
      }
      LastTakenStep(rows, r, r);
      CountDeferred();
      DeferredIff(rows[r], r);
      if dataAtExec > 0 { return true, SQL_NEED_DATA; }
      PlainRow(events, rows, r);
      ExecutedRow(events, rows, r);
      AskedSnoc(events, Executed(r));
      execEnd := ExecWithParametersResolved();
      if rows[r].fails { code := SQL_ERROR; }
    }

    /** PGAPI_Execute: executes rows up to the first that needs data. */
    method PGAPIExecute() returns (code: ReturnCode)
      requires rows != [] && -1 <= execCurrentRow < |rows| && Counted()
      modifies this
      ensures Asked(events) == old(Asked(events)) && old(events) <= events
      ensures var r := if old(execCurrentRow) < 0 then 0 else old(execCurrentRow);
              if code == SQL_NEED_DATA
              then && Waiting() && dataAtExec > 0 && events + Ahead() == old(events) + Script(rows, r)
                   && SomeFails(rows, execCurrentRow) == SomeFails(rows, r)
                   && LastTaken(rows, execCurrentRow, counted) == LastTaken(rows, r, old(counted))
              else && Over() && events == old(events) + Script(rows, r) && counted == LastTaken(rows, r, old(counted))
                   && code == if SomeFails(rows, r) then SQL_ERROR else SQL_SUCCESS
    {
      if execCurrentRow < 0 { execCurrentRow := 0; }
      ghost var all, last := events + Script(rows, execCurrentRow), LastTaken(rows, execCurrentRow, counted);
      ghost var fails := SomeFails(rows, execCurrentRow);
      var execEnd := false;
      code := SQL_SUCCESS;
      while !execEnd
        invariant Asked(events) == old(Asked(events)) && old(events) <= events
        invariant if !execEnd then
                    Counted() && 0 <= execCurrentRow < |rows| && events + Script(rows, execCurrentRow) == all
                  else if code == SQL_NEED_DATA then
                    Waiting() && dataAtExec > 0 && events + Ahead() == all && execCurrentRow >= 0
                  else Over() && events == all && code == if fails then SQL_ERROR else SQL_SUCCESS
        invariant !execEnd || code == SQL_NEED_DATA ==> SomeFails(rows, execCurrentRow) == fails
        invariant last ==
                  if execEnd && code != SQL_NEED_DATA then counted else LastTaken(rows, execCurrentRow, counted)
        decreases !execEnd, |rows| - execCurrentRow
      {
        execEnd, code := NextRow();
      }
    }
 
    /** The loop of PGAPI_ParamData that finds the next parameter to ask for. */
    method AskNext() returns (token: nat)
      requires Waiting() && dataAtExec > 0
      modifies this
      ensures Waiting() && execCurrentRow == old(execCurrentRow) && dataAtExec == old(dataAtExec) - 1
      ensures token == currentExecParam && rows[execCurrentRow].flags[token] && !putData
      ensures events == old(events) + [Token(execCurrentRow, token)]
      ensures events + Ahead() == old(events + Ahead())
    {
      var flags, i := rows[execCurrentRow].flags, if currentExecParam >= 0 then currentExecParam + 1 else 0;
      ghost var first := i;
      NextToken(flags, execCurrentRow, first);
      while i < |flags| && !flags[i]
        invariant i <= |flags| && NextDeferred(flags, i) == NextDeferred(flags, first)
      {
        i := i + 1;
      }
      dataAtExec := dataAtExec - 1;
      currentExecParam := i;
      putData := false;
      token := i;
      events := events + [Token(execCurrentRow, token)];
      TokenMoves(old(events), Token(execCurrentRow, i), Tokens(flags, execCurrentRow, i + 1),
                 ExecScript(rows, execCurrentRow));
    }

    /** What a call of PGAPI_ParamData that is not refused brings about, in the end. After the end of an execution it is
        the first row once more, and then all rows from the first. */
    ghost function Coming(): seq<Event>
      requires rows != [] && (Waiting() || Over())
      reads this
    {
      if Waiting() then Ahead() else [Executed(0)] + if rows[0].fails then [] else Script(rows, 0)
    }

    /** The row taken last when all that is coming has happened. */
    ghost function LastComing(): int
      requires rows != [] && (Waiting() || Over())
      reads this
    {
      if Waiting() then LastTaken(rows, execCurrentRow, counted)
      else if rows[0].fails then counted else LastTaken(rows, 0, counted)
    }

    /** Will it fail? */
    ghost predicate FailureComes()
      reads this
    {
      if execCurrentRow < 0 then (rows != [] && rows[0].fails) || SomeFails(rows, 0)
      else SomeFails(rows, execCurrentRow)
    }

    /** All data of the row has been supplied; or an execution is over whose last row had needed data. */
    method Resume() returns (code: ReturnCode)
      requires rows != [] && dataAtExec == 0 && (Waiting() || Over())
      modifies this
      ensures Asked(events) == old(Asked(events))
      ensures old(events) + [Executed(if old(execCurrentRow) < 0 then 0 else old(execCurrentRow))] <= events
      ensures if code == SQL_NEED_DATA then Waiting() && dataAtExec > 0 && events + Ahead() == old(events + Coming())
              else Over() && events == old(events + Coming())
      ensures (if code == SQL_NEED_DATA then LastComing() else counted) == old(LastComing())
      ensures if code == SQL_NEED_DATA then FailureComes() == old(FailureComes())
              else code == if old(FailureComes()) then SQL_ERROR else SQL_SUCCESS
    {
      var r := if execCurrentRow < 0 then 0 else execCurrentRow;
      AskedSnoc(events, Executed(r));
      ResumeScript(events, rows, r, Coming(), Waiting());
      LastTakenStep(rows, r, counted);
      var execEnd := ExecWithParametersResolved();
      if execEnd { return if rows[r].fails then SQL_ERROR else SQL_SUCCESS; }
      code := PGAPIExecute();
    }
 
    /** PGAPI_ParamData: asks for the next deferred parameter of the row; when there is none left, executes
        the row and goes on to the next row that needs data. Only a negative count makes it refuse. */
    method PGAPIParamData() returns (code: ReturnCode, token: nat)
      requires rows != [] && (Waiting() || Over())
      modifies this
      ensures old(dataAtExec) < 0 ==> code == SQL_ERROR && unchanged(this)
      ensures code == SQL_NEED_DATA ==>
                && Waiting() && token == currentExecParam && rows[execCurrentRow].flags[token] && !putData
                && events != [] && events[|events| - 1] == Token(execCurrentRow, token)
                && Asked(events) == old(Asked(events)) + 1
                && events + Ahead() == old(events + Coming()) && LastComing() == old(LastComing())
      ensures code != SQL_NEED_DATA && old(dataAtExec) >= 0 ==>
                && Over() && events == old(events + Coming()) && counted == old(LastComing())
                && Asked(events) == old(Asked(events))
      ensures old(dataAtExec) > 0 ==>
                code == SQL_NEED_DATA && events == old(events) + [Token(old(execCurrentRow), token)]
      ensures old(dataAtExec) == 0 ==>
                old(events) + [Executed(if old(execCurrentRow) < 0 then 0 else old(execCurrentRow))] <= events
      ensures old(dataAtExec) >= 0 ==> |events| > |old(events)|
      ensures old(dataAtExec) >= 0 ==>
                if code == SQL_NEED_DATA then FailureComes() == old(FailureComes())
                else code == if old(FailureComes()) then SQL_ERROR else SQL_SUCCESS
    {
      if dataAtExec < 0 { return SQL_ERROR, 0; }
      if dataAtExec == 0 {
        code := Resume();
        if code != SQL_NEED_DATA { return code, 0; }
      }
      ghost var before := events;
      token := AskNext();
      AskedSnoc(before, Token(execCurrentRow, token));
      code := SQL_NEED_DATA;
    }
  }

  // ----- A whole execution -----

  /** A whole execution ends in an error exactly if a live row fails. */
  function FinalCode(rows: seq<Row>): ReturnCode {
    if SomeFails(rows, 0) then SQL_ERROR else SQL_SUCCESS
  }

  /** Data is asked for, `calls` times so far, and the rest of the script is still to come. */
  ghost predicate Supplying(stmt: StatementClass, calls: nat, script: seq<Event>, last: int)
    requires stmt.rows != []
    reads stmt
  {
    && stmt.Waiting() && stmt.events + stmt.Ahead() == script && Asked(stmt.events) == calls
    && stmt.LastComing() == last && (calls == 0 ==> stmt.dataAtExec > 0)
    && stmt.FailureComes() == SomeFails(stmt.rows, 0)
  }

  ghost predicate Supplied(stmt: StatementClass, calls: nat, script: seq<Event>, last: int)
    requires stmt.rows != []
    reads stmt
  {
    && stmt.Over() && stmt.events == script && stmt.counted == last
    && calls == if Asked(script) == 0 then 0 else Asked(script) + 1
  }

  method CallOnce(stmt: StatementClass, calls: nat, ghost script: seq<Event>, ghost last: int)
    returns (code: ReturnCode)
    requires stmt.rows != [] && Supplying(stmt, calls, script, last)
    modifies stmt
    ensures if code == SQL_NEED_DATA then Supplying(stmt, calls + 1, script, last)
            else Supplied(stmt, calls + 1, script, last) && code == FinalCode(stmt.rows)
    ensures old(|stmt.events|) < |stmt.events| <= |script|
  {
    assert stmt.Coming() == stmt.Ahead();
    var token;
    code, token := stmt.PGAPIParamData();
  }

  /** SQLExecute followed by SQLParamData as long as data is asked for: the events are exactly the script,
      each deferred parameter being asked for once, and one more call than there are deferred parameters
      executes the last row that has any. */
  method ExecuteSupplyingData(stmt: StatementClass) returns (calls: nat, code: ReturnCode)
    requires stmt.rows != [] && stmt.Over() && stmt.events == []
    modifies stmt
    ensures stmt.events == Script(stmt.rows, 0) && stmt.Over()
    ensures stmt.counted == LastTaken(stmt.rows, 0, old(stmt.counted))
    ensures calls == if Asked(stmt.events) == 0 then 0 else Asked(stmt.events) + 1
    ensures code != SQL_NEED_DATA && (code == SQL_ERROR <==> SomeFails(stmt.rows, 0))
  {
    calls := 0;
    ghost var script, last := Script(stmt.rows, 0), LastTaken(stmt.rows, 0, stmt.counted);
    assert [] + script == script;
    code := stmt.PGAPIExecute();
    while code == SQL_NEED_DATA
      invariant if code == SQL_NEED_DATA then Supplying(stmt, calls, script, last)
                else Supplied(stmt, calls, script, last) && code == FinalCode(stmt.rows)
      decreases code == SQL_NEED_DATA, |script| - |stmt.events|
    {
      code := CallOnce(stmt, calls, script, last);
      calls := calls + 1;
    }
  }

  /** Behind a whole execution: the first row executed once more, and unless it failed all rows again from the first. */
  ghost predicate StartsOver(stmt: StatementClass, code: ReturnCode)
    reads stmt
  {
    var rows := stmt.rows;
    && rows != []
    && var again := Script(rows, 0) + ([Executed(0)] + if rows[0].fails then [] else Script(rows, 0));
       if code == SQL_NEED_DATA then stmt.Waiting() && stmt.events + stmt.Ahead() == again
       else stmt.events == again && (code == SQL_ERROR <==> rows[0].fails || SomeFails(rows, 0))
  }

  /** One SQLParamData too many, after the end. It is refused, and nothing happens, if and only if the row taken
      last had no deferred parameter (or no row was taken); otherwise the first row is executed once more. */
  method CallAfterEnd(rows: seq<Row>) returns (stmt: StatementClass, code: ReturnCode)
    requires rows != []
    ensures var last := LastTaken(rows, 0, -1);
            && -1 <= last < |rows|
            && (stmt.events == Script(rows, 0) <==> last < 0 || !Deferred(rows[last]))
            && (last < 0 || !Deferred(rows[last]) ==> code == SQL_ERROR)
            && (last >= 0 && Deferred(rows[last]) ==> stmt.rows == rows && StartsOver(stmt, code))
            && (last >= 0 && Deferred(rows[last]) ==> Script(rows, 0) + [Executed(0)] <= stmt.events)
  {
    stmt := new StatementClass(rows);
    var calls, _ := ExecuteSupplyingData(stmt);
    var token;
    code, token := stmt.PGAPIParamData();
  }

  lemma {:induction false} AskedConcat(a: seq<Event>, b: seq<Event>)
    ensures Asked(a + b) == Asked(a) + Asked(b)
  {
    if b == [] {
      assert a + b == a;
    } else {
      var front, e := b[..|b| - 1], b[|b| - 1];
      assert a + b == (a + front) + [e];
      AskedConcat(a, front);
      AskedSnoc(a + front, e);
    }
  }

  lemma {:induction false} AskedTokens(flags: seq<bool>, r: nat, i: nat)
    requires i <= |flags|
    ensures Asked(Tokens(flags, r, i)) == |Tokens(flags, r, i)|
    decreases |flags| - i
  {
    if i < |flags| {
      AskedTokens(flags, r, i + 1);
      var first := if flags[i] then [Token(r, i)] else [];
      AskedConcat(first, Tokens(flags, r, i + 1));
      if flags[i] {
        AskedSnoc([], Token(r, i));
        assert [] + [Token(r, i)] == [Token(r, i)];
      }
    }
  }

  /** For a single row with k deferred parameters the data is asked for k times. */
  lemma AskedOfOneRow(row: Row)
    requires !row.ignored
    ensures Asked(Script([row], 0)) == |Tokens(row.flags, 0, 0)|
  {
    AskedTokens(row.flags, 0, 0);
    AskedSnoc(Tokens(row.flags, 0, 0), Executed(0));
    ExecutedRow(Tokens(row.flags, 0, 0), [row], 0);
  }

  // ----- The data -----

  /** What is stored for one parameter. */
  class PutDataClass {
    var used: int  // *EXEC_used
    var buffer: array?<char>  // EXEC_buffer

    ghost predicate Valid()
      reads this, buffer
    {
      buffer != null && 0 <= used < buffer.Length && buffer[used] == '\0'
    }

    ghost function Contents(): string
      requires Valid()
      reads this, buffer
    {
      buffer[..used]
    }

    constructor ()
      ensures used == 0 && buffer == null
    {
      used, buffer := 0, null;
    }

    /** The first piece. */
    method StoreFirst(piece: string)
      modifies this
      ensures Valid() && fresh(buffer) && Contents() == piece && buffer.Length == |piece| + 1
    {
      buffer := new char[|piece| + 1](i => if 0 <= i < |piece| then piece[i] else '\0');
      used := |piece|;
      assert buffer[..used] == piece;
    }

    /** A further piece: the buffer is reallocated to a power of two above the new length. */
    method StoreMore(piece: string)
      requires Valid()
      modifies this
      ensures Valid() && fresh(buffer) && Contents() == old(Contents()) + piece
      ensures buffer.Length == 16 || buffer.Length <= 2 * used
    {
      var allocsize := 16;
      while allocsize <= used + |piece|
        invariant allocsize == 16 || 16 < allocsize <= 2 * (used + |piece|)
        decreases used + |piece| - allocsize
      {
        allocsize := allocsize * 2;
      }
      var was, oldPos := buffer, used;
      var next := new char[allocsize](i requires 0 <= i reads was => if i < was.Length then was[i] else '\0');
      forall i | 0 <= i < |piece| { next[oldPos + i] := piece[i]; }
      used := oldPos + |piece|;
      next[used] := '\0';
      assert next[..oldPos] == was[..oldPos] && next[oldPos..used] == piece;
      assert next[..used] == next[..oldPos] + next[oldPos..used];
      buffer := next;
    }

    /** PGAPI_PutData with the statement's put_data flag, for character data of explicit length. */
    method PutData(piece: string, putData: bool) returns (code: ReturnCode)
      requires putData ==> Valid()
      modifies this
      ensures Valid() && (buffer == old(buffer) || fresh(buffer))
      ensures code == SQL_ERROR <==> putData && piece == ""
      ensures if code == SQL_ERROR then unchanged(this)
              else Contents() == (if putData then old(Contents()) else "") + piece
    {
      code := SQL_SUCCESS;
      if !putData {
        StoreFirst(piece);
        assert "" + piece == piece;
      } else if |piece| > 0 {
        StoreMore(piece);
      } else {
        code := SQL_ERROR;
      }
    }
  }

  /** Whatever the pieces, the stored buffer is their terminated concatenation. */
  method PutAll(p: PutDataClass, pieces: seq<string>)
    requires pieces != [] && forall i :: 0 < i < |pieces| ==> pieces[i] != ""
    modifies p
    ensures p.Valid() && p.Contents() == Concat(pieces) && p.buffer[p.used] == '\0'
  {
    var code := p.PutData(pieces[0], false);
    assert pieces[..1] == [] + [pieces[0]];
    ConcatSnoc([], pieces[0]);
    for i := 1 to |pieces|
      invariant p.Valid() && p.Contents() == Concat(pieces[..i])
    {
      assert pieces[..i + 1] == pieces[..i] + [pieces[i]];
      ConcatSnoc(pieces[..i], pieces[i]);
      code := p.PutData(pieces[i], true);
    }
    assert pieces[..|pieces|] == pieces;
  }
}
