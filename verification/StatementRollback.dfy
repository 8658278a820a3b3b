/** What a failed statement leaves behind, and where the protocol's promises end. */
module StatementRollback {
  import opened Basics
  import opened Server
  import opened Protocol
  import opened ProtocolProofs

  // ----- The commands the driver generates -----

  lemma RemarkedUserMarks(c: Conn)
    requires SvpOnTop(c)
    ensures UserMarks(Remarked(c).stack) == UserMarks(c.srv.stack)
  {
    var base := if c.svp then c.srv.stack[..|c.srv.stack| - 1] else c.srv.stack;
    assert Remarked(c).stack[..|base|] == base;
  }

  /** In every safe state inside a sound transaction, the generated [RELEASE and] SAVEPOINT succeed,
      name existing savepoints and leave the application's savepoints and all work untouched. */
  lemma GeneratedSavepointIsSafe(c: Conn)
    requires Inv(c) && c.srv.status.InTrans?
    ensures var (s, rs) := RunFrom(c.srv, SavepointCommands(c.svp));
            && AllDone(rs)
            && s == Remarked(c)
            && UserMarks(s.stack) == UserMarks(c.srv.stack)
  {
    var rs := (if c.svp then [Done(TagRelease)] else []) + [Done(TagSavepoint)];
    assert RunFrom(c.srv, SavepointCommands(c.svp)) == (Remarked(c), rs) by {
      SavepointRun(c, []);
      assert SavepointCommands(c.svp) + [] == SavepointCommands(c.svp);
      assert RunFrom(Remarked(c), []) == (Remarked(c), []);
      assert rs + [] == rs;
    }
    RemarkedUserMarks(c);
  }

  /** After every run of a fresh connection the generated commands are safe in this sense. */
  lemma ReachableSavepointsAreSafe(steps: seq<Step>)
    requires forall i :: 0 <= i < |steps| ==> ValidStep(steps[i])
    ensures var c := RunSteps(CONNECTED, steps);
            && Inv(c)
            && (c.srv.status.InTrans? ==>
                  var (s, rs) := RunFrom(c.srv, SavepointCommands(c.svp));
                  AllDone(rs) && UserMarks(s.stack) == UserMarks(c.srv.stack) && s.pending == c.srv.pending)
  {
    EveryRunIsSafe(CONNECTED, steps);
    var c := RunSteps(CONNECTED, steps);
    if c.srv.status.InTrans? { GeneratedSavepointIsSafe(c); }
  }

  // ----- A statement that fails inside a transaction -----

  lemma {:induction false} AllDoneIsSound(s: State, cmds: seq<Cmd>)
    requires !s.status.InError? && AllDone(RunFrom(s, cmds).1)
    ensures !RunFrom(s, cmds).0.status.InError?
    decreases |cmds|
  {
    if cmds != [] {
      var (s1, r) := Exec(s, cmds[0]);
      var rs := RunFrom(s, cmds).1;
      assert rs[0].Done?;
      assert RunFrom(s1, cmds[1..]).1 == rs[1..];
      AllDoneIsSound(s1, cmds[1..]);
    }
  }

  /** `c1` is what the queries of a statement left behind after failing at the server, started
      from `c` in a sound transaction. */
  predicate FailedFrom(c: Conn, c1: Conn, st: Stmt)
    requires SvpOnTop(c)
  {
    && Mid(c1, st) && c1.srv.status.InError? && c1.accessed
    && c1.srv.committed == c.srv.committed
    && (c1.started && c1.svp ==> c1.srv.stack == Remarked(c).stack)
  }

  lemma SendBatchFails(c: Conn, q: Query)
    requires Inv(c) && c.srv.status.InTrans? && OneTransaction(q.cmds)
    requires SendBatch(c, q, false).0.srv.status.InError?
    ensures var (c1, ok) := SendBatch(c, q, false);
            && !ok && Inv(c1) && c1.srv.committed == c.srv.committed
            && c1.started == c.started && c1.accessed == c.accessed
            && (c1.svp ==> c.svp && c1.srv.stack == c.srv.stack)
  {
    var p := Progress(c, false, false, false);
    SendBatchKeeps(c, q, false);
    if q.syntaxError {
      RepliesOne(p.(c := c.(srv := Fail(c.srv).0)), Error);
      UpdateStatusAgrees(OneReply(p.(c := c.(srv := Fail(c.srv).0)), Error).c);
      assert Run(c.srv, q).1[0].Error?;
    } else {
      RestKeeps(p, c.srv, if c.svp then c.srv.stack else [Mark(Driver, [])], q.cmds);
      assert SendBatch(c, q, false) == Rest(p, c.srv, q.cmds);
      if AllDone(RunFrom(c.srv, q.cmds).1) { AllDoneIsSound(c.srv, q.cmds); }
    }
  }

  lemma MarkedBatchFails(c: Conn, q: Query, st: Stmt)
    requires Inv(c) && c.srv.status.InTrans? && c.accessed && !c.started && st.rb && OneTransaction(q.cmds)
    requires SendBatch(c.(op := SavepointInProgress), q.(cmds := SavepointCommands(c.svp) + q.cmds), false)
             .0.srv.status.InError?
    ensures var (c1, ok) := SendBatch(c.(op := SavepointInProgress),
                                      q.(cmds := SavepointCommands(c.svp) + q.cmds), false);
            !ok && FailedFrom(c, c1, st) && c1.started == !q.syntaxError
  {
    SendMarkedKeeps(c, q, st);
    var full := q.(cmds := SavepointCommands(c.svp) + q.cmds);
    var p := Progress(c.(svp := true, started := true, op := NoOp), false, false, false);
    if q.syntaxError {
      var c1 := c.(op := SavepointInProgress, srv := Fail(c.srv).0);
      RepliesOne(Progress(c1, false, false, false), Error);
      UpdateStatusAgrees(c1.(inError := true));
      assert Run(c.srv, full).1[0].Error?;
    } else {
      MarkedBatch(c, q.cmds);
      RestKeeps(p, Remarked(c), Remarked(c).stack, q.cmds);
      assert full == Query(SavepointCommands(c.svp) + q.cmds, false);
      if AllDone(RunFrom(Remarked(c), q.cmds).1) { AllDoneIsSound(Remarked(c), q.cmds); }
    }
  }

  /** The savepoint sent on its own before the query. */
  lemma SeparateSavepoint(c: Conn)
    requires Inv(c) && c.srv.status.InTrans?
    ensures SendBatch(c.(op := SavepointInProgress), Query(SavepointCommands(c.svp), false), false) ==
            (c.(svp := true, started := true, op := NoOp, srv := Remarked(c)), true)
  {
    MarkedBatch(c, []);
    assert SavepointCommands(c.svp) + [] == SavepointCommands(c.svp);
  }

  /** A statement with statement-level rollback that runs in a sound transaction. */
  predicate InTransaction(c: Conn, st: Stmt, m: Sending) {
    && Inv(c) && c.srv.status.InTrans? && !c.started
    && st.rb && st.ordinary && m.q.cmds != [] && OneTransaction(m.q.cmds)
  }

  /** The connection once the options of the statement are recorded. */
  function Entered(c: Conn, m: Sending): Conn {
    c.(rdInProgress := c.rdInProgress && m.readOnly, accessed := true)
  }

  function MarkedSeparately(c: Conn): Conn
    requires SvpOnTop(c)
  {
    c.(svp := true, started := true, srv := Remarked(c))
  }

  /** The three ways such a statement is sent: without a savepoint, merged with it, or after it. */
  lemma SendShape(c: Conn, st: Stmt, m: Sending, reduce: bool)
    requires InTransaction(c, st, m)
    ensures var c0 := Entered(c, m);
            Send(c, m, reduce, Some(st)) ==
            if c.rdPrevious then SendBatch(c0, m.q, false)
            else if reduce then
              SendBatch(c0.(op := SavepointInProgress), m.q.(cmds := SavepointCommands(c0.svp) + m.q.cmds), false)
            else SendBatch(MarkedSeparately(c0), m.q, false)
  {
    var c1 := c.(rdInProgress := c.rdInProgress && m.readOnly);
    var c0 := Entered(c, m);
    if !c.rdPrevious {
      if reduce {
        assert c1.(op := PrependInProgress, accessed := true).(op := SavepointInProgress) ==
               c0.(op := SavepointInProgress);
      } else {
        SeparateSavepoint(c1);
        assert SetStatementSvp(c, st, m.readOnly, reduce) == (MarkedSeparately(c0), true);
      }
    }
  }

  lemma SendFails(c: Conn, st: Stmt, m: Sending, reduce: bool)
    requires InTransaction(c, st, m)
    requires Send(c, m, reduce, Some(st)).0.srv.status.InError?
    ensures var (c1, ok) := Send(c, m, reduce, Some(st));
            && !ok && FailedFrom(c, c1, st)
            && c1.started == (!c.rdPrevious && !(m.q.syntaxError && reduce))
  {
    SendShape(c, st, m, reduce);
    var c0 := Entered(c, m);
    if c.rdPrevious {
      SendBatchFails(c0, m.q);
    } else if reduce {
      MarkedBatchFails(c0, m.q, st);
    } else {
      SendBatchFails(MarkedSeparately(c0), m.q);
    }
  }

  predicate OnlyWork(cmds: seq<Cmd>) {
    forall i :: 0 <= i < |cmds| ==> cmds[i].Work?
  }

  lemma {:induction false} WorkKeepsSvp(p: Progress, s: State, cmds: seq<Cmd>)
    requires OnlyWork(cmds)
    ensures AllReplies(p, RunFrom(s, cmds).1).c.svp == p.c.svp
    decreases |cmds|
  {
    if cmds != [] {
      var (s1, r) := Exec(s, cmds[0]);
      if r.Error? {
        RepliesOne(p, r);
      } else {
        WorkKeepsSvp(OneReply(p, r), s1, cmds[1..]);
        RepliesCons(p, r, RunFrom(s1, cmds[1..]).1);
      }
    }
  }

  lemma WorkFailureKeepsSvp(p: Progress, s: State, cmds: seq<Cmd>)
    requires OnlyWork(cmds) && RunFrom(s, cmds).0.status.InError?
    ensures Rest(p, s, cmds).0.svp == p.c.svp
  {
    var (s1, rs) := RunFrom(s, cmds);
    var q := p.(c := p.c.(srv := s1));
    WorkKeepsSvp(q, s, cmds);
    RepliesFrame(q, rs);
  }

  lemma SentWorkKeepsSvp(c: Conn, st: Stmt, m: Sending, reduce: bool)
    requires InTransaction(c, st, m) && OnlyWork(m.q.cmds)
    requires Send(c, m, reduce, Some(st)).0.srv.status.InError?
    requires !c.rdPrevious && !(m.q.syntaxError && reduce)
    ensures Send(c, m, reduce, Some(st)).0.svp
  {
    SendShape(c, st, m, reduce);
    var c0 := Entered(c, m);
    if reduce {
      MarkedBatch(c0, m.q.cmds);
      var p := Progress(c0.(svp := true, started := true, op := NoOp), false, false, false);
      RestKeeps(p, Remarked(c0), Remarked(c0).stack, m.q.cmds);
      WorkFailureKeepsSvp(p, Remarked(c0), m.q.cmds);
      assert m.q.(cmds := SavepointCommands(c0.svp) + m.q.cmds) == Query(SavepointCommands(c0.svp) + m.q.cmds, false);
    } else {
      var c1 := MarkedSeparately(c0);
      var p := Progress(c1, false, false, false);
      if m.q.syntaxError {
        RepliesOne(p.(c := c1.(srv := Fail(c1.srv).0)), Error);
      } else {
        RestKeeps(p, c1.srv, c1.srv.stack, m.q.cmds);
        WorkFailureKeepsSvp(p, c1.srv, m.q.cmds);
        assert SendBatch(c1, m.q, false) == Rest(p, c1.srv, m.q.cmds);
      }
    }
  }

  // ----- Where the promises end -----

  /** The savepoint commands aside, a query that the server carries out in full. */
  lemma {:induction false} WorkRuns(p: Progress, s: State, cmds: seq<Cmd>)
    requires OnlyWork(cmds) && AllDone(RunFrom(s, cmds).1)
    ensures AllReplies(p, RunFrom(s, cmds).1) == p
    ensures RunFrom(s, cmds).0 == s.(pending := RunFrom(s, cmds).0.pending)
    decreases |cmds|
  {
    if cmds != [] {
      var (s1, r) := Exec(s, cmds[0]);
      var rs := RunFrom(s, cmds).1;
      assert rs[0].Done?;
      assert RunFrom(s1, cmds[1..]).1 == rs[1..];
      WorkRuns(p, s1, cmds[1..]);
      RepliesCons(p, r, rs[1..]);
    }
  }

  lemma SyntaxErrorFails(c: Conn, q: Query)
    requires q.syntaxError
    ensures !SendBatch(c, q, false).1
  {
    assert Run(c.srv, q).1[0].Error?;
  }

  lemma RunsAndSettles(p: Progress, s: State, cmds: seq<Cmd>)
    requires OnlyWork(cmds) && Rest(p, s, cmds).1
    requires s.status.InTrans? && p.c.inTrans && !p.c.inError
    ensures Rest(p, s, cmds).0 == p.c.(srv := RunFrom(s, cmds).0)
    ensures RunFrom(s, cmds).0.status.InTrans? && RunFrom(s, cmds).0 == s.(pending := RunFrom(s, cmds).0.pending)
  {
    var (s1, rs) := RunFrom(s, cmds);
    WorkRuns(p, s, cmds);
    WorkRuns(p.(c := p.c.(srv := s1)), s, cmds);
  }

  lemma SendBatchSucceeds(c: Conn, q: Query)
    requires Inv(c) && c.srv.status.InTrans? && OnlyWork(q.cmds) && SendBatch(c, q, false).1
    ensures SendBatch(c, q, false).0 == c.(srv := RunFrom(c.srv, q.cmds).0)
    ensures var s := RunFrom(c.srv, q.cmds).0; s.status.InTrans? && s == c.srv.(pending := s.pending)
  {
    if q.syntaxError { SyntaxErrorFails(c, q); }
    var p := Progress(c, false, false, false);
    assert SendBatch(c, q, false) == Rest(p, c.srv, q.cmds);
    RunsAndSettles(p, c.srv, q.cmds);
  }

  lemma SendSucceeds(c: Conn, st: Stmt, m: Sending, reduce: bool)
    requires InTransaction(c, st, m) && OnlyWork(m.q.cmds)
    requires Send(c, m, reduce, Some(st)).1
    ensures var c1 := Send(c, m, reduce, Some(st)).0;
            var base := if c.rdPrevious then Entered(c, m) else MarkedSeparately(Entered(c, m));
            && c1 == base.(srv := c1.srv) && c1.srv == base.srv.(pending := c1.srv.pending)
            && c1.srv.status.InTrans?
  {
    SendShape(c, st, m, reduce);
    var c0 := Entered(c, m);
    if c.rdPrevious {
      SendBatchSucceeds(c0, m.q);
    } else if reduce {
      var full := m.q.(cmds := SavepointCommands(c0.svp) + m.q.cmds);
      if m.q.syntaxError { SyntaxErrorFails(c0.(op := SavepointInProgress), full); }
      MarkedBatch(c0, m.q.cmds);
      assert full == Query(SavepointCommands(c0.svp) + m.q.cmds, false);
      RunsAndSettles(Progress(c0.(svp := true, started := true), false, false, false), Remarked(c0), m.q.cmds);
    } else {
      SendBatchSucceeds(MarkedSeparately(c0), m.q);
    }
  }

  predicate AllNeutral(rs: seq<Reply>) {
    forall i :: 0 <= i < |rs| ==> Neutral(rs[i])
  }

  lemma {:induction false} SvpIffNeutral(p: Progress, rs: seq<Reply>)
    requires Plain(p)
    ensures AllReplies(p, rs).c.svp <==> p.c.svp && AllNeutral(rs)
    ensures p.c.inTrans ==> AllReplies(p, rs).c.inTrans
    ensures SameExceptBits(p.c, AllReplies(p, rs).c)
    decreases |rs|
  {
    if rs != [] {
      ReplyEffect(p, rs[0]);
      SvpIffNeutral(OneReply(p, rs[0]), rs[1..]);
      assert rs == [rs[0]] + rs[1..];
    }
  }

  lemma {:induction false} NeutralRunStack(s: State, cmds: seq<Cmd>)
    requires (s.status.Idle? ==> s.stack == []) && AllNeutral(RunFrom(s, cmds).1)
    ensures var (s1, rs) := RunFrom(s, cmds);
            && (Done(TagCommit) in rs || s.status.Idle? ==> s1.stack == [])
            && (Done(TagCommit) !in rs && !s1.status.Idle? && !s.status.Idle? ==> s1.stack == s.stack)
    decreases |cmds|
  {
    if cmds != [] {
      var (s1, r) := Exec(s, cmds[0]);
      var rs := RunFrom(s, cmds).1;
      assert Neutral(rs[0]);
      if r.Done? {
        assert RunFrom(s1, cmds[1..]).1 == rs[1..] && rs == [r] + rs[1..];
        NeutralRunStack(s1, cmds[1..]);
        RunFromKeepsStackless(s1, cmds[1..]);
      }
    }
  }

  /** Exactly when a query leaves internal_svp pointing at nothing: its results include a COMMIT
      but no SAVEPOINT, RELEASE or ROLLBACK, and it ends inside a transaction. */
  lemma LostSavepointIff(c: Conn, q: Query)
    requires Inv(c) && c.svp
    ensures var (s, rs) := Run(c.srv, q);
            SvpOnTop(SendBatch(c, q, false).0) <==>
            !(AllNeutral(rs) && Done(TagCommit) in rs && !s.status.Idle?)
  {
    var (s, rs) := Run(c.srv, q);
    var p := Progress(c.(srv := s), false, false, false);
    RunSettles(c.srv, q);
    SvpIffNeutral(p, rs);
    UpdateStatusAgrees(AllReplies(p, rs).c);
    if AllNeutral(rs) && !q.syntaxError { NeutralRunStack(c.srv, q.cmds); }
  }

  predicate TouchesSavepoints(cmd: Cmd) {
    cmd.Savepoint? || cmd.Release? || cmd.RollbackTo? || cmd.Rollback?
  }

  /** Is a transaction open behind the commands, given whether one is open before them? */
  predicate OpenAfter(open: bool, cmds: seq<Cmd>)
    decreases |cmds|
  {
    if cmds == [] then open
    else OpenAfter(if cmds[0].Begin? then true else if cmds[0].Commit? then false else open, cmds[1..])
  }

  predicate Quiet(cmds: seq<Cmd>) {
    cmds == [] || (!TouchesSavepoints(cmds[0]) && Quiet(cmds[1..]))
  }

  predicate Commits(cmds: seq<Cmd>) {
    cmds != [] && (cmds[0].Commit? || Commits(cmds[1..]))
  }

  lemma {:induction false} RepliesToCommands(s: State, cmds: seq<Cmd>)
    requires !s.status.InError? && AllDone(RunFrom(s, cmds).1)
    ensures var (s1, rs) := RunFrom(s, cmds);
            && (AllNeutral(rs) <==> Quiet(cmds))
            && (Done(TagCommit) in rs <==> Commits(cmds))
            && (Quiet(cmds) ==> s1.status.Idle? == !OpenAfter(!s.status.Idle?, cmds))
    decreases |cmds|
  {
    if cmds != [] {
      var (s1, r) := Exec(s, cmds[0]);
      var rs := RunFrom(s, cmds).1;
      assert rs[0].Done?;
      var rest := RunFrom(s1, cmds[1..]).1;
      assert rs == [r] + rest;
      assert AllDone(rest) by { assert forall i :: 0 <= i < |rest| ==> rest[i] == rs[i + 1]; }
      RepliesToCommands(s1, cmds[1..]);
      NeutralCons(r, rest);
    }
  }

  lemma NeutralCons(r: Reply, rest: seq<Reply>)
    ensures AllNeutral([r] + rest) <==> Neutral(r) && AllNeutral(rest)
  {
    if AllNeutral([r] + rest) {
      assert Neutral(([r] + rest)[0]);
      forall i | 0 <= i < |rest| ensures Neutral(rest[i]) { assert rest[i] == ([r] + rest)[i + 1]; }
    }
  }

  /** The same on the commands, for a text that succeeds: it commits, touches no savepoint, and ends inside a
      transaction. */
  lemma LostByCommandsIff(c: Conn, q: Query)
    requires Inv(c) && c.svp && c.srv.status.InTrans? && AllDone(Run(c.srv, q).1)
    ensures SvpOnTop(SendBatch(c, q, false).0) <==> !(Quiet(q.cmds) && Commits(q.cmds) && OpenAfter(true, q.cmds))
  {
    LostSavepointIff(c, q);
    if !q.syntaxError { RepliesToCommands(c.srv, q.cmds); }
  }

  /** "COMMIT; BEGIN" in one text is such a query, in every state where the flag is set. */
  lemma CommitBeginLosesSavepoint(c: Conn)
    requires Inv(c) && c.svp && c.srv.status.InTrans?
    ensures !SvpOnTop(SendBatch(c, Query([Commit(false), Begin], false), false).0)
  {
    var q := Query([Commit(false), Begin], false);
    LostSavepointIff(c, q);
    var s1 := Exec(c.srv, Commit(false)).0;
    RunCons(c.srv, Commit(false), [Begin]);
    assert [Commit(false)] + [Begin] == q.cmds;
    RunOne(s1, Begin);
    assert Run(c.srv, q).1 == [Done(TagCommit)] + [Done(TagBegin)];
    assert Run(c.srv, q).1[0] == Done(TagCommit);
  }

  /** A ROLLBACK issued outside any transaction sets the error bit and nothing clears it. */
  lemma IdleRollbackLeavesErrorBit(c: Conn, st: Stmt, reduce: bool)
    requires Inv(c) && !c.inTrans
    ensures var c1 := Send(c, Sending(Query([Rollback], false), false, false), reduce, Some(st)).0;
            Inv(c1) && !c1.inTrans && c1.inError
  {
    var q := Query([Rollback], false);
    SendBatchKeeps(c, q, false);
    RunOne(c.srv, Rollback);
    var s := Run(c.srv, q).0;
    RepliesOne(Progress(c.(srv := s), false, false, false), Done(TagRollback));
  }

  /** Exactly when a failing first statement of a transaction is answered by the full ROLLBACK:
      no error bit is left over from before the transaction. */
  lemma FirstStatementFailure(c: Conn, st: Stmt, body: seq<Sending>, reduce: bool)
    requires Inv(c) && !c.inTrans && !c.accessed && !c.started && body != []
    requires body[0].go && st.ordinary && (st.rb || st.tc) && body[0].q.cmds != [] && OnlyWork(body[0].q.cmds)
    requires Send(c, body[0], reduce, Some(st)).0.srv.status.InError?
    ensures ApiCall(c, st, body, reduce, Success, false).srv.status == (if c.inError then InError else Idle)
  {
    var m := body[0];
    var c0 := if c.inError then c else c.(rdInProgress := c.rdInProgress && m.readOnly, accessed := true);
    var q := m.q.(cmds := [Begin] + m.q.cmds);
    assert Send(c, m, reduce, Some(st)) == SendBatch(c0, q, true);
    if m.q.syntaxError {
      SendBatchKeeps(c0, q, true);
      assert false;
    }
    var p := Progress(c0, true, false, false);
    RestKeeps(p, c0.srv, [Mark(Driver, [])], q.cmds);
    assert SendBatch(c0, q, true) == Rest(p, c0.srv, q.cmds);
    var (c1, ok) := SendBatch(c0, q, true);
    if ok { AllDoneIsSound(c0.srv, q.cmds); }
    assert SendAll(c, body, reduce, st) == (c1, false);
    FirstFailureEnds(c1, st);
  }

  lemma FirstFailureEnds(c: Conn, st: Stmt)
    requires Inv(c) && c.srv.status.InError? && !c.started && (st.rb || st.tc)
    ensures DiscardStatementSvp(c, st, Failure, false).srv.status == (if c.accessed then Idle else InError)
  {
    if c.accessed { AbortEffect(c); }
  }
}
