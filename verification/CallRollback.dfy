/** Statement-level rollback for calls that send any number of queries. */
module CallRollback {
  import opened Basics
  import opened Server
  import opened Protocol
  import opened ProtocolProofs
  import opened StatementRollback

  // ----- Single queries, in any state -----

  lemma SendBatchSrv(c: Conn, q: Query, skipBegin: bool)
    requires Settled(c.srv) && !c.committing
    ensures SendBatch(c, q, skipBegin).0.srv == Run(c.srv, q).0
  {
    var (s, rs) := Run(c.srv, q);
    var p := Progress(c.(srv := s), skipBegin, false, false);
    RunSettles(c.srv, q);
    RepliesFrame(p, rs);
    UpdateStatusAgrees(AllReplies(p, rs).c);
  }

  /** A query that succeeds does not end in error. */
  lemma SendBatchSound(c: Conn, q: Query, skipBegin: bool)
    requires Settled(c.srv) && !c.committing && !c.srv.status.InError? && SendBatch(c, q, skipBegin).1
    ensures !SendBatch(c, q, skipBegin).0.srv.status.InError?
  {
    SendBatchSrv(c, q, skipBegin);
    if !q.syntaxError { AllDoneIsSound(c.srv, q.cmds); }
  }

  /** Where internal_svp survives a query, the stack and the committed work do too. */
  lemma SendBatchHolds(c: Conn, q: Query, skipBegin: bool)
    requires Inv(c) && OneTransaction(q.cmds)
    ensures var c1 := SendBatch(c, q, skipBegin).0;
            && Inv(c1) && (c1.inTrans ==> c1.started == c.started)
            && (c1.svp ==> c.svp && c1.srv.stack == c.srv.stack && c1.srv.committed == c.srv.committed)
  {
    var p := Progress(c, skipBegin, false, false);
    if q.syntaxError {
      SendBatchKeeps(c, q, skipBegin);
      var c1 := c.(srv := Fail(c.srv).0);
      RepliesOne(p.(c := c1), Error);
      UpdateStatusAgrees(OneReply(p.(c := c1), Error).c);
    } else {
      RestKeeps(p, c.srv, if c.svp then c.srv.stack else [Mark(Driver, [])], q.cmds);
      assert SendBatch(c, q, skipBegin) == Rest(p, c.srv, q.cmds);
    }
  }

  // ----- Where the savepoint was taken -----

  /** While the rollback point is started and internal_svp holds, the savepoint on top of the stack is the one
      taken at `at`, in a sound transaction, and nothing was committed since. */
  predicate Held(c: Conn, at: Conn) {
    c.started && c.svp ==>
      && SvpOnTop(at) && at.srv.status.InTrans?
      && c.srv.stack == Remarked(at).stack && c.srv.committed == at.srv.committed
  }

  /** The state from which the savepoint in force after the queries was taken; `at` is it for `c`. */
  function TakenAt(c: Conn, body: seq<Sending>, reduce: bool, st: Stmt, at: Conn): Conn
    decreases |body|
  {
    if body == [] then at
    else
      var (c1, ok) := Send(c, body[0], reduce, Some(st));
      var at1 := if c.started then at else c;
      if ok then TakenAt(c1, body[1..], reduce, st, at1) else at1
  }

  /** The ways into a query when no rollback point is started: no savepoint, one announced, or one set. */
  lemma EnterShape(c: Conn, m: Sending, reduce: bool, st: Stmt)
    requires Inv(c) && m.q.cmds != [] && !c.started
    ensures var (c1, ok) := Enter(c, m, reduce, Some(st));
            var c0 := Entered(c, m);
            && ok
            && (|| (c1 == c.(rdInProgress := c1.rdInProgress, accessed := c1.accessed))
                || (c1 == c0.(op := PrependInProgress) && c.srv.status.InTrans? && st.rb && !IssuesBegin(c, m))
                || (c1 == MarkedSeparately(c0) && c.srv.status.InTrans? && !IssuesBegin(c, m)))
  {
    var c1 := c.(rdInProgress := c.rdInProgress && m.readOnly);
    if !c.inError && st.ordinary && !c.rdPrevious && st.rb && c.inTrans && !reduce { SeparateSavepoint(c1); }
  }

  /** A query sent together with its savepoint. */
  lemma MarkedHolds(c: Conn, q: Query, st: Stmt)
    requires Inv(c) && c.srv.status.InTrans? && c.accessed && !c.started && st.rb && OneTransaction(q.cmds)
    ensures var (c1, ok) := SendBatch(c.(op := SavepointInProgress),
                                      q.(cmds := SavepointCommands(c.svp) + q.cmds), false);
            Held(c1, c) && (c1.srv.status.InError? ==> !ok)
  {
    var p := Progress(c.(svp := true, started := true, op := NoOp), false, false, false);
    var full := q.(cmds := SavepointCommands(c.svp) + q.cmds);
    var c0 := c.(op := SavepointInProgress);
    if SendBatch(c0, full, false).1 { SendBatchSound(c0, full, false); }
    if q.syntaxError {
      var c1 := c0.(srv := Fail(c.srv).0);
      RepliesOne(Progress(c1, false, false, false), Error);
      UpdateStatusAgrees(c1.(inError := true));
    } else {
      MarkedBatch(c, q.cmds);
      RestKeeps(p, Remarked(c), Remarked(c).stack, q.cmds);
      assert full == Query(SavepointCommands(c.svp) + q.cmds, false);
    }
  }

  lemma PlainSendHolds(c: Conn, q: Query, issueBegin: bool, at: Conn)
    requires Inv(c) && OneTransaction(q.cmds) && Held(c, at)
    ensures var (c1, ok) := SendPrefixed(c, q, issueBegin);
            Held(c1, at) && (!c.srv.status.InError? && c1.srv.status.InError? ==> !ok)
  {
    var full := if issueBegin then q.(cmds := [Begin] + q.cmds) else q;
    if issueBegin { BeginInFront(q.cmds); }
    SendBatchHolds(c, full, issueBegin);
    if !c.srv.status.InError? && SendBatch(c, full, issueBegin).1 { SendBatchSound(c, full, issueBegin); }
  }

  /** Every query keeps the record of where the savepoint was taken; one that ends in error did not succeed. */
  lemma SendHolds(c: Conn, m: Sending, reduce: bool, st: Stmt, at: Conn)
    requires Inv(c) && OneTransaction(m.q.cmds) && Held(c, at)
    ensures var (c1, ok) := Send(c, m, reduce, Some(st));
            && Held(c1, if c.started then at else c)
            && (!c.srv.status.InError? && c1.srv.status.InError? ==> !ok)
  {
    if m.q.cmds != [] {
      var begin, at1 := IssuesBegin(c, m), if c.started then at else c;
      EnterKeeps(c, m, reduce, st);
      var c0 := Enter(c, m, reduce, Some(st)).0;
      if c.started {
        PlainSendHolds(c, m.q, begin, at);
      } else {
        EnterShape(c, m, reduce, st);
        if c0.op.PrependInProgress? {
          var c1 := Entered(c, m);
          MarkedHolds(c1, m.q, st);
          assert c0.(op := SavepointInProgress) == c1.(op := SavepointInProgress);
        } else {
          PlainSendHolds(c0, m.q, begin, c);
        }
      }
    }
  }

  lemma {:induction false} SendAllHolds(c: Conn, body: seq<Sending>, reduce: bool, st: Stmt, at: Conn)
    requires Inv(c) && (forall i :: 0 <= i < |body| ==> OneTransaction(body[i].q.cmds)) && Held(c, at)
    requires !c.srv.status.InError?
    ensures var (c1, ok) := SendAll(c, body, reduce, st);
            && Held(c1, TakenAt(c, body, reduce, st, at))
            && (c1.srv.status.InError? ==> !ok)
    decreases |body|
  {
    if body != [] {
      var (c1, ok) := Send(c, body[0], reduce, Some(st));
      SendHolds(c, body[0], reduce, st, at);
      SendKeeps(c, body[0], reduce, st);
      if ok { SendAllHolds(c1, body[1..], reduce, st, if c.started then at else c); }
    }
  }

  /** What the closing discard makes of a transaction in error. */
  lemma DiscardInError(c: Conn, st: Stmt, at: Conn, errorOnly: bool)
    requires Mid(c, st) && c.srv.status.InError? && Held(c, at)
    ensures var c2 := DiscardStatementSvp(c, st, Failure, errorOnly);
            && Inv(c2)
            && c2.srv == if !c.accessed || (!st.rb && !st.tc) then c.srv
                         else if c.started && c.svp then Remarked(at)
                         else Abandon(c.srv)
  {
    DiscardKeeps(c, st, Failure, errorOnly);
    if c.accessed && (st.rb || st.tc) {
      if c.started && c.svp {
        InternalRollbackEffect(c);
        assert c.srv.stack[|c.srv.stack| - 1] == Mark(Driver, at.srv.pending);
      } else {
        AbortEffect(c);
      }
    }
  }

  /** Statement-level rollback for every call that the server fails, whatever queries it sends. If the rollback
      point was started and internal_svp still holds, the server is left exactly as it was where the savepoint
      was taken, the application's savepoints included and the transaction usable; otherwise the transaction is
      abandoned. A call whose queries never reached the savepoint logic is left in error. `before` is where a
      savepoint already in force was taken. */
  lemma FailedCall(c: Conn, st: Stmt, body: seq<Sending>, reduce: bool, ret: Ret, errorOnly: bool, before: Conn)
    requires Inv(c) && Held(c, before) && !c.srv.status.InError?
    requires forall i :: 0 <= i < |body| ==> OneTransaction(body[i].q.cmds)
    requires SendAll(c, body, reduce, st).0.srv.status.InError?
    ensures var c1 := SendAll(c, body, reduce, st).0;
            var c2 := ApiCall(c, st, body, reduce, ret, errorOnly);
            var at := TakenAt(c, body, reduce, st, before);
            && Inv(c2)
            && (c1.started && c1.svp ==> SvpOnTop(at) && at.srv.status.InTrans?
                                         && UserMarks(Remarked(at).stack) == UserMarks(at.srv.stack))
            && c2.srv == if !c1.accessed || (!st.rb && !st.tc) then c1.srv
                         else if c1.started && c1.svp then Remarked(at)
                         else Abandon(c1.srv)
  {
    var (c1, ok) := SendAll(c, body, reduce, st);
    var at := TakenAt(c, body, reduce, st, before);
    SendAllHolds(c, body, reduce, st, before);
    SendAllKeeps(c, body, reduce, st);
    DiscardInError(c1, st, at, errorOnly);
    if c1.started && c1.svp { RemarkedUserMarks(at); }
  }

  /** A call that fails in the driver while the server is sound: with a savepoint in force the server is left as it
      is, the failed call's own work included; without one the whole transaction is abandoned. */
  lemma DriverFailure(c: Conn, st: Stmt, body: seq<Sending>, reduce: bool, ret: Ret, errorOnly: bool)
    requires Inv(c) && (forall i :: 0 <= i < |body| ==> OneTransaction(body[i].q.cmds))
    requires !SendAll(c, body, reduce, st).0.srv.status.InError? && (SendAll(c, body, reduce, st).1 ==> ret.Failure?)
    ensures var c1 := SendAll(c, body, reduce, st).0;
            var c2 := ApiCall(c, st, body, reduce, ret, errorOnly);
            && Inv(c2)
            && c2.srv == if !c1.accessed || !c1.inTrans || (!st.rb && !st.tc) || (c1.started && c1.svp) then c1.srv
                         else Abandon(c1.srv)
  {
    var c1 := SendAll(c, body, reduce, st).0;
    SendAllKeeps(c, body, reduce, st);
    DiscardOfSoundFailure(c1, st, errorOnly);
  }

  lemma DiscardOfSoundFailure(c: Conn, st: Stmt, errorOnly: bool)
    requires Mid(c, st) && !c.srv.status.InError?
    ensures var c2 := DiscardStatementSvp(c, st, Failure, errorOnly);
            && Inv(c2)
            && c2.srv == if !c.accessed || !c.inTrans || (!st.rb && !st.tc) || (c.started && c.svp) then c.srv
                         else Abandon(c.srv)
  {
    DiscardKeeps(c, st, Failure, errorOnly);
    if c.accessed && c.inTrans && (st.rb || st.tc) && !(c.started && c.svp) { AbortEffect(c); }
  }

  // ----- Calls that only do work -----

  predicate WorkBody(body: seq<Sending>) {
    forall i :: 0 <= i < |body| ==> body[i].q.cmds != [] && OnlyWork(body[i].q.cmds)
  }

  /** A call with statement-level rollback that does work in a sound transaction. */
  predicate WorkCall(c: Conn, st: Stmt, body: seq<Sending>) {
    Inv(c) && c.srv.status.InTrans? && !c.started && st.rb && st.ordinary && WorkBody(body) && body != []
  }

  /** Behind the first query of such a call: the savepoint is set, or there will be none. */
  predicate Underway(c: Conn, st: Stmt, body: seq<Sending>) {
    && Inv(c) && c.srv.status.InTrans? && st.rb && st.ordinary && WorkBody(body) && c.accessed
    && if c.started then c.svp else c.rdPrevious
  }

  predicate AllReadOnly(body: seq<Sending>) {
    body == [] || (body[0].readOnly && AllReadOnly(body[1..]))
  }

  lemma StartedSend(c: Conn, st: Stmt, m: Sending, reduce: bool)
    requires Inv(c) && c.srv.status.InTrans? && c.started && m.q.cmds != []
    ensures Send(c, m, reduce, Some(st)) == SendBatch(c, m.q, false)
  {
  }

  /** What one more query of the call may change. */
  predicate Continues(c: Conn, c1: Conn, m: Sending) {
    && c1.started == c.started && c1.rdPrevious == c.rdPrevious && c1.accessed
    && c1.srv.committed == c.srv.committed && (c.started ==> c1.svp)
    && c1.rdInProgress == (c.rdInProgress && (c.started || m.readOnly))
  }

  lemma UnderwaySucceeds(c: Conn, st: Stmt, m: Sending, reduce: bool)
    requires Underway(c, st, [m]) && Send(c, m, reduce, Some(st)).1
    ensures var c1 := Send(c, m, reduce, Some(st)).0;
            Inv(c1) && c1.srv.status.InTrans? && Continues(c, c1, m)
  {
    assert OnlyWork([m][0].q.cmds) && [m][0].q.cmds != [];
    SendKeeps(c, m, reduce, st);
    if c.started {
      StartedSend(c, st, m, reduce);
      SendBatchSucceeds(c, m.q);
    } else {
      SendSucceeds(c, st, m, reduce);
    }
  }

  lemma {:induction false} UnderwayAll(c: Conn, st: Stmt, body: seq<Sending>, reduce: bool)
    requires Underway(c, st, body) && SendAll(c, body, reduce, st).1
    ensures var c1 := SendAll(c, body, reduce, st).0;
            && Inv(c1) && c1.srv.status.InTrans? && c1.accessed && c1.started == c.started && (c.started ==> c1.svp)
            && c1.rdInProgress == (c.rdInProgress && (c.started || AllReadOnly(body)))
    decreases |body|
  {
    if body != [] {
      var m, rest := body[0], body[1..];
      UnderwaySucceeds(c, st, m, reduce);
      UnderwayAll(Send(c, m, reduce, Some(st)).0, st, rest, reduce);
    }
  }

  lemma FirstQuerySucceeds(c: Conn, st: Stmt, body: seq<Sending>, reduce: bool)
    requires WorkCall(c, st, body) && Send(c, body[0], reduce, Some(st)).1
    ensures var c1 := Send(c, body[0], reduce, Some(st)).0;
            && Underway(c1, st, body[1..]) && c1.started == !c.rdPrevious && c1.rdPrevious == c.rdPrevious
            && c1.rdInProgress == (c.rdInProgress && body[0].readOnly)
            && c1.srv.committed == c.srv.committed
  {
    SendKeeps(c, body[0], reduce, st);
    SendSucceeds(c, st, body[0], reduce);
  }

  /** How a successful call decides the fate of the next one. Without a savepoint of its own, it counts as
      read-only if all its queries are; with one, only its first query is looked at. */
  lemma SuccessfulCall(c: Conn, st: Stmt, body: seq<Sending>, reduce: bool)
    requires WorkCall(c, st, body) && SendAll(c, body, reduce, st).1
    ensures var c2 := ApiCall(c, st, body, reduce, Success, false);
            && Inv(c2) && c2.srv.status.InTrans? && !c2.started && !c2.accessed && c2.rdInProgress
            && c2.rdPrevious == (c.rdInProgress && if c.rdPrevious then AllReadOnly(body) else body[0].readOnly)
  {
    FirstQuerySucceeds(c, st, body, reduce);
    UnderwayAll(Send(c, body[0], reduce, Some(st)).0, st, body[1..], reduce);
    DiscardOfSuccess(SendAll(c, body, reduce, st).0, st);
  }

  /** Of a call that does work and then fails in the driver: what it did stays, although the call failed, if and only
      if the previous call was not read-only; otherwise all work of the transaction is lost. */
  lemma WorkOfDriverFailure(c: Conn, st: Stmt, body: seq<Sending>, reduce: bool, errorOnly: bool)
    requires WorkCall(c, st, body) && SendAll(c, body, reduce, st).1
    ensures var s1, s2 := SendAll(c, body, reduce, st).0.srv, ApiCall(c, st, body, reduce, Failure, errorOnly).srv;
            s2 == if c.rdPrevious then Abandon(s1) else s1
  {
    FirstQuerySucceeds(c, st, body, reduce);
    UnderwayAll(Send(c, body[0], reduce, Some(st)).0, st, body[1..], reduce);
    DiscardOfSoundFailure(SendAll(c, body, reduce, st).0, st, errorOnly);
  }

  lemma DiscardOfSuccess(c: Conn, st: Stmt)
    requires Inv(c) && c.accessed
    ensures var c2 := DiscardStatementSvp(c, st, Success, false);
            && Inv(c2) && c2.srv == c.srv && !c2.started && !c2.accessed
            && c2.rdPrevious == c.rdInProgress && c2.rdInProgress
  {
  }

  lemma UnderwayFails(c: Conn, st: Stmt, m: Sending, reduce: bool)
    requires Underway(c, st, [m]) && Send(c, m, reduce, Some(st)).0.srv.status.InError?
    ensures var c1 := Send(c, m, reduce, Some(st)).0;
            c1.started == c.started && c1.accessed && c1.srv.committed == c.srv.committed && (c.started ==> c1.svp)
  {
    assert OnlyWork([m][0].q.cmds) && [m][0].q.cmds != [];
    if c.started {
      StartedSend(c, st, m, reduce);
      SendBatchFails(c, m.q);
      WorkBatchKeepsSvp(c, m.q);
    } else {
      SendFails(c, st, m, reduce);
    }
  }

  lemma WorkBatchKeepsSvp(c: Conn, q: Query)
    requires Inv(c) && c.srv.status.InTrans? && c.svp && OnlyWork(q.cmds)
    requires SendBatch(c, q, false).0.srv.status.InError?
    ensures SendBatch(c, q, false).0.svp
  {
    var p := Progress(c, false, false, false);
    if q.syntaxError {
      RepliesOne(p.(c := c.(srv := Fail(c.srv).0)), Error);
    } else {
      RestKeeps(p, c.srv, c.srv.stack, q.cmds);
      WorkFailureKeepsSvp(p, c.srv, q.cmds);
      assert SendBatch(c, q, false) == Rest(p, c.srv, q.cmds);
    }
  }

  /** Later queries of a call neither move the savepoint nor commit anything. */
  lemma {:induction false} UnderwayTaken(c: Conn, st: Stmt, body: seq<Sending>, reduce: bool, at: Conn)
    requires Underway(c, st, body) && SendAll(c, body, reduce, st).0.srv.status.InError?
    ensures var c1 := SendAll(c, body, reduce, st).0;
            && c1.started == c.started && c1.accessed && c1.srv.committed == c.srv.committed && (c.started ==> c1.svp)
            && (c.started ==> TakenAt(c, body, reduce, st, at) == at)
    decreases |body|
  {
    if body != [] {
      var (c1, ok) := Send(c, body[0], reduce, Some(st));
      if ok {
        UnderwaySucceeds(c, st, body[0], reduce);
        UnderwayTaken(c1, st, body[1..], reduce, if c.started then at else c);
      } else {
        UnderwayFails(c, st, body[0], reduce);
      }
    }
  }

  /** The savepoint of a call is there when the server fails it: the previous call was not read-only, and a first
      text refused for its syntax had not been merged with the savepoint. */
  predicate SavepointHolds(c: Conn, body: seq<Sending>, reduce: bool)
    requires body != []
  {
    !c.rdPrevious && !(body[0].q.syntaxError && reduce)
  }

  lemma WorkFails(c: Conn, st: Stmt, body: seq<Sending>, reduce: bool)
    requires WorkCall(c, st, body) && SendAll(c, body, reduce, st).0.srv.status.InError?
    ensures var c1 := SendAll(c, body, reduce, st).0;
            && c1.accessed && c1.srv.committed == c.srv.committed
            && (c1.started && c1.svp <==> SavepointHolds(c, body, reduce))
            && (SavepointHolds(c, body, reduce) ==> TakenAt(c, body, reduce, st, c) == c)
  {
    var (c1, ok) := Send(c, body[0], reduce, Some(st));
    if ok {
      FirstQuerySucceeds(c, st, body, reduce);
      FirstIsSound(c, st, body, reduce);
      UnderwayTaken(c1, st, body[1..], reduce, c);
    } else {
      SendFails(c, st, body[0], reduce);
      if SavepointHolds(c, body, reduce) { SentWorkKeepsSvp(c, st, body[0], reduce); }
    }
  }

  /** A first text refused for its syntax does not succeed. */
  lemma FirstIsSound(c: Conn, st: Stmt, body: seq<Sending>, reduce: bool)
    requires WorkCall(c, st, body) && Send(c, body[0], reduce, Some(st)).1
    ensures !body[0].q.syntaxError
  {
    SendShape(c, st, body[0], reduce);
  }

  /** Exactly when earlier work survives a call that the server fails. */
  lemma EarlierWorkSurvivesIff(c: Conn, st: Stmt, body: seq<Sending>, reduce: bool, ret: Ret, errorOnly: bool)
    requires WorkCall(c, st, body) && SendAll(c, body, reduce, st).0.srv.status.InError?
    ensures var s := ApiCall(c, st, body, reduce, ret, errorOnly).srv;
            var kept := SavepointHolds(c, body, reduce);
            && s.committed == c.srv.committed
            && s.pending == (if kept then c.srv.pending else [])
            && s.status == (if kept then InTrans else Idle)
            && (kept ==> UserMarks(s.stack) == UserMarks(c.srv.stack))
  {
    WorkFails(c, st, body, reduce);
    FailedCall(c, st, body, reduce, ret, errorOnly, c);
  }

  // ----- The first query outside a transaction -----

  function Effects(cmds: seq<Cmd>): seq<int>
    requires OnlyWork(cmds)
  {
    if cmds == [] then [] else cmds[0].effect + Effects(cmds[1..])
  }

  lemma {:induction false} WorkAdds(s: State, cmds: seq<Cmd>)
    requires OnlyWork(cmds) && !s.status.InError? && AllDone(RunFrom(s, cmds).1)
    ensures RunFrom(s, cmds).0 == s.(pending := s.pending + Effects(cmds))
    decreases |cmds|
  {
    if cmds == [] {
      assert s.pending + [] == s.pending;
    } else {
      var (s1, r) := Exec(s, cmds[0]);
      var rs := RunFrom(s, cmds).1;
      assert rs[0].Done?;
      assert RunFrom(s1, cmds[1..]).1 == rs[1..];
      WorkAdds(s1, cmds[1..]);
      assert (s.pending + cmds[0].effect) + Effects(cmds[1..]) == s.pending + Effects(cmds);
    }
  }

  /** Outside a transaction, without autocommit a query that succeeds opens one and its work is pending; with
      autocommit its work is committed at once. */
  lemma FirstQuery(c: Conn, st: Stmt, m: Sending, reduce: bool)
    requires Inv(c) && c.srv.status.Idle? && m.q.cmds != [] && OnlyWork(m.q.cmds)
    requires Send(c, m, reduce, Some(st)).1
    ensures var (s, e) := (Send(c, m, reduce, Some(st)).0.srv, Effects(m.q.cmds));
            if m.go then s == c.srv.(status := InTrans, pending := e)
            else s == c.srv.(committed := c.srv.committed + e)
  {
    var q := if m.go then m.q.(cmds := [Begin] + m.q.cmds) else m.q;
    var c0 := Enter(c, m, reduce, Some(st)).0;
    assert Send(c, m, reduce, Some(st)) == SendBatch(c0, q, m.go) && c0.srv == c.srv;
    SendBatchSrv(c0, q, m.go);
    var (s1, rs) := RunFrom(c.srv, q.cmds);
    if m.go {
      RunCons(c.srv, Begin, m.q.cmds);
      assert forall i :: 0 <= i < |rs| - 1 ==> rs[1..][i] == rs[i + 1];
      WorkAdds(c.srv.(status := InTrans), m.q.cmds);
    } else {
      WorkAdds(c.srv, m.q.cmds);
    }
    assert c.srv.pending + Effects(m.q.cmds) == Effects(m.q.cmds);
  }

  // ----- Calls without a savepoint of their own -----

  /** A call without statement-level rollback that does work in a sound transaction. */
  predicate PlainCall(c: Conn, st: Stmt, body: seq<Sending>) {
    Inv(c) && c.srv.status.InTrans? && !c.started && !st.rb && WorkBody(body)
  }

  lemma PlainSend(c: Conn, st: Stmt, m: Sending, reduce: bool)
    requires PlainCall(c, st, [m])
    ensures Send(c, m, reduce, Some(st)) ==
            SendBatch(c.(rdInProgress := c.rdInProgress && m.readOnly, accessed := c.accessed || st.ordinary), m.q,
                      false)
  {
    assert [m][0].q.cmds != [];
  }

  lemma PlainSent(c: Conn, st: Stmt, m: Sending, reduce: bool)
    requires PlainCall(c, st, [m])
    requires Send(c, m, reduce, Some(st)).1 || Send(c, m, reduce, Some(st)).0.srv.status.InError?
    ensures var (c1, ok) := Send(c, m, reduce, Some(st));
            && Inv(c1) && c1.srv.committed == c.srv.committed && !c1.started
            && c1.accessed == (c.accessed || st.ordinary)
            && (ok ==> c1.srv.status.InTrans?) && (c1.srv.status.InError? ==> !ok)
  {
    var c0 := c.(rdInProgress := c.rdInProgress && m.readOnly, accessed := c.accessed || st.ordinary);
    assert OnlyWork([m][0].q.cmds);
    PlainSend(c, st, m, reduce);
    SendBatchKeeps(c0, m.q, false);
    if SendBatch(c0, m.q, false).1 { SendBatchSucceeds(c0, m.q); }
    if SendBatch(c0, m.q, false).0.srv.status.InError? { SendBatchFails(c0, m.q); }
  }

  lemma {:induction false} PlainCallFails(c: Conn, st: Stmt, body: seq<Sending>, reduce: bool)
    requires PlainCall(c, st, body) && SendAll(c, body, reduce, st).0.srv.status.InError?
    ensures var c1 := SendAll(c, body, reduce, st).0;
            && Inv(c1) && c1.srv.committed == c.srv.committed && !c1.started
            && c1.accessed == (c.accessed || st.ordinary)
    decreases |body|
  {
    if body != [] {
      assert OnlyWork(body[0].q.cmds) && body[0].q.cmds != [];
      PlainSent(c, st, body[0], reduce);
      var (c1, ok) := Send(c, body[0], reduce, Some(st));
      if ok { PlainCallFails(c1, st, body[1..], reduce); }
    }
  }

  /** Of any work body that the server fails, without statement-level rollback: with transaction-level rollback the
      whole transaction is abandoned and the server idle; otherwise, and for transaction commands and the like, the
      transaction stays in error. In no case is anything committed. */
  lemma FailureWithoutSavepoint(c: Conn, st: Stmt, body: seq<Sending>, reduce: bool, ret: Ret, errorOnly: bool)
    requires PlainCall(c, st, body) && !c.accessed && SendAll(c, body, reduce, st).0.srv.status.InError?
    ensures var s := ApiCall(c, st, body, reduce, ret, errorOnly).srv;
            && s.committed == c.srv.committed
            && (if st.tc && st.ordinary then s.status == Idle && s.pending == [] && s.stack == []
                else s.status == InError)
  {
    var c1 := SendAll(c, body, reduce, st).0;
    PlainCallFails(c, st, body, reduce);
    assert forall i :: 0 <= i < |body| ==> OneTransaction(body[i].q.cmds);
    SendAllHolds(c, body, reduce, st, c);
    DiscardInError(c1, st, c1, errorOnly);
  }

  /** A call that fails right after a successful one: the work survives exactly if the first call did not count as
      read-only. */
  lemma FailureAfterSuccess(c: Conn, st: Stmt, a: seq<Sending>, b: seq<Sending>, reduce: bool)
    requires WorkCall(c, st, a) && WorkBody(b) && b != [] && !b[0].q.syntaxError && c.rdInProgress
    requires SendAll(c, a, reduce, st).1
    requires SendAll(ApiCall(c, st, a, reduce, Success, false), b, reduce, st).0.srv.status.InError?
    ensures var c1 := ApiCall(c, st, a, reduce, Success, false);
            var s := ApiCall(c1, st, b, reduce, Success, false).srv;
            var readOnly := if c.rdPrevious then AllReadOnly(a) else a[0].readOnly;
            s.pending == (if readOnly then [] else c1.srv.pending) && s.status.InTrans? == !readOnly
  {
    SuccessfulCall(c, st, a, reduce);
    EarlierWorkSurvivesIff(ApiCall(c, st, a, reduce, Success, false), st, b, reduce, Success, false);
  }

  // ----- From one call to the next -----

  /** After every call that is over, success or failure, nothing of it is left in the bits of the rollback point. */
  lemma CallLeavesNoBits(c: Conn, st: Stmt, body: seq<Sending>, reduce: bool, ret: Ret, errorOnly: bool)
    requires !SendAll(c, body, reduce, st).1 || ret.Failure? || (ret.Success? && !errorOnly)
    ensures var c2 := ApiCall(c, st, body, reduce, ret, errorOnly); !c2.accessed && !c2.started
  {
  }

  /** The end of a transaction and the start of the next. */
  function Renewed(c: Conn, commit: bool): Conn {
    Next(Next(c, Transact(commit, false)), Start)
  }

  lemma RenewedIs(c: Conn, commit: bool)
    requires Inv(c) && c.inTrans
    ensures var c1 := Renewed(c, commit);
            && Inv(c1) && c1.srv.status.InTrans? && c1.srv.pending == [] && c1.srv.stack == []
            && !c1.accessed && !c1.started && c1.rdInProgress && c1.rdPrevious
  {
    var c0 := Next(c, Transact(commit, false));
    if commit { CommitEffect(c, false); CommitResets(c); } else { RollbackEffect(c); AbortEffect(c); }
    BeginEffect(c0);
    BeginKeepsBits(c0);
  }

  lemma CommitResets(c: Conn)
    requires Inv(c) && c.inTrans
    ensures var c1 := CommitTrans(c, false);
            !c1.inTrans && !c1.accessed && !c1.started && c1.rdInProgress && c1.rdPrevious
  {
    RunOne(c.srv, Commit(false));
    var (s, rs) := Run(c.srv, Query([Commit(false)], false));
    RepliesOne(Progress(c.(srv := s), false, false, false), rs[0]);
    UpdateStatusAgrees(OneReply(Progress(c.(srv := s), false, false, false), rs[0]).c);
  }

  lemma BeginKeepsBits(c: Conn)
    requires Inv(c) && !c.inTrans
    ensures var c1 := BeginTrans(c);
            c1 == c.(inTrans := true, inError := false, discards := c1.discards, srv := c.srv.(status := InTrans))
  {
    RunOne(c.srv, Begin);
    var s := Run(c.srv, Query([Begin], false)).0;
    RepliesOne(Progress(c.(srv := s), false, false, false), Done(TagBegin));
    if c.inError { DiscardMarkedNeutral(c.(inTrans := true, inError := false, srv := s)); }
  }

  /** In a new transaction, a call that fails behind a successful one: the work of the first survives if and only if not
      all of its queries were read-only. */
  lemma FirstTwoCalls(c: Conn, commit: bool, st: Stmt, a: seq<Sending>, b: seq<Sending>, reduce: bool)
    requires Inv(c) && c.inTrans && st.rb && st.ordinary && WorkBody(a) && a != [] && WorkBody(b) && b != []
    requires !b[0].q.syntaxError && SendAll(Renewed(c, commit), a, reduce, st).1
    requires SendAll(ApiCall(Renewed(c, commit), st, a, reduce, Success, false), b, reduce, st).0.srv.status.InError?
    ensures var c1 := ApiCall(Renewed(c, commit), st, a, reduce, Success, false);
            var s := ApiCall(c1, st, b, reduce, Success, false).srv;
            s.pending == (if AllReadOnly(a) then [] else c1.srv.pending) && s.status.InTrans? == !AllReadOnly(a)
  {
    RenewedIs(c, commit);
    FailureAfterSuccess(Renewed(c, commit), st, a, b, reduce);
  }

  /** A rollback to one of the application's own savepoints makes the driver careful again: a call that fails right
      behind it keeps the work restored. */
  lemma FailureAfterOwnRollback(c: Conn, id: int, st: Stmt, body: seq<Sending>, reduce: bool)
    requires Inv(c) && c.inTrans && !c.started && Find(c.srv.stack, User(id)) >= 0
    requires st.rb && st.ordinary && WorkBody(body) && body != [] && !body[0].q.syntaxError
    requires var c1 := SendBatch(c, Query([RollbackTo(User(id))], false), false).0;
             SendAll(c1, body, reduce, st).0.srv.status.InError?
    ensures var c1 := SendBatch(c, Query([RollbackTo(User(id))], false), false).0;
            var s := ApiCall(c1, st, body, reduce, Success, false).srv;
            && c1.srv.pending == c.srv.stack[Find(c.srv.stack, User(id))].snapshot
            && s.status.InTrans? && s.pending == c1.srv.pending
  {
    OwnRollback(c, id);
    var c1 := SendBatch(c, Query([RollbackTo(User(id))], false), false).0;
    EarlierWorkSurvivesIff(c1, st, body, reduce, Success, false);
  }

  lemma OwnRollback(c: Conn, id: int)
    requires Inv(c) && c.inTrans && !c.started && Find(c.srv.stack, User(id)) >= 0
    ensures var c1 := SendBatch(c, Query([RollbackTo(User(id))], false), false).0;
            && Inv(c1) && c1.srv.status.InTrans? && !c1.started && !c1.rdPrevious && c1.rdInProgress
            && c1.srv.pending == c.srv.stack[Find(c.srv.stack, User(id))].snapshot
  {
    var q := Query([RollbackTo(User(id))], false);
    SendBatchKeeps(c, q, false);
    RunOne(c.srv, RollbackTo(User(id)));
    var s := Run(c.srv, q).0;
    RepliesOne(Progress(c.(srv := s), false, false, false), Done(TagRollback));
    UpdateStatusAgrees(OneReply(Progress(c.(srv := s), false, false, false), Done(TagRollback)).c);
  }

  // ----- A savepoint that is claimed but not there -----

  /** In step with a server inside a transaction that has no savepoint of the driver, which the driver claims all the
      same: what "COMMIT; BEGIN" in one text leaves behind. */
  predicate FalseClaim(c: Conn) {
    Agree(c) && Settled(c.srv) && !c.committing && c.op.NoOp? && c.inTrans && c.svp && Find(c.srv.stack, Driver) < 0
  }

  /** The rollback of a failed statement then fails itself, and the transaction stays in error. */
  lemma FalseClaimCannotRollBack(c: Conn)
    requires FalseClaim(c) && c.inError
    ensures InternalRollback(c) == (c, false)
  {
  }

  /** And the next statement that wants a savepoint of its own fails before its query is sent. */
  lemma FalseClaimStopsNext(c: Conn, st: Stmt, m: Sending)
    requires FalseClaim(c) && !c.inError && !c.started && !c.rdPrevious && st.rb && st.ordinary && m.q.cmds != []
    ensures var (c1, ok) := Send(c, m, false, Some(st));
            !ok && c1.inError && c1.srv == c.srv.(status := InError)
  {
    var c0 := c.(rdInProgress := c.rdInProgress && m.readOnly, op := SavepointInProgress);
    var q := Query(SavepointCommands(true), false);
    assert q.cmds == [Release(Driver)] + [Savepoint(Driver)];
    RunCons(c.srv, Release(Driver), [Savepoint(Driver)]);
    var s := c.srv.(status := InError);
    assert Run(c.srv, q) == (s, [Error]);
    RepliesOne(Progress(c0.(srv := s), false, false, false), Error);
    assert !SendBatch(c0, q, false).1 by { assert Run(c.srv, q).1[0].Error?; }
    assert SendBatch(c0, q, false).0 == c0.(srv := s, inError := true);
  }

  lemma FalseClaimArises(c: Conn)
    requires Inv(c) && c.svp && c.srv.status.InTrans?
    ensures FalseClaim(SendBatch(c, Query([Commit(false), Begin], false), false).0)
  {
    var q, s := Query([Commit(false), Begin], false), Exec(c.srv, Commit(false)).0;
    var s1 := s.(status := InTrans);
    RunCons(c.srv, Commit(false), [Begin]);
    assert [Commit(false)] + [Begin] == q.cmds;
    RunOne(s, Begin);
    assert Run(c.srv, q) == (s1, [Done(TagCommit)] + [Done(TagBegin)]);
    var p := Progress(c.(srv := s1), false, false, false);
    RepliesCons(p, Done(TagCommit), [Done(TagBegin)]);
    RepliesOne(OneReply(p, Done(TagCommit)), Done(TagBegin));
  }

  // ----- Calls that send nothing or are not over -----

  /** A query without commands fails and leaves everything as it is. */
  lemma NothingToSend(c: Conn, m: Sending, reduce: bool, stmt: Option<Stmt>)
    requires m.q.cmds == []
    ensures Send(c, m, reduce, stmt) == (c, false)
  {
  }

  /** A call without queries succeeds at the server; a call that still needs data is not closed. */
  lemma CallsInBetween(c: Conn, st: Stmt, reduce: bool, errorOnly: bool)
    ensures SendAll(c, [], reduce, st) == (c, true)
    ensures DiscardStatementSvp(c, st, NeedData, errorOnly) == c && DiscardStatementSvp(c, st, Success, true) == c
  {
  }

  /** Objects are marked one by one, and a commit or rollback discards them all, each with a query that succeeds. */
  lemma {:induction false} MarkedObjects(c: Conn, n: nat)
    ensures RunSteps(c, seq(n, _ => MarkObject)) == c.(discards := c.discards + n)
    decreases n
  {
    if n > 0 {
      var steps := seq(n, _ => MarkObject);
      assert steps == [MarkObject] + seq(n - 1, _ => MarkObject) && steps[1..] == seq(n - 1, _ => MarkObject);
      MarkedObjects(c.(discards := c.discards + 1), n - 1);
    }
  }

  lemma DiscardSucceeds(c: Conn)
    requires InStep(c)
    ensures AllDone(Run(c.srv, DiscardQuery(c)).1)
  {
    if c.inTrans { BracketedRun(c.srv); } else { RunOne(c.srv, Work([], false)); }
  }
}
