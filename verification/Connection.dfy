/** The connection object of connection.c: the steps of Protocol.dfy carried out in place. */
module Connection {
  import opened Basics
  import opened Server
  import opened Protocol
  import ProtocolProofs

  class ConnectionClass {
    var inTrans: bool
    var inError: bool
    var svp: bool
    var op: Op
    var accessed: bool
    var started: bool
    var rdInProgress: bool
    var rdPrevious: bool
    var committing: bool
    var discards: nat
    var srv: State  // stands for the session behind the libpq handle

    function View(): Conn
      reads this
    {
      Conn(inTrans, inError, svp, op, accessed, started, rdInProgress, rdPrevious, committing, discards, srv)
    }

    constructor ()
      ensures View() == CONNECTED
    {
      inTrans, inError, svp, op, accessed, started := false, false, false, NoOp, false, false;
      rdInProgress, rdPrevious, committing, discards, srv := true, true, false, 0, FRESH;
    }

    method InitSavepoints()
      modifies this
      ensures View() == SvpInit(old(View()))
    {
      svp, op := false, NoOp;
      rdInProgress, rdPrevious := true, true;
    }

    method StartStatement()
      modifies this
      ensures View() == StartStmt(old(View()))
    {
      accessed, started := false, false;
    }

    method ReceiveSavepoint(skipSavepoint: bool, skipRelease: bool) returns (savepoint: bool, release: bool)
      modifies this
      ensures Progress(View(), false, savepoint, release) ==
              OneReply(Progress(old(View()), false, skipSavepoint, skipRelease), Done(TagSavepoint))
    {
      savepoint, release := skipSavepoint, skipRelease;
      if savepoint {
        savepoint, release := false, true;
      } else if op == SavepointInProgress {
        started, svp := true, true;
        op := NoOp;
      } else {
        svp := false;
      }
    }

    method Receive(r: Reply, skipBegin: bool, skipSavepoint: bool, skipRelease: bool)
      returns (begin: bool, savepoint: bool, release: bool)
      modifies this
      ensures Progress(View(), begin, savepoint, release) ==
              OneReply(Progress(old(View()), skipBegin, skipSavepoint, skipRelease), r)
    {
      begin, savepoint, release := skipBegin, skipSavepoint, skipRelease;
      match r {
        case Error =>
          if inTrans { inError := true; }
        case Done(TagBegin) =>
          inTrans := true;
          begin := false;
        case Done(TagSavepoint) =>
          savepoint, release := ReceiveSavepoint(savepoint, release);
        case Done(TagRollback) =>
          ReceiveRollback();
        case Done(TagRelease) =>
          if release { release := false; } else { svp := false; }
        case Done(_) =>
      }
    }

    method ReceiveRollback()
      modifies this
      ensures View() == old(View()).(inError := true, svp := false, rdPrevious := false, rdInProgress := true)
    {
      inError := true;
      svp := false;
      rdPrevious := false;
      rdInProgress := true;
    }

    /** The loop over the results of one query. */
    method ReceiveAll(rs: seq<Reply>, skipBegin: bool, skipSavepoint: bool) returns (ok: bool)
      modifies this
      ensures View() == AllReplies(Progress(old(View()), skipBegin, skipSavepoint, false), rs).c
      ensures ok == AllDone(rs)
    {
      var begin, savepoint, release := skipBegin, skipSavepoint, false;
      ok := true;
      var i := 0;
      while i < |rs|
        invariant 0 <= i <= |rs|
        invariant ok == AllDone(rs[..i])
        invariant AllReplies(Progress(View(), begin, savepoint, release), rs[i..]) ==
                  AllReplies(Progress(old(View()), skipBegin, skipSavepoint, false), rs)
      {
        assert rs[i..][1..] == rs[i + 1..];
        assert rs[..i + 1] == rs[..i] + [rs[i]];
        begin, savepoint, release := Receive(rs[i], begin, savepoint, release);
        if rs[i].Error? { ok := false; }
        i := i + 1;
      }
      assert rs[..i] == rs;
    }

    method DiscardObject()
      modifies this
      ensures View() == DiscardOne(old(View())) && discards == old(discards)
    {
      var bracket := inTrans && !inError;
      var q := DiscardQuery(View());
      var (s, rs) := Run(srv, q);
      srv := s;
      ProtocolProofs.RepliesFrame(Progress(View(), false, bracket, false), rs);
      var _ := ReceiveAll(rs, false, bracket);
    }

    method DiscardNext()
      requires discards > 0
      modifies this
      ensures discards == old(discards) - 1
      ensures DiscardMarked(View(), discards) == DiscardMarked(old(View()), old(discards))
    {
      DiscardObject();
      discards := discards - 1;
    }

    /** Every marked object is discarded; in step with the server, nothing else changes. */
    method DiscardMarkedObjects()
      modifies this
      ensures View() == DiscardMarked(old(View()), old(discards)) && discards == 0
      ensures old(InStep(View())) ==> View() == old(View()).(discards := 0)
    {
      if InStep(View()) { ProtocolProofs.DiscardMarkedNeutral(View()); }
      var n := discards;
      while n > 0
        invariant n == discards
        invariant DiscardMarked(View(), n) == DiscardMarked(old(View()), old(discards))
      {
        DiscardNext();
        n := n - 1;
      }
    }

    /** Once the server is idle, the hook brings the driver in step: no transaction, no claim on a savepoint,
        nothing marked, the server untouched. While it runs it does nothing. */
    method RunCommitHook()
      modifies this
      ensures View() == OnCommit(old(View()))
      ensures old(committing) ==> View() == old(View())
      ensures old(Settled(srv) && srv.status.Idle? && !committing) ==>
                Agree(View()) && srv == old(srv) && discards == 0 && !svp && !started && !committing
    {
      if !committing && Settled(srv) && srv.status.Idle? { ProtocolProofs.CommitHookEffect(View()); }
      if committing { return; }
      LeaveTransaction();
      DiscardMarkedObjects();
      committing := false;
    }

    method LeaveTransaction()
      modifies this
      ensures var c := old(View());
              View() == StartStmt(SvpInit(c.(inTrans := false, inError := c.inError && !c.inTrans, committing := true)))
    {
      committing := true;
      if inTrans { inTrans, inError := false, false; }
      InitSavepoints();
      StartStatement();
    }

    /** The same after a transaction that was abandoned. */
    method RunAbortHook()
      modifies this
      ensures View() == OnAbort(old(View()))
      ensures old(Settled(srv) && srv.status.Idle? && inTrans) ==>
                Agree(View()) && srv == old(srv) && discards == 0 && !svp && !started && !inError
    {
      if Settled(srv) && srv.status.Idle? && inTrans { ProtocolProofs.AbortHookEffect(View()); }
      var ended := false;
      if inTrans {
        inTrans, inError := false, false;
        ended := true;
      }
      InitSavepoints();
      StartStatement();
      if ended { DiscardMarkedObjects(); }
    }

    /** Whatever the driver believed, afterwards it agrees with the server, which is untouched. */
    method UpdateTransactionStatus()
      modifies this
      ensures View() == UpdateStatus(old(View()))
      ensures old(Settled(srv) && !committing) ==> Agree(View()) && srv == old(srv) && !committing
    {
      if Settled(srv) && !committing { ProtocolProofs.UpdateStatusAgrees(View()); }
      match srv.status {
        case Idle =>
          if inTrans {
            if inError { RunAbortHook(); } else { RunCommitHook(); }
          }
        case InTrans =>
          inTrans := true;
          if inError {
            inError := false;
            DiscardMarkedObjects();
          }
        case InError =>
          inTrans := true;
          inError := true;
      }
    }

    method SendText(q: Query, skipBegin: bool) returns (ok: bool)
      modifies this
      ensures (View(), ok) == SendBatch(old(View()), q, skipBegin)
    {
      var (s, rs) := Run(srv, q);
      srv := s;
      ok := ReceiveAll(rs, skipBegin, false);
      UpdateTransactionStatus();
    }

    method SetSavepoint(st: Stmt, readOnly: bool, reduce: bool) returns (ok: bool)
      modifies this
      ensures (View(), ok) == SetStatementSvp(old(View()), st, readOnly, reduce)
    {
      if inError { return true; }
      rdInProgress := rdInProgress && readOnly;
      if !st.ordinary { return true; }
      ok := true;
      if !started && !rdPrevious {
        if st.rb && inTrans {
          if reduce {
            op := PrependInProgress;
            accessed := true;
            return;
          }
          var cmds := SavepointCommands(svp);
          op := SavepointInProgress;
          ok := SendText(Query(cmds, false), false);
          op := NoOp;
        }
      }
      accessed := true;
    }

    method SendWithPrefix(q: Query, issueBegin: bool) returns (ok: bool)
      modifies this
      ensures (View(), ok) == SendPrefixed(old(View()), q, issueBegin)
    {
      if issueBegin {
        ok := SendText(q.(cmds := [Begin] + q.cmds), true);
      } else if op == PrependInProgress {
        var cmds := SavepointCommands(svp);
        op := SavepointInProgress;
        ok := SendText(q.(cmds := cmds + q.cmds), false);
      } else {
        ok := SendText(q, false);
      }
    }

    /** From a safe state, a query that succeeds leaves a safe state; one that fails leaves at most a
        savepoint refused together with its text, which the discard makes good. */
    method SendQuery(m: Sending, reduce: bool, stmt: Option<Stmt>) returns (ok: bool)
      modifies this
      ensures (View(), ok) == Send(old(View()), m, reduce, stmt)
      ensures old(Inv(View())) && OneTransaction(m.q.cmds) && stmt.Some? ==>
                ProtocolProofs.Mid(View(), stmt.value) && (ok ==> Inv(View()))
    {
      if Inv(View()) && OneTransaction(m.q.cmds) && stmt.Some? {
        ProtocolProofs.SendKeeps(View(), m, reduce, stmt.value);
      }
      if m.q.cmds == [] { return false; }
      var issueBegin := m.go && !inTrans;
      var consider := issueBegin || (inTrans && !inError) || m.q.cmds[0].Begin?;
      if consider && stmt.Some? && !started {
        ok := SetSavepoint(stmt.value, m.readOnly, reduce);
        if !ok {
          UpdateTransactionStatus();
          return;
        }
      }
      ok := SendWithPrefix(m.q, issueBegin);
    }

    /** With a valid savepoint the rollback cannot fail and restores the work pending when it was set. */
    method RollbackStatement() returns (ok: bool)
      modifies this
      ensures (View(), ok) == InternalRollback(old(View()))
      ensures old(Inv(View()) && svp) ==> ok && Inv(View())
      ensures old(Inv(View()) && svp && inError) ==>
                srv == old(srv).(status := InTrans, pending := old(srv.stack[|srv.stack| - 1].snapshot))
    {
      if Inv(View()) && svp { ProtocolProofs.InternalRollbackEffect(View()); }
      if !inError { return true; }
      var (s, r) := Exec(srv, RollbackCommand(svp));
      srv := s;
      ok := r.Done?;
      if !ok && inTrans { inError := true; }
      UpdateTransactionStatus();
    }

    method BeginTransaction()
      modifies this
      ensures View() == BeginTrans(old(View()))
    {
      if !inTrans { var _ := SendText(Query([Begin], false), false); }
    }

    method CommitTransaction(fails: bool)
      modifies this
      ensures View() == CommitTrans(old(View()), fails)
    {
      if inTrans { var _ := SendText(Query([Commit(fails)], false), false); }
    }

    method AbortTransaction()
      modifies this
      ensures View() == AbortTrans(old(View()))
    {
      if inTrans { var _ := SendText(Query([Rollback], false), false); }
    }

    /** The failing call is undone: back to its savepoint, or the transaction is abandoned. */
    method UndoCall()
      modifies this
      ensures View() == UndoFailure(old(View()))
    {
      if started && svp {
        var _ := RollbackStatement();
      } else {
        AbortTransaction();
      }
    }

    method CloseCall(ret: Ret, errorOnly: bool)
      modifies this
      ensures View() == EndOfCall(old(View()), ret, errorOnly)
    {
      if ret == Failure || (ret == Success && !errorOnly) {
        if ret != Failure && accessed {
          rdPrevious := rdInProgress;
          rdInProgress := true;
        }
        StartStatement();
      }
    }

    /** Whatever the queries of a call left behind, the state is safe again. */
    method DiscardSavepoint(st: Stmt, ret: Ret, errorOnly: bool)
      modifies this
      ensures View() == DiscardStatementSvp(old(View()), st, ret, errorOnly)
      ensures old(ProtocolProofs.Mid(View(), st) && (op.NoOp? || ret.Failure?)) ==> Inv(View())
    {
      if ProtocolProofs.Mid(View(), st) && (op.NoOp? || ret.Failure?) {
        ProtocolProofs.DiscardKeeps(View(), st, ret, errorOnly);
      }
      if accessed && inTrans && (st.rb || st.tc) {
        if ret == Failure {
          UndoCall();
        } else if errorOnly {
          return;
        }
      }
      CloseCall(ret, errorOnly);
    }

    /** One ODBC call: its queries up to the first that fails, then the discard. The invariant is kept. */
    method Execute(st: Stmt, body: seq<Sending>, reduce: bool, ret: Ret, errorOnly: bool)
      modifies this
      requires Inv(View())
      requires forall i :: 0 <= i < |body| ==> OneTransaction(body[i].q.cmds)
      ensures View() == ApiCall(old(View()), st, body, reduce, ret, errorOnly)
      ensures Inv(View())
    {
      ProtocolProofs.NextKeeps(View(), Call(st, body, reduce, ret, errorOnly));
      var ok, i := true, 0;
      while i < |body| && ok
        invariant 0 <= i <= |body|
        invariant SendAll(old(View()), body, reduce, st) ==
                  if ok then SendAll(View(), body[i..], reduce, st) else (View(), false)
      {
        assert body[i..][1..] == body[i + 1..];
        ok := SendQuery(body[i], reduce, Some(st));
        i := i + 1;
      }
      assert ok ==> body[i..] == [];
      DiscardSavepoint(st, if ok then ret else Failure, errorOnly);
    }
  }
}
