/** Transaction and savepoint bookkeeping of one connection, as steps of
    (driver state, server state): connection.c, connection.h and execute.c.
    The imperative form of these steps is in Connection.dfy. */
module Protocol {
  import opened Basics
  import opened Server

  datatype Op = NoOp | SavepointInProgress | PrependInProgress

  /** `inTrans`, `inError`: bits of transact_status. `svp`, `op`: internal_svp, internal_op.
      `accessed`, `started`: the database-accessed and rollback-point-started bits of rbonerr.
      `rdInProgress`, `rdPrevious`: the read-only bit of opt_in_progress and opt_previous.
      `discards`: number of marked objects; `srv`: the server behind the connection. */
  datatype Conn = Conn(
    inTrans: bool, inError: bool,
    svp: bool, op: Op,
    accessed: bool, started: bool,
    rdInProgress: bool, rdPrevious: bool,
    committing: bool, discards: nat,
    srv: State)

  /** Statement attributes: statement- or transaction-level rollback on error, and whether
      the statement is neither a transaction command nor a special utility command. */
  datatype Stmt = Stmt(rb: bool, tc: bool, ordinary: bool)

  datatype Ret = Success | NeedData | Failure

  const CONNECTED: Conn :=
    Conn(false, false, false, NoOp, false, false, true, true, false, 0, FRESH)

  function SvpInit(c: Conn): Conn {
    c.(svp := false, op := NoOp, rdInProgress := true, rdPrevious := true)
  }

  function StartStmt(c: Conn): Conn {
    c.(accessed := false, started := false)
  }

  /** Receiving the results of one query: the connection, plus which results of commands
      inserted by the driver are still to be swallowed. */
  datatype Progress = Progress(c: Conn, skipBegin: bool, skipSavepoint: bool, skipRelease: bool)

  function OneReply(p: Progress, r: Reply): Progress {
    var c := p.c;
    match r
    case Error => p.(c := if c.inTrans then c.(inError := true) else c)
    case Done(TagBegin) => p.(c := c.(inTrans := true), skipBegin := false)
    case Done(TagSavepoint) =>
      if p.skipSavepoint then p.(skipSavepoint := false, skipRelease := true)
      else if c.op.SavepointInProgress? then p.(c := c.(svp := true, started := true, op := NoOp))
      else p.(c := c.(svp := false))
    case Done(TagRollback) =>
      p.(c := c.(inError := true, svp := false, rdPrevious := false, rdInProgress := true))
    case Done(TagRelease) =>
      if p.skipRelease then p.(skipRelease := false) else p.(c := c.(svp := false))
    case Done(_) => p
  }

  function AllReplies(p: Progress, rs: seq<Reply>): Progress
    decreases |rs|
  {
    if rs == [] then p else AllReplies(OneReply(p, rs[0]), rs[1..])
  }

  predicate AllDone(rs: seq<Reply>) {
    forall i :: 0 <= i < |rs| ==> rs[i].Done?
  }

  /** The query that discards one marked object, sent with ROLLBACK_ON_ERROR: inside a sound
      transaction it is bracketed by the per-query savepoint. The status update that ends it finds
      nothing to do wherever the hooks discard objects (ProtocolProofs.NestedStatusUpdate). */
  function DiscardQuery(c: Conn): Query {
    if c.inTrans && !c.inError
    then Query([Savepoint(PerQuery), Work([], false), Release(PerQuery)], false)
    else Query([Work([], false)], false)
  }

  function DiscardOne(c: Conn): Conn {
    var (s, rs) := Run(c.srv, DiscardQuery(c));
    AllReplies(Progress(c.(srv := s), false, c.inTrans && !c.inError, false), rs).c
  }

  function DiscardMarked(c: Conn, n: nat): Conn
    decreases n
  {
    if n == 0 then c
    else var c1 := DiscardOne(c);
      DiscardMarked(c1.(discards := n - 1), n - 1)
  }

  function OnCommit(c: Conn): Conn {
    if c.committing then c
    else
      var c1 := StartStmt(SvpInit(c.(inTrans := false, inError := c.inError && !c.inTrans, committing := true)));
      DiscardMarked(c1, c1.discards).(committing := false)
  }

  /** The NO_TRANS form of the abort hook. */
  function OnAbort(c: Conn): Conn {
    var c1 := StartStmt(SvpInit(c.(inTrans := false, inError := c.inError && !c.inTrans)));
    if c.inTrans then DiscardMarked(c1, c1.discards) else c1
  }

  function OnAbortPartial(c: Conn): Conn {
    DiscardMarked(c, c.discards)
  }

  /** LIBPQ_update_transaction_status on an idle connection. */
  function UpdateStatus(c: Conn): Conn {
    match c.srv.status
    case Idle => if !c.inTrans then c else if c.inError then OnAbort(c) else OnCommit(c)
    case InTrans =>
      if c.inError then OnAbortPartial(c.(inTrans := true, inError := false)) else c.(inTrans := true)
    case InError => c.(inTrans := true, inError := true)
  }

  /** Sends one query text and digests its results. */
  function SendBatch(c: Conn, q: Query, skipBegin: bool): (Conn, bool) {
    var (s, rs) := Run(c.srv, q);
    (UpdateStatus(AllReplies(Progress(c.(srv := s), skipBegin, false, false), rs).c), AllDone(rs))
  }

  function SavepointCommands(svp: bool): seq<Cmd> {
    (if svp then [Release(Driver)] else []) + [Savepoint(Driver)]
  }

  function RollbackCommand(svp: bool): Cmd {
    if svp then RollbackTo(Driver) else Rollback
  }

  function SetStatementSvp(c: Conn, st: Stmt, readOnly: bool, reduce: bool): (Conn, bool) {
    if c.inError then (c, true)
    else
      var c1 := c.(rdInProgress := c.rdInProgress && readOnly);
      if !st.ordinary then (c1, true)
      else if !c1.started && !c1.rdPrevious && st.rb && c1.inTrans then
        if reduce then (c1.(op := PrependInProgress, accessed := true), true)
        else
          var (c2, ok) := SendBatch(c1.(op := SavepointInProgress), Query(SavepointCommands(c1.svp), false), false);
          (c2.(op := NoOp, accessed := true), ok)
      else (c1.(accessed := true), true)
  }

  datatype Sending = Sending(q: Query, go: bool, readOnly: bool)

  /** The text actually sent: a BEGIN or the savepoint commands may go in front of the query. */
  function SendPrefixed(c: Conn, q: Query, issueBegin: bool): (Conn, bool) {
    if issueBegin then SendBatch(c, q.(cmds := [Begin] + q.cmds), true)
    else if c.op.PrependInProgress? then
      SendBatch(c.(op := SavepointInProgress), q.(cmds := SavepointCommands(c.svp) + q.cmds), false)
    else SendBatch(c, q, false)
  }

  predicate IssuesBegin(c: Conn, m: Sending) {
    m.go && !c.inTrans
  }

  /** The savepoint, unless the query cannot matter to it or the rollback point is already there. */
  function Enter(c: Conn, m: Sending, reduce: bool, stmt: Option<Stmt>): (Conn, bool)
    requires m.q.cmds != []
  {
    var consider := IssuesBegin(c, m) || (c.inTrans && !c.inError) || m.q.cmds[0].Begin?;
    if consider && stmt.Some? && !c.started then SetStatementSvp(c, stmt.value, m.readOnly, reduce) else (c, true)
  }

  /** CC_send_query_append for a query that does not carry ROLLBACK_ON_ERROR or END_WITH_COMMIT. */
  function Send(c: Conn, m: Sending, reduce: bool, stmt: Option<Stmt>): (Conn, bool) {
    if m.q.cmds == [] then (c, false)
    else
      var (c1, ok) := Enter(c, m, reduce, stmt);
      if !ok then (UpdateStatus(c1), false) else SendPrefixed(c1, m.q, IssuesBegin(c, m))
  }

  /** CC_internal_rollback, per-statement form: the command bypasses CC_send_query_append. */
  function InternalRollback(c: Conn): (Conn, bool) {
    if !c.inError then (c, true)
    else
      var (s, r) := Exec(c.srv, RollbackCommand(c.svp));
      var c1 := c.(srv := s);
      if r.Done? then (UpdateStatus(c1), true)
      else (UpdateStatus(if c1.inTrans then c1.(inError := true) else c1), false)
  }

  function BeginTrans(c: Conn): Conn {
    if c.inTrans then c else SendBatch(c, Query([Begin], false), false).0
  }

  function CommitTrans(c: Conn, fails: bool): Conn {
    if c.inTrans then SendBatch(c, Query([Commit(fails)], false), false).0 else c
  }

  function AbortTrans(c: Conn): Conn {
    if c.inTrans then SendBatch(c, Query([Rollback], false), false).0 else c
  }

  function EndOfCall(c: Conn, ret: Ret, errorOnly: bool): Conn {
    if ret.Failure? then StartStmt(c)
    else if ret.Success? && !errorOnly then
      StartStmt(if c.accessed then c.(rdPrevious := c.rdInProgress, rdInProgress := true) else c)
    else c
  }

  /** What undoes a failing call: the rollback to its savepoint, or of the whole transaction. */
  function UndoFailure(c: Conn): Conn {
    if c.started && c.svp then InternalRollback(c).0 else AbortTrans(c)
  }

  function DiscardStatementSvp(c: Conn, st: Stmt, ret: Ret, errorOnly: bool): Conn {
    if !c.accessed || !c.inTrans || (!st.rb && !st.tc) then EndOfCall(c, ret, errorOnly)
    else if ret.Failure? then EndOfCall(UndoFailure(c), ret, errorOnly)
    else if errorOnly then c
    else EndOfCall(c, ret, errorOnly)
  }

  function SendAll(c: Conn, body: seq<Sending>, reduce: bool, st: Stmt): (Conn, bool)
    decreases |body|
  {
    if body == [] then (c, true)
    else
      var (c1, ok) := Send(c, body[0], reduce, Some(st));
      if ok then SendAll(c1, body[1..], reduce, st) else (c1, false)
  }

  /** What can happen on a connection between two calls of the application. */
  datatype Step =
    | Call(st: Stmt, body: seq<Sending>, reduce: bool, ret: Ret, errorOnly: bool)
    | Transact(commit: bool, fails: bool)
    | Start
    | MarkObject

  /** One ODBC call: the queries it sends, up to the first that fails, and the discard that closes it. */
  function ApiCall(c: Conn, st: Stmt, body: seq<Sending>, reduce: bool, ret: Ret, errorOnly: bool): Conn {
    var (c1, ok) := SendAll(c, body, reduce, st);
    DiscardStatementSvp(c1, st, if ok then ret else Failure, errorOnly)
  }

  function Next(c: Conn, step: Step): Conn {
    match step
    case Call(st, body, reduce, ret, errorOnly) => ApiCall(c, st, body, reduce, ret, errorOnly)
    case Transact(commit, fails) => if commit then CommitTrans(c, fails) else AbortTrans(c)
    case Start => BeginTrans(c)
    case MarkObject => c.(discards := c.discards + 1)
  }

  function RunSteps(c: Conn, steps: seq<Step>): Conn
    decreases |steps|
  {
    if steps == [] then c else RunSteps(Next(c, steps[0]), steps[1..])
  }

  // ----- The invariant -----

  /** The driver's picture of the transaction is the server's. */
  predicate Agree(c: Conn) {
    && c.inTrans == !c.srv.status.Idle?
    && (c.inTrans ==> c.inError == c.srv.status.InError?)
  }

  /** In step with a server that is not in error: the states in which the hooks discard objects. */
  predicate InStep(c: Conn) {
    Agree(c) && Settled(c.srv) && !c.srv.status.InError?
  }

  /** internal_svp is set only while the driver's savepoint is the innermost one. */
  predicate SvpOnTop(c: Conn) {
    c.svp ==> c.inTrans && c.srv.stack != [] && c.srv.stack[|c.srv.stack| - 1].name == Driver
  }

  predicate Inv(c: Conn) {
    Agree(c) && SvpOnTop(c) && !c.committing && c.op.NoOp? && Settled(c.srv)
  }

  /** No command of the text starts a transaction after one that ends a transaction. */
  predicate OneTransaction(cmds: seq<Cmd>) {
    forall i, j :: 0 <= i < j < |cmds| && (cmds[i].Commit? || cmds[i].Rollback?) ==> !cmds[j].Begin?
  }

  predicate ValidStep(step: Step) {
    step.Call? ==> forall i :: 0 <= i < |step.body| ==> OneTransaction(step.body[i].q.cmds)
  }
}
