/** What every run of the transaction protocol keeps, and what a failed statement leaves. */
module ProtocolProofs {
  import opened Basics
  import opened Server
  import opened Protocol

  lemma RepliesCons(p: Progress, r: Reply, rs: seq<Reply>)
    ensures AllReplies(p, [r] + rs) == AllReplies(OneReply(p, r), rs)
  {
    assert ([r] + rs)[1..] == rs;
  }

  lemma RepliesOne(p: Progress, r: Reply)
    ensures AllReplies(p, [r]) == OneReply(p, r)
  {
    RepliesCons(p, r, []);
    assert [r] + [] == [r];
  }

  lemma SavepointFrame(p: Progress)
    ensures OneReply(p, Done(TagSavepoint)).c.srv == p.c.srv
    ensures OneReply(p, Done(TagSavepoint)).c.discards == p.c.discards
    ensures OneReply(p, Done(TagSavepoint)).c.committing == p.c.committing
  {
    if !p.skipSavepoint && p.c.op.SavepointInProgress? {
      assert OneReply(p, Done(TagSavepoint)).c == p.c.(svp := true, started := true, op := NoOp);
    }
  }

  lemma ReleaseFrame(p: Progress)
    ensures OneReply(p, Done(TagRelease)).c.srv == p.c.srv
    ensures OneReply(p, Done(TagRelease)).c.discards == p.c.discards
    ensures OneReply(p, Done(TagRelease)).c.committing == p.c.committing
  {
    if !p.skipRelease { assert OneReply(p, Done(TagRelease)).c == p.c.(svp := false); }
  }

  /** Results never touch the server or the list of marked objects. */
  lemma ReplyFrame(p: Progress, r: Reply)
    ensures OneReply(p, r).c.srv == p.c.srv && OneReply(p, r).c.discards == p.c.discards
    ensures OneReply(p, r).c.committing == p.c.committing
  {
    match r
    case Error =>
    case Done(tag) =>
      match tag
      case TagBegin =>
      case TagCommit =>
      case TagSavepoint => SavepointFrame(p);
      case TagRelease => ReleaseFrame(p);
      case TagRollback =>
      case TagOther =>
  }

  lemma {:induction false} RepliesFrame(p: Progress, rs: seq<Reply>)
    ensures AllReplies(p, rs).c.srv == p.c.srv && AllReplies(p, rs).c.discards == p.c.discards
    ensures AllReplies(p, rs).c.committing == p.c.committing
    decreases |rs|
  {
    if rs != [] {
      ReplyFrame(p, rs[0]);
      RepliesFrame(OneReply(p, rs[0]), rs[1..]);
    }
  }

  // ----- Discards and hooks -----

  const BRACKETED := [Done(TagSavepoint), Done(TagOther), Done(TagRelease)]

  lemma BracketCloses(s: State, s1: State)
    requires s.status.InTrans? && s1 == s.(stack := s.stack + [Mark(PerQuery, s.pending)])
    ensures RunFrom(s1, [Work([], false), Release(PerQuery)]) == (s, [Done(TagOther), Done(TagRelease)])
  {
    var work := Work([], false);
    assert Exec(s1, work) == (s1, Done(TagOther)) by { assert s1.pending + [] == s1.pending; }
    assert Exec(s1, Release(PerQuery)) == (s, Done(TagRelease)) by {
      assert Find(s1.stack, PerQuery) == |s.stack|;
      assert s1.stack[..|s.stack|] == s.stack;
    }
    RunOne(s1, Release(PerQuery));
    RunCons(s1, work, [Release(PerQuery)]);
    assert [work] + [Release(PerQuery)] == [work, Release(PerQuery)];
    assert [Done(TagOther)] + [Done(TagRelease)] == [Done(TagOther), Done(TagRelease)];
  }

  lemma BracketedRun(s: State)
    requires s.status.InTrans?
    ensures RunFrom(s, [Savepoint(PerQuery), Work([], false), Release(PerQuery)]) == (s, BRACKETED)
  {
    var work := Work([], false);
    var s1 := s.(stack := s.stack + [Mark(PerQuery, s.pending)]);
    BracketCloses(s, s1);
    RunCons(s, Savepoint(PerQuery), [work, Release(PerQuery)]);
    assert [Savepoint(PerQuery)] + [work, Release(PerQuery)] == [Savepoint(PerQuery), work, Release(PerQuery)];
    assert [Done(TagSavepoint)] + [Done(TagOther), Done(TagRelease)] == BRACKETED;
  }

  lemma BracketedReplies(c: Conn)
    ensures AllReplies(Progress(c, false, true, false), BRACKETED).c == c
  {
    var p := Progress(c, false, true, false);
    var rest := [Done(TagOther), Done(TagRelease)];
    assert BRACKETED == [Done(TagSavepoint)] + rest;
    RepliesCons(p, Done(TagSavepoint), rest);
    var p1 := OneReply(p, Done(TagSavepoint));
    assert rest == [Done(TagOther)] + [Done(TagRelease)];
    RepliesCons(p1, Done(TagOther), [Done(TagRelease)]);
    RepliesOne(p1, Done(TagRelease));
  }

  /** Discarding a marked object leaves the bookkeeping and the server's transaction alone. */
  lemma DiscardOneNeutral(c: Conn)
    requires InStep(c)
    ensures DiscardOne(c) == c
  {
    if c.inTrans {
      BracketedRun(c.srv);
      BracketedReplies(c);
    } else {
      RunOne(c.srv, Work([], false));
      assert c.srv.committed + ([] + []) == c.srv.committed;
      RepliesOne(Progress(c, false, false, false), Done(TagOther));
    }
  }

  /** The status update at the end of a nested query finds driver and server in step and starts no hook. */
  lemma NestedStatusUpdate(c: Conn)
    requires InStep(c)
    ensures DiscardOne(c) == c && UpdateStatus(DiscardOne(c)) == DiscardOne(c) && InStep(DiscardOne(c))
  {
    DiscardOneNeutral(c);
  }

  lemma {:induction false} DiscardMarkedNeutral(c: Conn)
    requires InStep(c)
    ensures DiscardMarked(c, c.discards) == c.(discards := 0)
    decreases c.discards
  {
    if c.discards > 0 {
      NestedStatusUpdate(c);
      DiscardMarkedNeutral(c.(discards := c.discards - 1));
    }
  }

  /** Whatever the driver believed before, the status update brings it into step with the server;
      the queries nested in its commit and abort hooks change nothing else. */
  lemma UpdateStatusAgrees(c: Conn)
    requires Settled(c.srv) && !c.committing
    ensures Agree(UpdateStatus(c))
    ensures UpdateStatus(c).srv == c.srv && !UpdateStatus(c).committing
    ensures !c.srv.status.Idle? ==>
              UpdateStatus(c) == c.(inTrans := true, inError := c.srv.status.InError?,
                                    discards := if c.srv.status.InTrans? && c.inError then 0 else c.discards)
    ensures c.srv.status.Idle? && c.inTrans ==>
              UpdateStatus(c) == StartStmt(SvpInit(c.(inTrans := false, inError := false, discards := 0)))
    ensures c.srv.status.Idle? && !c.inTrans ==> UpdateStatus(c) == c
  {
    if c.srv.status.InTrans? && c.inError {
      DiscardMarkedNeutral(c.(inTrans := true, inError := false));
    } else if c.srv.status.Idle? && c.inTrans {
      var c1 := StartStmt(SvpInit(c.(inTrans := false, inError := false)));
      DiscardMarkedNeutral(c1);
      DiscardMarkedNeutral(c1.(committing := true));
    }
  }

  /** The commit hook of a transaction that is over: nothing is marked, claimed or started any more, and the
      server is as it was. */
  lemma CommitHookEffect(c: Conn)
    requires Settled(c.srv) && c.srv.status.Idle? && !c.committing
    ensures var c1 := OnCommit(c);
            c1 == StartStmt(SvpInit(c.(inTrans := false, inError := c.inError && !c.inTrans, discards := 0)))
  {
    var c1 := c.(inTrans := false, inError := c.inError && !c.inTrans, committing := true);
    DiscardMarkedNeutral(StartStmt(SvpInit(c1)));
  }

  lemma AbortHookEffect(c: Conn)
    requires Settled(c.srv) && c.srv.status.Idle? && c.inTrans
    ensures OnAbort(c) == StartStmt(SvpInit(c.(inTrans := false, inError := false, discards := 0)))
  {
    DiscardMarkedNeutral(StartStmt(SvpInit(c.(inTrans := false, inError := false))));
  }

  // ----- One query -----

  predicate NoBegin(cmds: seq<Cmd>) {
    forall i :: 0 <= i < |cmds| ==> !cmds[i].Begin?
  }

  predicate DriverOnTop(stack: seq<Mark>) {
    stack != [] && stack[|stack| - 1].name == Driver
  }

  /** While results come in, internal_svp vouches for one fixed stack: the server still has it,
      or the transaction is over and no further one starts in this query. */
  predicate Tracks(c: Conn, s: State, stack: seq<Mark>, cmds: seq<Cmd>) {
    c.svp ==> c.inTrans && if s.status.Idle? then NoBegin(cmds) else s.stack == stack
  }

  predicate Plain(p: Progress) {
    !p.skipSavepoint && !p.skipRelease && p.c.op.NoOp?
  }

  /** `c1` differs from `c` only in what results of plain commands may change. */
  predicate SameExceptBits(c: Conn, c1: Conn) {
    c1 == c.(inTrans := c1.inTrans, inError := c1.inError, svp := c1.svp,
             rdInProgress := c1.rdInProgress, rdPrevious := c1.rdPrevious)
  }

  /** The results after which internal_svp is left as it was. */
  predicate Neutral(r: Reply) {
    r.Error? || r.tag.TagBegin? || r.tag.TagCommit? || r.tag.TagOther?
  }

  /** Of the results of commands the driver put in front, each is swallowed once: one BEGIN, one SAVEPOINT, and behind
      that one RELEASE. A swallowed SAVEPOINT or RELEASE leaves the connection alone. */
  lemma SwallowEffect(p: Progress, r: Reply)
    ensures var p1 := OneReply(p, r);
            && p1.skipBegin == (p.skipBegin && r != Done(TagBegin))
            && p1.skipSavepoint == (p.skipSavepoint && r != Done(TagSavepoint))
            && p1.skipRelease ==
               ((p.skipRelease && r != Done(TagRelease)) || (p.skipSavepoint && r == Done(TagSavepoint)))
            && ((p.skipSavepoint && r == Done(TagSavepoint)) || (p.skipRelease && r == Done(TagRelease)) ==>
                  p1.c == p.c)
  {
  }

  /** The transaction bits change on BEGIN, on an error inside a transaction and on ROLLBACK. */
  lemma ReplyBits(p: Progress, r: Reply)
    requires Plain(p)
    ensures OneReply(p, r).c.inTrans == (p.c.inTrans || r == Done(TagBegin))
    ensures OneReply(p, r).c.inError == (p.c.inError || r == Done(TagRollback) || (r.Error? && p.c.inTrans))
  {
    match r
    case Error =>
    case Done(tag) =>
      match tag
      case TagBegin =>
      case TagCommit =>
      case TagSavepoint =>
      case TagRelease =>
      case TagRollback =>
      case TagOther =>
  }

  /** The options change on ROLLBACK only. */
  lemma ReplyOptions(p: Progress, r: Reply)
    requires Plain(p)
    ensures OneReply(p, r).c.rdPrevious == (p.c.rdPrevious && r != Done(TagRollback))
    ensures OneReply(p, r).c.rdInProgress == (p.c.rdInProgress || r == Done(TagRollback))
  {
    match r
    case Error =>
    case Done(tag) =>
      match tag
      case TagBegin =>
      case TagCommit =>
      case TagSavepoint =>
      case TagRelease =>
      case TagRollback =>
      case TagOther =>
  }

  lemma ReplyEffect(p: Progress, r: Reply)
    requires Plain(p)
    ensures var p1 := OneReply(p, r);
            && Plain(p1) && SameExceptBits(p.c, p1.c)
            && (p.c.inTrans ==> p1.c.inTrans)
            && (p1.c.svp <==> p.c.svp && Neutral(r))
  {
    match r
    case Error =>
    case Done(tag) =>
      match tag
      case TagBegin =>
      case TagCommit =>
      case TagSavepoint =>
      case TagRelease =>
      case TagRollback =>
      case TagOther =>
  }

  lemma NeutralExec(s: State, cmd: Cmd)
    ensures var (s1, r) := Exec(s, cmd);
            Neutral(r) ==>
              if s.status.Idle? then cmd.Begin? || s1.status.Idle?
              else if s1.status.Idle? then cmd.Commit? || cmd.Rollback?
              else s1.stack == s.stack
  {
  }

  lemma StepTracks(p: Progress, s: State, stack: seq<Mark>, cmd: Cmd, rest: seq<Cmd>)
    requires Plain(p) && Tracks(p.c, s, stack, [cmd] + rest)
    requires cmd.Commit? || cmd.Rollback? ==> NoBegin(rest)
    ensures var (s1, r) := Exec(s, cmd);
            var p1 := OneReply(p, r);
            && Plain(p1) && SameExceptBits(p.c, p1.c) && Tracks(p1.c, s1, stack, rest)
            && (p1.c.svp ==> p.c.svp)
  {
    var (s1, r) := Exec(s, cmd);
    ReplyEffect(p, r);
    NeutralExec(s, cmd);
    if s.status.Idle? && p.c.svp {
      assert ([cmd] + rest)[0] == cmd;
      assert rest == ([cmd] + rest)[1..];
    }
  }

  lemma {:induction false} RunTracks(p: Progress, s: State, stack: seq<Mark>, cmds: seq<Cmd>)
    requires OneTransaction(cmds) && Tracks(p.c, s, stack, cmds) && Plain(p)
    ensures var (s1, rs) := RunFrom(s, cmds);
            var p1 := AllReplies(p, rs);
            && Plain(p1) && SameExceptBits(p.c, p1.c) && Tracks(p1.c, s1, stack, [])
            && (p1.c.svp ==> p.c.svp)
    decreases |cmds|
  {
    if cmds != [] {
      var rest := cmds[1..];
      assert cmds == [cmds[0]] + rest;
      StepTracks(p, s, stack, cmds[0], rest);
      RunCons(s, cmds[0], rest);
      var (s1, r) := Exec(s, cmds[0]);
      if r.Error? {
        RepliesOne(p, r);
      } else {
        RunTracks(OneReply(p, r), s1, stack, rest);
        RepliesCons(p, r, RunFrom(s1, rest).1);
      }
    }
  }

  /** A transaction still open at the end of such a query was never committed inside it. */
  lemma {:induction false} RunKeepsCommitted(s: State, cmds: seq<Cmd>)
    requires OneTransaction(cmds)
    requires s.status.Idle? ==> NoBegin(cmds)
    ensures RunFrom(s, cmds).0.status.Idle? || (!s.status.Idle? && RunFrom(s, cmds).0.committed == s.committed)
    decreases |cmds|
  {
    if cmds != [] {
      var (s1, r) := Exec(s, cmds[0]);
      if r.Done? {
        assert OneTransaction(cmds[1..]);
        RunKeepsCommitted(s1, cmds[1..]);
      }
    }
  }

  /** Receiving the results of a query and updating the status, started at progress `p` with the
      server at `s` and the commands `cmds` still to run. */
  function Rest(p: Progress, s: State, cmds: seq<Cmd>): (Conn, bool) {
    var (s1, rs) := RunFrom(s, cmds);
    (UpdateStatus(AllReplies(p.(c := p.c.(srv := Finish(s1))), rs).c), AllDone(rs))
  }

  lemma RestKeeps(p: Progress, s: State, stack: seq<Mark>, cmds: seq<Cmd>)
    requires OneTransaction(cmds) && Tracks(p.c, s, stack, cmds) && Plain(p)
    requires s.status.Idle? ==> s.stack == []
    requires DriverOnTop(stack) && !p.c.committing
    ensures var c1 := Rest(p, s, cmds).0;
            && Inv(c1) && c1.srv == Finish(RunFrom(s, cmds).0)
            && (c1.svp ==> p.c.svp && c1.srv.stack == stack)
            && (c1.inTrans ==> c1.started == p.c.started && c1.accessed == p.c.accessed)
            && (c1.inTrans && !s.status.Idle? ==> c1.srv.committed == s.committed)
  {
    var (s1, rs) := RunFrom(s, cmds);
    RunFromKeepsStackless(s, cmds);
    if !s.status.Idle? { RunKeepsCommitted(s, cmds); }
    var q := p.(c := p.c.(srv := Finish(s1)));
    RunTracks(q, s, stack, cmds);
    StatusKeeps(q.c, AllReplies(q, rs).c, stack);
  }

  lemma StatusKeeps(c0: Conn, c: Conn, stack: seq<Mark>)
    requires SameExceptBits(c0, c) && Settled(c.srv) && !c.committing && c.op.NoOp?
    requires Tracks(c, c.srv, stack, []) && DriverOnTop(stack)
    ensures var c1 := UpdateStatus(c);
            && Inv(c1) && c1.srv == c.srv && (c1.svp ==> c.svp && c1.srv.stack == stack)
            && (c1.inTrans ==> c1.started == c0.started && c1.accessed == c0.accessed)
  {
    UpdateStatusAgrees(c);
  }

  lemma SendBatchKeeps(c: Conn, q: Query, skipBegin: bool)
    requires Inv(c) && OneTransaction(q.cmds)
    ensures Inv(SendBatch(c, q, skipBegin).0)
    ensures SendBatch(c, q, skipBegin).0.srv == Run(c.srv, q).0
  {
    var stack := if c.svp then c.srv.stack else [Mark(Driver, [])];
    var p := Progress(c, skipBegin, false, false);
    if q.syntaxError {
      var c1 := c.(srv := Fail(c.srv).0);
      RepliesOne(p.(c := c1), Error);
      UpdateStatusAgrees(OneReply(p.(c := c1), Error).c);
    } else {
      RestKeeps(p, c.srv, stack, q.cmds);
      assert SendBatch(c, q, skipBegin) == Rest(p, c.srv, q.cmds);
    }
  }

  // ----- Savepoints set by the driver -----

  /** The stack with a fresh driver savepoint on it, in place of the one internal_svp vouches for. */
  function Remarked(c: Conn): State
    requires c.svp ==> c.srv.stack != []
  {
    var base := if c.svp then c.srv.stack[..|c.srv.stack| - 1] else c.srv.stack;
    c.srv.(stack := base + [Mark(Driver, c.srv.pending)])
  }

  /** The commands that set the savepoint always succeed, and put back exactly what they release. */
  lemma SavepointRun(c: Conn, cmds: seq<Cmd>)
    requires SvpOnTop(c) && c.srv.status.InTrans?
    ensures var (s1, rs) := RunFrom(Remarked(c), cmds);
            RunFrom(c.srv, SavepointCommands(c.svp) + cmds) ==
            (s1, (if c.svp then [Done(TagRelease)] else []) + [Done(TagSavepoint)] + rs)
  {
    var s := c.srv;
    var tail := [Savepoint(Driver)] + cmds;
    var (s1, rs) := RunFrom(Remarked(c), cmds);
    if c.svp {
      var base := s.(stack := s.stack[..|s.stack| - 1]);
      assert Find(s.stack, Driver) == |s.stack| - 1;
      assert SavepointCommands(true) + cmds == [Release(Driver)] + tail;
      RunCons(s, Release(Driver), tail);
      RunCons(base, Savepoint(Driver), cmds);
      assert [Done(TagRelease)] + [Done(TagSavepoint)] + rs == [Done(TagRelease)] + ([Done(TagSavepoint)] + rs);
    } else {
      assert SavepointCommands(false) + cmds == tail;
      RunCons(s, Savepoint(Driver), cmds);
      assert [] + [Done(TagSavepoint)] + rs == [Done(TagSavepoint)] + rs;
    }
  }

  lemma SavepointReplies(p: Progress, rs: seq<Reply>)
    requires p.c.op.SavepointInProgress? && !p.skipSavepoint && !p.skipRelease
    ensures AllReplies(p, (if p.c.svp then [Done(TagRelease)] else []) + [Done(TagSavepoint)] + rs) ==
            AllReplies(p.(c := p.c.(svp := true, started := true, op := NoOp)), rs)
  {
    if p.c.svp {
      var p1 := p.(c := p.c.(svp := false));
      assert [Done(TagRelease)] + [Done(TagSavepoint)] + rs == [Done(TagRelease)] + ([Done(TagSavepoint)] + rs);
      RepliesCons(p, Done(TagRelease), [Done(TagSavepoint)] + rs);
      RepliesCons(p1, Done(TagSavepoint), rs);
    } else {
      assert [] + [Done(TagSavepoint)] + rs == [Done(TagSavepoint)] + rs;
      RepliesCons(p, Done(TagSavepoint), rs);
    }
  }

  /** A query sent with the savepoint commands in front runs as the query alone would from the
      freshly marked state. */
  lemma MarkedBatch(c: Conn, cmds: seq<Cmd>)
    requires SvpOnTop(c) && Agree(c) && c.srv.status.InTrans? && !c.committing
    ensures var p := Progress(c.(svp := true, started := true, op := NoOp), false, false, false);
            SendBatch(c.(op := SavepointInProgress), Query(SavepointCommands(c.svp) + cmds, false), false) ==
            Rest(p, Remarked(c), cmds)
  {
    SavepointRun(c, cmds);
    var (s1, rs) := RunFrom(Remarked(c), cmds);
    SavepointReplies(Progress(c.(op := SavepointInProgress, srv := Finish(s1)), false, false, false), rs);
  }

  lemma SetStatementSvpKeeps(c: Conn, st: Stmt, readOnly: bool, reduce: bool)
    requires Inv(c)
    ensures var (c1, ok) := SetStatementSvp(c, st, readOnly, reduce);
            && ok
            && (!c1.op.PrependInProgress? ==> Inv(c1))
            && (c1.op.PrependInProgress? ==>
                  && Inv(c1.(op := NoOp)) && c1.srv == c.srv && c1.srv.status.InTrans?
                  && c1.accessed && !c1.started && st.rb)
  {
    var c1 := c.(rdInProgress := c.rdInProgress && readOnly);
    if !c.inError && st.ordinary && !c.started && !c.rdPrevious && st.rb && c.inTrans && !reduce {
      MarkedBatch(c1, []);
      assert SavepointCommands(c1.svp) + [] == SavepointCommands(c1.svp);
      RestKeeps(Progress(c1.(svp := true, started := true, op := NoOp), false, false, false),
                Remarked(c1), Remarked(c1).stack, []);
    }
  }

  /** Between the queries of one call the invariant may be short of one thing: a text refused for
      its syntax took the savepoint command with it. The transaction is then in error and the
      discard that closes the call abandons it. */
  predicate Mid(c: Conn, st: Stmt) {
    && Inv(c.(op := NoOp))
    && (c.op.NoOp? || (c.op.SavepointInProgress? && c.inTrans && c.inError && c.accessed && !c.started && st.rb))
  }

  lemma BeginInFront(cmds: seq<Cmd>)
    requires OneTransaction(cmds)
    ensures OneTransaction([Begin] + cmds)
  {
    var all := [Begin] + cmds;
    forall i, j | 0 <= i < j < |all| && (all[i].Commit? || all[i].Rollback?) ensures !all[j].Begin? {
      assert all[i] == cmds[i - 1] && all[j] == cmds[j - 1];
    }
  }

  lemma SendPrefixedKeeps(c: Conn, q: Query, issueBegin: bool, st: Stmt)
    requires Inv(c.(op := NoOp)) && OneTransaction(q.cmds)
    requires || c.op.NoOp?
             || (c.op.PrependInProgress? && !issueBegin && c.srv.status.InTrans? && c.accessed && !c.started && st.rb)
    ensures var (c1, ok) := SendPrefixed(c, q, issueBegin);
            Mid(c1, st) && (ok ==> Inv(c1))
  {
    if issueBegin {
      BeginInFront(q.cmds);
      SendBatchKeeps(c, q.(cmds := [Begin] + q.cmds), true);
    } else if c.op.PrependInProgress? {
      SendMarkedKeeps(c.(op := NoOp), q, st);
      assert c.(op := NoOp).(op := SavepointInProgress) == c.(op := SavepointInProgress);
    } else {
      SendBatchKeeps(c, q, false);
    }
  }

  lemma EnterKeeps(c: Conn, m: Sending, reduce: bool, st: Stmt)
    requires Inv(c) && m.q.cmds != []
    ensures var (c1, ok) := Enter(c, m, reduce, Some(st));
            && ok && Inv(c1.(op := NoOp))
            && (c1.op.NoOp? || (&& c1.op.PrependInProgress? && !IssuesBegin(c, m) && c1.srv.status.InTrans?
                                && c1.accessed && !c1.started && st.rb))
  {
    SetStatementSvpKeeps(c, st, m.readOnly, reduce);
  }

  lemma SendKeeps(c: Conn, m: Sending, reduce: bool, st: Stmt)
    requires Inv(c) && OneTransaction(m.q.cmds)
    ensures var (c1, ok) := Send(c, m, reduce, Some(st));
            Mid(c1, st) && (ok ==> Inv(c1))
  {
    if m.q.cmds != [] {
      EnterKeeps(c, m, reduce, st);
      SendPrefixedKeeps(Enter(c, m, reduce, Some(st)).0, m.q, IssuesBegin(c, m), st);
    }
  }

  lemma SendMarkedKeeps(c: Conn, q: Query, st: Stmt)
    requires Inv(c) && c.srv.status.InTrans? && c.accessed && !c.started && st.rb && OneTransaction(q.cmds)
    ensures var (c1, ok) := SendBatch(c.(op := SavepointInProgress),
                                      q.(cmds := SavepointCommands(c.svp) + q.cmds), false);
            Mid(c1, st) && (ok ==> Inv(c1))
  {
    var p := Progress(c.(svp := true, started := true, op := NoOp), false, false, false);
    if q.syntaxError {
      var c1 := c.(op := SavepointInProgress, srv := Fail(c.srv).0);
      RepliesOne(Progress(c1, false, false, false), Error);
      UpdateStatusAgrees(c1.(inError := true));
      var (s, rs) := Run(c.srv, q.(cmds := SavepointCommands(c.svp) + q.cmds));
      assert rs[0].Error?;
    } else {
      MarkedBatch(c, q.cmds);
      RestKeeps(p, Remarked(c), Remarked(c).stack, q.cmds);
      assert q.(cmds := SavepointCommands(c.svp) + q.cmds) == Query(SavepointCommands(c.svp) + q.cmds, false);
    }
  }

  lemma {:induction false} SendAllKeeps(c: Conn, body: seq<Sending>, reduce: bool, st: Stmt)
    requires Inv(c) && forall i :: 0 <= i < |body| ==> OneTransaction(body[i].q.cmds)
    ensures var (c1, ok) := SendAll(c, body, reduce, st);
            Mid(c1, st) && (ok ==> Inv(c1))
    decreases |body|
  {
    if body != [] {
      SendKeeps(c, body[0], reduce, st);
      if Send(c, body[0], reduce, Some(st)).1 {
        SendAllKeeps(Send(c, body[0], reduce, Some(st)).0, body[1..], reduce, st);
      }
    }
  }

  // ----- Rolling back -----

  /** The full ROLLBACK abandons the transaction and resets every field of the bookkeeping. */
  lemma AbortEffect(c: Conn)
    requires Agree(c) && Settled(c.srv) && !c.committing && c.inTrans
    ensures AbortTrans(c) == StartStmt(SvpInit(c.(inTrans := false, inError := false, discards := 0,
                                                  srv := Abandon(c.srv))))
    ensures Inv(AbortTrans(c))
  {
    RunOne(c.srv, Rollback);
    assert Abandon(c.srv).committed + [] == c.srv.committed;
    var c1 := c.(srv := Abandon(c.srv));
    RepliesOne(Progress(c1, false, false, false), Done(TagRollback));
    UpdateStatusAgrees(OneReply(Progress(c1, false, false, false), Done(TagRollback)).c);
  }

  /** ROLLBACK TO the savepoint that internal_svp vouches for cannot fail: it restores the work
      pending when that savepoint was set and leaves the savepoint in place. */
  lemma InternalRollbackEffect(c: Conn)
    requires Inv(c) && c.svp
    ensures InternalRollback(c).1 && Inv(InternalRollback(c).0)
    ensures c.inError ==>
              InternalRollback(c).0.srv ==
              c.srv.(status := InTrans, pending := c.srv.stack[|c.srv.stack| - 1].snapshot)
  {
    if c.inError {
      var n := |c.srv.stack|;
      assert Find(c.srv.stack, Driver) == n - 1;
      assert c.srv.stack[..n] == c.srv.stack;
      UpdateStatusAgrees(c.(srv := Exec(c.srv, RollbackTo(Driver)).0));
    }
  }

  lemma DiscardKeeps(c: Conn, st: Stmt, ret: Ret, errorOnly: bool)
    requires Mid(c, st) && (c.op.NoOp? || ret.Failure?)
    ensures Inv(DiscardStatementSvp(c, st, ret, errorOnly))
  {
    if c.accessed && c.inTrans && (st.rb || st.tc) && ret.Failure? {
      if c.started && c.svp {
        InternalRollbackEffect(c);
      } else {
        AbortEffect(c);
      }
    }
  }

  // ----- Ending and starting transactions -----

  /** CC_commit makes the pending work permanent exactly in a sound transaction whose COMMIT does not fail;
      otherwise the work is lost. Outside a transaction nothing happens. */
  lemma CommitEffect(c: Conn, fails: bool)
    requires Inv(c)
    ensures Next(c, Transact(true, fails)).srv ==
            if !c.inTrans then c.srv
            else if c.inError || fails then Abandon(c.srv)
            else Abandon(c.srv).(committed := c.srv.committed + c.srv.pending)
    ensures Inv(Next(c, Transact(true, fails)))
  {
    if c.inTrans {
      SendBatchKeeps(c, Query([Commit(fails)], false), false);
      RunOne(c.srv, Commit(fails));
      var s := Exec(c.srv, Commit(fails)).0;
      assert s.committed + [] == s.committed;
    }
  }

  /** CC_abort loses exactly the pending work. */
  lemma RollbackEffect(c: Conn)
    requires Inv(c)
    ensures Next(c, Transact(false, false)).srv == if c.inTrans then Abandon(c.srv) else c.srv
  {
    if c.inTrans { AbortEffect(c); }
  }

  /** CC_begin opens a transaction unless one is open, and touches no work. */
  lemma BeginEffect(c: Conn)
    requires Inv(c)
    ensures Next(c, Start).srv == if c.inTrans then c.srv else c.srv.(status := InTrans)
    ensures Inv(Next(c, Start)) && Next(c, Start).inTrans
  {
    if !c.inTrans {
      SendBatchKeeps(c, Query([Begin], false), false);
      RunOne(c.srv, Begin);
    }
  }

  // ----- Every run -----

  lemma NextKeeps(c: Conn, step: Step)
    requires Inv(c) && ValidStep(step)
    ensures Inv(Next(c, step))
  {
    match step
    case Call(st, body, reduce, ret, errorOnly) =>
      SendAllKeeps(c, body, reduce, st);
      var (c1, ok) := SendAll(c, body, reduce, st);
      DiscardKeeps(c1, st, if ok then ret else Failure, errorOnly);
    case Transact(commit, fails) =>
      SendBatchKeeps(c, Query([Commit(fails)], false), false);
      if c.inTrans { AbortEffect(c); }
    case Start => SendBatchKeeps(c, Query([Begin], false), false);
    case MarkObject =>
  }

  /** Safety over every run: driver and server agree on the transaction, and internal_svp is set
      only while the driver's own savepoint is the innermost one. */
  lemma {:induction false} EveryRunIsSafe(c: Conn, steps: seq<Step>)
    requires Inv(c) && forall i :: 0 <= i < |steps| ==> ValidStep(steps[i])
    ensures Inv(RunSteps(c, steps))
    decreases |steps|
  {
    if steps != [] {
      NextKeeps(c, steps[0]);
      EveryRunIsSafe(Next(c, steps[0]), steps[1..]);
    }
  }
}
