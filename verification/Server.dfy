/** The PostgreSQL server as the driver sees it: a transaction status, the work done so far
    and a stack of named savepoints, each remembering the work pending when it was set.
    A simple query is a list of commands, executed in order up to the first error. */
module Server {

  /** Savepoint names: those chosen by the application, the per-connection `_EXEC_SVP_<ptr>`
      of the driver, and `_per_query_svp_`. */
  datatype Name = User(id: int) | Driver | PerQuery

  /** `fails` decides the outcome of the commands whose success depends on data. */
  datatype Cmd =
    | Begin
    | Commit(fails: bool)
    | Rollback
    | Savepoint(name: Name)
    | Release(name: Name)
    | RollbackTo(name: Name)
    | Work(effect: seq<int>, fails: bool)

  /** Command tags as far as the driver distinguishes them. */
  datatype Tag = TagBegin | TagCommit | TagSavepoint | TagRelease | TagRollback | TagOther

  datatype Reply = Done(tag: Tag) | Error

  datatype Status = Idle | InTrans | InError

  datatype Mark = Mark(name: Name, snapshot: seq<int>)

  datatype State = State(status: Status, committed: seq<int>, pending: seq<int>, stack: seq<Mark>)

  /** A query text: a text with a syntax error is refused before any of its commands runs. */
  datatype Query = Query(cmds: seq<Cmd>, syntaxError: bool)

  const FRESH: State := State(Idle, [], [], [])

  /** Index of the innermost savepoint called `name`, or -1. */
  function Find(stack: seq<Mark>, name: Name): (i: int)
    ensures -1 <= i < |stack|
    ensures i >= 0 ==> stack[i].name == name
    ensures forall j :: i < j < |stack| ==> stack[j].name != name
  {
    if stack == [] then -1
    else if stack[|stack| - 1].name == name then |stack| - 1
    else Find(stack[..|stack| - 1], name)
  }

  function Abandon(s: State): State {
    s.(status := Idle, pending := [], stack := [])
  }

  function Fail(s: State): (State, Reply) {
    (if s.status.Idle? then s.(pending := []) else s.(status := InError), Error)
  }

  function Exec(s: State, cmd: Cmd): (State, Reply) {
    if s.status.InError? && !cmd.Commit? && !cmd.Rollback? && !cmd.RollbackTo? then Fail(s)
    else match cmd
      case Begin => (s.(status := InTrans), Done(TagBegin))
      case Commit(fails) =>
        if s.status.InError? then (Abandon(s), Done(TagRollback))
        else if fails then (Abandon(s), Error)
        else (Abandon(s).(committed := s.committed + s.pending), Done(TagCommit))
      case Rollback => (Abandon(s), Done(TagRollback))
      case Savepoint(n) =>
        if s.status.Idle? then Fail(s)
        else (s.(stack := s.stack + [Mark(n, s.pending)]), Done(TagSavepoint))
      case Release(n) =>
        var i := Find(s.stack, n);
        if s.status.Idle? || i < 0 then Fail(s)
        else (s.(stack := s.stack[..i]), Done(TagRelease))
      case RollbackTo(n) =>
        var i := Find(s.stack, n);
        if s.status.Idle? || i < 0 then Fail(s)
        else (s.(status := InTrans, pending := s.stack[i].snapshot, stack := s.stack[..i + 1]), Done(TagRollback))
      case Work(effect, fails) =>
        if fails then Fail(s) else (s.(pending := s.pending + effect), Done(TagOther))
  }

  function RunFrom(s: State, cmds: seq<Cmd>): (State, seq<Reply>)
    decreases |cmds|
  {
    if cmds == [] then (s, [])
    else
      var (s1, r) := Exec(s, cmds[0]);
      if r.Error? then (s1, [r])
      else var (s2, rs) := RunFrom(s1, cmds[1..]); (s2, [r] + rs)
  }

  /** Outside a transaction block the work of one query is committed when the query ends. */
  function Finish(s: State): State {
    if s.status.Idle? then s.(committed := s.committed + s.pending, pending := []) else s
  }

  function Run(s: State, q: Query): (State, seq<Reply>) {
    if q.syntaxError then (Fail(s).0, [Error])
    else var (s1, rs) := RunFrom(s, q.cmds); (Finish(s1), rs)
  }

  /** The savepoints of the application, outermost first. */
  function UserMarks(stack: seq<Mark>): seq<Mark> {
    if stack == [] then []
    else
      var rest := UserMarks(stack[..|stack| - 1]);
      var top := stack[|stack| - 1];
      if top.name.User? then rest + [top] else rest
  }

  /** Between queries a server outside a transaction has nothing pending and no savepoints. */
  predicate Settled(s: State) {
    s.status.Idle? ==> s.pending == [] && s.stack == []
  }

  lemma {:induction false} RunFromKeepsStackless(s: State, cmds: seq<Cmd>)
    requires s.status.Idle? ==> s.stack == []
    ensures RunFrom(s, cmds).0.status.Idle? ==> RunFrom(s, cmds).0.stack == []
    decreases |cmds|
  {
    if cmds != [] {
      RunFromKeepsStackless(Exec(s, cmds[0]).0, cmds[1..]);
    }
  }

  lemma RunSettles(s: State, q: Query)
    requires Settled(s)
    ensures Settled(Run(s, q).0)
  {
    RunFromKeepsStackless(s, q.cmds);
  }

  lemma RunCons(s: State, cmd: Cmd, rest: seq<Cmd>)
    ensures Exec(s, cmd).1.Error? ==> RunFrom(s, [cmd] + rest) == (Exec(s, cmd).0, [Error])
    ensures Exec(s, cmd).1.Done? ==>
              var (s1, rs) := RunFrom(Exec(s, cmd).0, rest);
              RunFrom(s, [cmd] + rest) == (s1, [Exec(s, cmd).1] + rs)
  {
    assert ([cmd] + rest)[1..] == rest;
  }

  lemma RunOne(s: State, cmd: Cmd)
    ensures RunFrom(s, [cmd]) == (Exec(s, cmd).0, [Exec(s, cmd).1])
  {
    RunCons(s, cmd, []);
    assert [cmd] + [] == [cmd];
    assert [Exec(s, cmd).1] + [] == [Exec(s, cmd).1];
  }
}
