/** Arrays of parameter rows executed in batches: the row loop of PGAPI_Execute with
    Exec_with_parameters_resolved, on values. */
module Batch {
  import opened Basics

  /** A row: ignored by the application or not, and its statement text; `None`: its parameters cannot be
      converted. */
  datatype Row = Row(ignored: bool, text: Option<string>)

  /** A row's statement on its way to the server. */
  datatype Job = Job(row: int, text: string)

  datatype ParamStatus = UNUSED | SUCCESS | SUCCESS_WITH_INFO | ERROR

  /** What the server made of one send. */
  datatype Reply = Good | Info(notice: bool) | Bad

  datatype Outcome = Finished | ServerError | ConversionError

  /** exec_current_row, the deferred statements, what was sent, and param_status_ptr. */
  datatype State = State(row: nat, pending: seq<Job>, sent: seq<seq<Job>>, status: seq<ParamStatus>)

  /** param_status_batch_update: `n` rows in use, from `i` downwards. */
  function Touch(status: seq<ParamStatus>, i: int, n: nat, code: ParamStatus): (r: seq<ParamStatus>)
    requires i < |status|
    ensures |r| == |status|
    decreases i + 1
  {
    if i < 0 || n == 0 then status
    else if status[i] == UNUSED then Touch(status, i - 1, n, code)
    else Touch(status[i := code], i - 1, n - 1, code)
  }

  /** The code for the rows of a send with `deferred` rows before the current one. */
  function CodeOf(reply: Reply, deferred: nat): ParamStatus {
    match reply
    case Good => SUCCESS
    case Info(notice) => if deferred > 0 && !notice then SUCCESS else SUCCESS_WITH_INFO
    case Bad => ERROR
  }

  /** The statuses after a send; success only sets the row `i` itself. */
  function Report(status: seq<ParamStatus>, i: int, deferred: nat, reply: Reply): (r: seq<ParamStatus>)
    requires i < |status| && (reply == Good ==> 0 <= i)
    ensures |r| == |status|
  {
    if reply == Good then status[i := SUCCESS] else Touch(status, i, deferred + 1, CodeOf(reply, deferred))
  }

  predicate Defers(st: State, rows: seq<Row>, b: nat) {
    st.row + 1 < |rows| && |st.pending| + 1 < b
  }

  function Defer(st: State, job: Job): State
    requires st.row < |st.status|
  {
    State(st.row + 1, st.pending + [job], st.sent, st.status[st.row := SUCCESS])
  }

  /** A live row that cannot be deferred: it is sent together with those that were. */
  function Flush(st: State, job: Job, reply: Reply): State
    requires st.row < |st.status|
  {
    State(st.row + 1, [], st.sent + [st.pending + [job]],
          Report(st.status[st.row := ERROR], st.row, |st.pending|, reply))
  }

  /** The last row in use, or -1. */
  function LastUsed(status: seq<ParamStatus>, i: int): (r: int)
    requires i < |status|
    ensures -1 <= r < |status| && (r >= 0 ==> r <= i && status[r] != UNUSED)
    decreases i + 1
  {
    if i < 0 then -1 else if status[i] != UNUSED then i else LastUsed(status, i - 1)
  }

  /** LAST_EXEC, when the last rows were ignored: what is deferred is sent. */
  function Trailing(st: State, reply: Reply): (State, Outcome)
    requires |st.status| > 0
  {
    if st.pending == [] then (st, Finished)
    else
      var last := LastUsed(st.status, |st.status| - 1);
      var at := if reply == Bad || last < 0 then |st.status| - 1 else last;
      (State(st.row, [], st.sent + [st.pending], Report(st.status, at, |st.pending|, reply)),
       if reply == Bad then ServerError else Finished)
  }

  datatype Turn = Goes(next: State) | Ends(last: State, outcome: Outcome)

  /** One row; `reply` answers a send. */
  function Step(st: State, rows: seq<Row>, b: nat, reply: Reply): (t: Turn)
    requires st.row < |rows| == |st.status|
    ensures t.Goes? ==> t.next.row == st.row + 1 < |rows| && |t.next.status| == |rows|
  {
    var r := rows[st.row];
    if r.ignored then
      if st.row + 1 == |rows| then var (st1, outcome) := Trailing(st, reply); Ends(st1, outcome)
      else Goes(st.(row := st.row + 1))
    else if r.text.None? then Ends(st.(status := st.status[st.row := ERROR]), ConversionError)
    else
      var job := Job(st.row, r.text.value);
      if Defers(st, rows, b) then Goes(Defer(st, job))
      else
        var st1 := Flush(st, job, reply);
        if reply == Bad then Ends(st1, ServerError)
        else if st1.row == |rows| then Ends(st1, Finished)
        else Goes(st1)
  }

  /** The row loop; `reply(k)` answers the k-th send. */
  function Execute(st: State, rows: seq<Row>, b: nat, reply: nat -> Reply): (State, Outcome)
    requires st.row < |rows| == |st.status|
    decreases |rows| - st.row
  {
    match Step(st, rows, b, reply(|st.sent|))
    case Goes(next) => Execute(next, rows, b, reply)
    case Ends(last, outcome) => (last, outcome)
  }

  // ----- What it should do -----

  /** The jobs of the live rows from `s` up to `i`. */
  function Live(rows: seq<Row>, s: nat, i: nat): seq<Job>
    requires s <= i <= |rows|
  {
    if i == s then []
    else if rows[i - 1].ignored then Live(rows, s, i - 1)
    else Live(rows, s, i - 1) + [JobAt(rows, i - 1)]
  }

  function JobAt(rows: seq<Row>, i: nat): Job
    requires i < |rows|
  {
    Job(i, if rows[i].text.Some? then rows[i].text.value else "")
  }

  /** A list cut into pieces of `b`; the last one may be shorter. */
  function Chunks(x: seq<Job>, b: nat): seq<seq<Job>>
    requires b > 0
  {
    if x == [] then [] else if |x| <= b then [x] else [x[..b]] + Chunks(x[b..], b)
  }
}
