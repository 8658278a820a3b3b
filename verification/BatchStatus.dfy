/** The statuses reported for parameter rows. */
module BatchStatus {
  import opened Basics
  import opened Batch
  import opened BatchTheorems

  /** Where the last `n` live rows below `i` begin. */
  function From(rows: seq<Row>, s: nat, i: nat, n: nat): (lo: nat)
    requires s <= i <= |rows|
    ensures s <= lo <= i
  {
    if i == s || n == 0 then i
    else From(rows, s, i - 1, if rows[i - 1].ignored then n else n - 1)
  }

  lemma {:induction false} LiveSplits(rows: seq<Row>, s: nat, lo: nat, i: nat)
    requires s <= lo <= i <= |rows|
    ensures Live(rows, s, i) == Live(rows, s, lo) + Live(rows, lo, i)
  {
    if i == lo {
      assert Live(rows, s, lo) + [] == Live(rows, s, lo);
    } else {
      LiveSplits(rows, s, lo, i - 1);
    }
  }

  lemma {:induction false} FromCounts(rows: seq<Row>, s: nat, i: nat, n: nat)
    requires s <= i <= |rows| && n <= |Live(rows, s, i)|
    ensures |Live(rows, From(rows, s, i, n), i)| == n
  {
    if i > s && n > 0 {
      FromCounts(rows, s, i - 1, if rows[i - 1].ignored then n else n - 1);
    }
  }

  lemma {:induction false} LiveRows(rows: seq<Row>, s: nat, i: nat, a: nat)
    requires s <= i <= |rows| && a < |Live(rows, s, i)|
    ensures s <= Live(rows, s, i)[a].row < i && !rows[Live(rows, s, i)[a].row].ignored
  {
    if rows[i - 1].ignored || a < |Live(rows, s, i - 1)| { LiveRows(rows, s, i - 1, a); }
  }

  /** From `lo` up to `i`, the rows in use are the live ones. */
  predicate UsedWithin(status: seq<ParamStatus>, rows: seq<Row>, lo: nat, i: nat)
    requires i <= |status| == |rows|
  {
    forall j :: lo <= j < i ==> (status[j] != UNUSED <==> !rows[j].ignored)
  }

  lemma {:induction false} TouchNothing(status: seq<ParamStatus>, i: int, n: nat, code: ParamStatus)
    requires i < |status| && forall j :: 0 <= j <= i ==> status[j] == UNUSED
    ensures Touch(status, i, n, code) == status
    decreases i + 1
  {
    if i >= 0 && n > 0 { TouchNothing(status, i - 1, n, code); }
  }

  /** param_status_batch_update reaches the last `n` live rows and no others. */
  lemma {:induction false} TouchReachesLast(
    status: seq<ParamStatus>, rows: seq<Row>, s: nat, i: nat, n: nat, code: ParamStatus, j: nat)
    requires s <= i <= |status| == |rows| && UsedWithin(status, rows, s, i) && code != UNUSED && j < |rows|
    requires forall j :: 0 <= j < s ==> status[j] == UNUSED
    ensures Touch(status, i - 1, n, code)[j] ==
            if From(rows, s, i, n) <= j < i && !rows[j].ignored then code else status[j]
    decreases i
  {
    if i == s {
      TouchNothing(status, i - 1, n, code);
    } else if n > 0 && rows[i - 1].ignored {
      TouchReachesLast(status, rows, s, i - 1, n, code, j);
    } else if n > 0 {
      TouchReachesLast(status[i - 1 := code], rows, s, i - 1, n - 1, code, j);
    }
  }

  // ----- Between rows -----

  /** The first row of those that wait to be sent. */
  function First(st: State, s: nat, rows: seq<Row>): (lo: nat)
    requires s <= st.row <= |rows|
    ensures s <= lo <= st.row
  {
    From(rows, s, st.row, |st.pending|)
  }

  /** What waits are the live rows from there on; what was sent are those before. */
  lemma WaitingRows(st: State, s: nat, rows: seq<Row>, b: nat)
    requires Kept(st, s, rows, b, [])
    ensures Concat(st.sent) == Live(rows, s, First(st, s, rows))
    ensures st.pending == Live(rows, First(st, s, rows), st.row)
  {
    var jobs, lo := Live(rows, s, st.row), First(st, s, rows);
    assert jobs == Concat(st.sent) + st.pending by { assert [] + jobs == jobs; }
    FromCounts(rows, s, st.row, |st.pending|);
    LiveSplits(rows, s, lo, st.row);
    SameSplit(Concat(st.sent), st.pending, Live(rows, s, lo), Live(rows, lo, st.row));
  }

  lemma SameSplit(a: seq<Job>, b: seq<Job>, c: seq<Job>, d: seq<Job>)
    requires a + b == c + d && |b| == |d|
    ensures a == c && b == d
  {
    assert a == (a + b)[..|a|] && b == (a + b)[|a|..];
    assert c == (c + d)[..|c|] && d == (c + d)[|c|..];
  }

  /** The statuses of a clean execution between rows: exactly the live rows taken are in use, and those that
      wait count as successful. */
  predicate Marked(st: State, s: nat, rows: seq<Row>, b: nat) {
    && Kept(st, s, rows, b, [])
    && UsedWithin(st.status, rows, s, st.row)
    && (forall j :: 0 <= j < |rows| ==> (j < s || st.row <= j ==> st.status[j] == UNUSED))
    && forall j :: First(st, s, rows) <= j < st.row && !rows[j].ignored ==> st.status[j] == SUCCESS
  }

  /** The rows of a send caused by a live row are the live rows from the first that waited up to it. */
  lemma BatchRows(st: State, s: nat, rows: seq<Row>, b: nat)
    requires Kept(st, s, rows, b, []) && st.row < |rows| && !rows[st.row].ignored && rows[st.row].text.Some?
    ensures st.pending + [Job(st.row, rows[st.row].text.value)] == Live(rows, First(st, s, rows), st.row + 1)
  {
    WaitingRows(st, s, rows, b);
  }

  /** Such a send sets the statuses of these rows, to one code, and no others. */
  lemma LiveSendTouchesItsBatch(st: State, s: nat, rows: seq<Row>, b: nat, reply: Reply, j: nat)
    requires Marked(st, s, rows, b) && st.row < |rows| && !rows[st.row].ignored && rows[st.row].text.Some?
    requires j < |rows|
    ensures Flush(st, Job(st.row, rows[st.row].text.value), reply).status[j] ==
            if First(st, s, rows) <= j <= st.row && !rows[j].ignored then CodeOf(reply, |st.pending|)
            else st.status[j]
  {
    ReportReaches(st.status, s, rows, st.row, |st.pending|, reply, j);
  }

  lemma ReportReaches(status: seq<ParamStatus>, s: nat, rows: seq<Row>, i: nat, n: nat, reply: Reply, j: nat)
    requires s <= i < |rows| == |status| && UsedWithin(status, rows, s, i) && !rows[i].ignored && j < |rows|
    requires forall j :: 0 <= j < s ==> status[j] == UNUSED
    requires forall j :: From(rows, s, i, n) <= j < i && !rows[j].ignored ==> status[j] == SUCCESS
    ensures Report(status[i := ERROR], i, n, reply)[j] ==
            if From(rows, s, i, n) <= j <= i && !rows[j].ignored then CodeOf(reply, n) else status[j]
  {
    var status1 := status[i := ERROR];
    if reply != Good { TouchReachesLast(status1, rows, s, i + 1, n + 1, CodeOf(reply, n), j); }
  }

  // ----- The send behind trailing ignored rows -----

  lemma {:induction false} TouchFromLastUsed(status: seq<ParamStatus>, i: int, n: nat, code: ParamStatus)
    requires -1 <= i < |status|
    ensures Touch(status, i, n, code) == Touch(status, LastUsed(status, i), n, code)
    decreases i + 1
  {
    if i >= 0 && status[i] == UNUSED { TouchFromLastUsed(status, i - 1, n, code); }
  }

  /** The send behind trailing ignored rows counts one row too many. Unless it is a plain success it sets the
      statuses of its own rows and of one more: the last row of the send before it, if there was one. */
  lemma TrailingSendTouchesOneMore(st: State, s: nat, rows: seq<Row>, b: nat, reply: Reply, j: nat)
    requires Marked(st, s, rows, b) && st.row + 1 == |rows| && rows[st.row].ignored && st.pending != []
    requires j < |rows| && reply != Good
    ensures Trailing(st, reply).0.status[j] ==
            if From(rows, s, |rows|, |st.pending| + 1) <= j && !rows[j].ignored then CodeOf(reply, |st.pending|)
            else st.status[j]
  {
    var n, code := |st.pending|, CodeOf(reply, |st.pending|);
    TouchReachesLast(st.status, rows, s, |rows|, n + 1, code, j);
    TouchFromLastUsed(st.status, |rows| - 1, n + 1, code);
  }

  lemma OneMoreIs(st: State, s: nat, rows: seq<Row>, b: nat)
    requires Kept(st, s, rows, b, []) && st.row + 1 == |rows| && rows[st.row].ignored && st.sent != []
    ensures var earlier := Concat(st.sent);
            && earlier != []
            && Live(rows, From(rows, s, |rows|, |st.pending| + 1), |rows|) == [earlier[|earlier| - 1]] + st.pending
  {
    var n := |st.pending|;
    var lo := From(rows, s, |rows|, n + 1);
    assert Concat(st.sent) == st.sent[0] + Concat(st.sent[1..]) && |st.sent[0]| == b;
    assert Live(rows, s, |rows|) == Concat(st.sent) + st.pending by {
      assert [] + Live(rows, s, |rows|) == Live(rows, s, |rows|);
    }
    FromCounts(rows, s, |rows|, n + 1);
    LiveSplits(rows, s, lo, |rows|);
    SplitOneMore(Concat(st.sent), st.pending, Live(rows, s, lo), Live(rows, lo, |rows|));
  }

  lemma SplitOneMore(a: seq<Job>, b: seq<Job>, c: seq<Job>, d: seq<Job>)
    requires a + b == c + d && |d| == |b| + 1 && a != []
    ensures d == [a[|a| - 1]] + b
  {
    var front, last := a[..|a| - 1], [a[|a| - 1]];
    assert front + (last + b) == a + b;
    SameSplit(front, last + b, c, d);
  }

  /** A plain success changes nothing: the rows that waited were marked before. */
  lemma TrailingSuccess(st: State, s: nat, rows: seq<Row>, b: nat)
    requires Marked(st, s, rows, b) && st.row + 1 == |rows| && rows[st.row].ignored && st.pending != []
    ensures Trailing(st, Good).0.status == st.status
  {
    var lo, last := First(st, s, rows), LastUsed(st.status, |rows| - 1);
    WaitingRows(st, s, rows, b);
    LiveRows(rows, lo, st.row, 0);
    LastUsedIsLast(st.status, |rows| - 1, Live(rows, lo, st.row)[0].row);
    assert lo <= last < st.row && st.status[last] == SUCCESS;
  }

  lemma {:induction false} LastUsedIsLast(status: seq<ParamStatus>, i: int, j: nat)
    requires j <= i < |status| && status[j] != UNUSED
    ensures LastUsed(status, i) >= j
    decreases i
  {
    if status[i] == UNUSED { LastUsedIsLast(status, i - 1, j); }
  }

  // ----- Whole executions -----

  lemma {:induction false} InConcat(groups: seq<seq<Job>>, k: nat, i: nat) returns (a: nat)
    requires k < |groups| && i < |groups[k]|
    ensures a < |Concat(groups)| && Concat(groups)[a] == groups[k][i]
  {
    if k == 0 {
      a := i;
    } else {
      a := InConcat(groups[1..], k - 1, i);
      a := a + |groups[0]|;
    }
  }

  /** Every row of the first `n` sends has the code of the reply to its send. */
  ghost predicate ReportedTo(st: State, reply: nat -> Reply, n: nat) {
    forall k, i :: 0 <= k < n && k < |st.sent| && 0 <= i < |st.sent[k]| ==>
      0 <= st.sent[k][i].row < |st.status| && st.status[st.sent[k][i].row] == CodeOf(reply(k), |st.sent[k]| - 1)
  }

  ghost predicate Reported(st: State, reply: nat -> Reply) {
    ReportedTo(st, reply, |st.sent|)
  }

  lemma SentEarlier(st: State, s: nat, rows: seq<Row>, b: nat, k: nat, i: nat)
    requires Kept(st, s, rows, b, []) && k < |st.sent| && i < |st.sent[k]|
    ensures s <= st.sent[k][i].row < First(st, s, rows)
  {
    var a := InConcat(st.sent, k, i);
    WaitingRows(st, s, rows, b);
    LiveRows(rows, s, First(st, s, rows), a);
  }

  lemma FlushReports(st: State, s: nat, rows: seq<Row>, b: nat, reply: nat -> Reply)
    requires Marked(st, s, rows, b) && st.row < |rows| && !rows[st.row].ignored && rows[st.row].text.Some?
    requires Reported(st, reply)
    ensures Reported(Flush(st, Job(st.row, rows[st.row].text.value), reply(|st.sent|)), reply)
  {
    var job := Job(st.row, rows[st.row].text.value);
    var st1 := Flush(st, job, reply(|st.sent|));
    forall k, i | 0 <= k < |st1.sent| && 0 <= i < |st1.sent[k]|
      ensures 0 <= st1.sent[k][i].row < |st1.status|
      ensures st1.status[st1.sent[k][i].row] == CodeOf(reply(k), |st1.sent[k]| - 1)
    {
      if k < |st.sent| {
        assert st1.sent[k] == st.sent[k];
        SentEarlier(st, s, rows, b, k, i);
      } else {
        assert st1.sent[k] == st.pending + [job];
        BatchRows(st, s, rows, b);
        LiveRows(rows, First(st, s, rows), st.row + 1, i);
      }
      LiveSendTouchesItsBatch(st, s, rows, b, reply(|st.sent|), st1.sent[k][i].row);
    }
  }

  lemma DeferMarks(st: State, s: nat, rows: seq<Row>, b: nat, reply: nat -> Reply)
    requires Marked(st, s, rows, b) && Reported(st, reply) && st.row < |rows| && Defers(st, rows, b)
    requires !rows[st.row].ignored && rows[st.row].text.Some?
    ensures var st1 := Defer(st, Job(st.row, rows[st.row].text.value)); Marked(st1, s, rows, b) && Reported(st1, reply)
  {
    DeferKeeps(st, s, rows, b, []);
    forall k, i | 0 <= k < |st.sent| && 0 <= i < |st.sent[k]| ensures st.sent[k][i].row < st.row {
      SentEarlier(st, s, rows, b, k, i);
    }
  }

  lemma FlushMarks(st: State, s: nat, rows: seq<Row>, b: nat, reply: Reply)
    requires Marked(st, s, rows, b) && st.row + 1 < |rows| && !Defers(st, rows, b)
    requires !rows[st.row].ignored && rows[st.row].text.Some?
    ensures Marked(Flush(st, Job(st.row, rows[st.row].text.value), reply), s, rows, b)
  {
    var job := Job(st.row, rows[st.row].text.value);
    var st1 := Flush(st, job, reply);
    FlushSends(st, s, rows, b, [], reply);
    forall j: nat | j < |rows| ensures st1.status[j] == UNUSED <==> (j != st.row && st.status[j] == UNUSED) {
      LiveSendTouchesItsBatch(st, s, rows, b, reply, j);
    }
  }

  lemma SkipMarks(st: State, s: nat, rows: seq<Row>, b: nat)
    requires Marked(st, s, rows, b) && st.row < |rows| && rows[st.row].ignored
    ensures Marked(st.(row := st.row + 1), s, rows, b)
  {
    assert st.pending == [] || First(st.(row := st.row + 1), s, rows) == First(st, s, rows);
  }

  lemma FailureReports(st: State, s: nat, rows: seq<Row>, b: nat, reply: nat -> Reply)
    requires Marked(st, s, rows, b) && Reported(st, reply) && st.row < |rows|
    ensures Reported(st.(status := st.status[st.row := ERROR]), reply)
  {
    forall k, i | 0 <= k < |st.sent| && 0 <= i < |st.sent[k]| ensures st.sent[k][i].row < st.row {
      SentEarlier(st, s, rows, b, k, i);
    }
  }

  /** Unless it ends behind trailing ignored rows, a step keeps the statuses right. */
  lemma StepReports(st: State, s: nat, rows: seq<Row>, b: nat, reply: nat -> Reply)
    requires Marked(st, s, rows, b) && Reported(st, reply) && st.row < |rows|
    requires rows[st.row].ignored ==> st.row + 1 < |rows|
    ensures match Step(st, rows, b, reply(|st.sent|))
            case Goes(next) => Marked(next, s, rows, b) && Reported(next, reply)
            case Ends(last, _) => Reported(last, reply)
  {
    var r := rows[st.row];
    if r.ignored {
      SkipMarks(st, s, rows, b);
    } else if r.text.None? {
      FailureReports(st, s, rows, b, reply);
    } else if Defers(st, rows, b) {
      DeferMarks(st, s, rows, b, reply);
    } else {
      FlushReports(st, s, rows, b, reply);
      if st.row + 1 < |rows| { FlushMarks(st, s, rows, b, reply(|st.sent|)); }
    }
  }

  // ----- When a trailing send keeps the statuses of the sends before it -----

  lemma {:induction false} LiveHas(rows: seq<Row>, lo: nat, i: nat, r: nat)
    requires lo <= r < i <= |rows| && !rows[r].ignored
    ensures exists a :: 0 <= a < |Live(rows, lo, i)| && Live(rows, lo, i)[a].row == r
    decreases i
  {
    if r == i - 1 {
      assert Live(rows, lo, i)[|Live(rows, lo, i - 1)|].row == r;
    } else {
      LiveHas(rows, lo, i - 1, r);
      var a :| 0 <= a < |Live(rows, lo, i - 1)| && Live(rows, lo, i - 1)[a].row == r;
      assert Live(rows, lo, i)[a].row == r;
    }
  }

  lemma {:induction false} LastOfConcat(groups: seq<seq<Job>>, b: nat)
    requires groups != [] && AllOf(groups, b) && b > 0
    ensures var all, last := Concat(groups), groups[|groups| - 1];
            all != [] && all[|all| - 1] == last[b - 1]
  {
    var front, last := groups[..|groups| - 1], groups[|groups| - 1];
    assert groups == front + [last];
    ConcatSnoc(front, last);
  }

  /** Between the first row that waits and the first row reached, only the last row of the send before is live. */
  lemma RowsBetween(st: State, s: nat, rows: seq<Row>, b: nat, lo: nat, first: nat)
    requires Kept(st, s, rows, b, []) && st.row + 1 == |rows| && rows[st.row].ignored && st.sent != []
    requires lo == From(rows, s, |rows|, |st.pending| + 1) && first == First(st, s, rows)
    ensures lo <= first && Live(rows, lo, first) == [st.sent[|st.sent| - 1][b - 1]]
  {
    var last := st.sent[|st.sent| - 1][b - 1];
    LastOfConcat(st.sent, b);
    OneMoreIs(st, s, rows, b);
    WaitingRows(st, s, rows, b);
    FirstIsBehind(rows, s, |rows|, |st.pending|);
    LiveSplits(rows, lo, first, |rows|);
    SameSplit([last], st.pending, Live(rows, lo, first), Live(rows, first, |rows|));
  }

  /** The row reached too many is the last row of the send before, and no other row of an earlier send is reached. */
  lemma OneRowTooMany(st: State, s: nat, rows: seq<Row>, b: nat)
    requires Kept(st, s, rows, b, []) && st.row + 1 == |rows| && rows[st.row].ignored && st.sent != []
    ensures var lo, last := From(rows, s, |rows|, |st.pending| + 1), st.sent[|st.sent| - 1][b - 1];
            && lo <= last.row < First(st, s, rows) && !rows[last.row].ignored
            && forall r :: lo <= r < First(st, s, rows) && !rows[r].ignored ==> r == last.row
  {
    var lo, first := From(rows, s, |rows|, |st.pending| + 1), First(st, s, rows);
    var last := st.sent[|st.sent| - 1][b - 1];
    RowsBetween(st, s, rows, b, lo, first);
    LiveRows(rows, lo, first, 0);
    forall r | lo <= r < first && !rows[r].ignored ensures r == last.row {
      LiveHas(rows, lo, first, r);
    }
  }

  lemma {:induction false} FirstIsBehind(rows: seq<Row>, s: nat, i: nat, n: nat)
    requires s < i <= |rows| && rows[i - 1].ignored
    ensures n > 0 ==> From(rows, s, i, n) == From(rows, s, i - 1, n)
    ensures From(rows, s, i, n + 1) <= From(rows, s, i - 1, n)
  {
    FromShrinks(rows, s, i - 1, n);
  }

  lemma {:induction false} FromShrinks(rows: seq<Row>, s: nat, i: nat, n: nat)
    requires s <= i <= |rows|
    ensures From(rows, s, i, n + 1) <= From(rows, s, i, n)
  {
    if i > s && n > 0 { FromShrinks(rows, s, i - 1, if rows[i - 1].ignored then n else n - 1); }
  }

  /** The statuses of the rows of earlier sends survive the send behind trailing ignored rows if and only if that is a
      plain success, there was no earlier send, or its code is the one the row reached too many has anyway. */
  lemma TrailingKeepsIff(st: State, s: nat, rows: seq<Row>, b: nat, reply: nat -> Reply)
    requires Marked(st, s, rows, b) && Reported(st, reply) && st.row + 1 == |rows| && rows[st.row].ignored
    requires st.pending != []
    ensures var n, answer := |st.sent|, reply(|st.sent|);
            ReportedTo(Trailing(st, answer).0, reply, n) <==>
            answer == Good || n == 0 || CodeOf(answer, |st.pending|) == CodeOf(reply(n - 1), b - 1)
  {
    var n, answer := |st.sent|, reply(|st.sent|);
    var st1 := Trailing(st, answer).0;
    assert st1.sent == st.sent + [st.pending];
    if answer == Good {
      TrailingSuccess(st, s, rows, b);
    } else if n > 0 {
      var last := st.sent[n - 1][b - 1];
      OneRowTooMany(st, s, rows, b);
      TrailingSendTouchesOneMore(st, s, rows, b, answer, last.row);
      assert st1.sent[n - 1][b - 1] == last;
      if CodeOf(answer, |st.pending|) == CodeOf(reply(n - 1), b - 1) { TrailingKeeps(st, s, rows, b, reply); }
    }
  }

  lemma TrailingKeeps(st: State, s: nat, rows: seq<Row>, b: nat, reply: nat -> Reply)
    requires Marked(st, s, rows, b) && Reported(st, reply) && st.row + 1 == |rows| && rows[st.row].ignored
    requires st.pending != [] && st.sent != [] && reply(|st.sent|) != Good
    requires CodeOf(reply(|st.sent|), |st.pending|) == CodeOf(reply(|st.sent| - 1), b - 1)
    ensures ReportedTo(Trailing(st, reply(|st.sent|)).0, reply, |st.sent|)
  {
    var answer := reply(|st.sent|);
    var st1 := Trailing(st, answer).0;
    OneRowTooMany(st, s, rows, b);
    forall k, i | 0 <= k < |st.sent| && k < |st1.sent| && 0 <= i < |st1.sent[k]|
      ensures 0 <= st1.sent[k][i].row < |st1.status|
      ensures st1.status[st1.sent[k][i].row] == CodeOf(reply(k), |st1.sent[k]| - 1)
    {
      assert st1.sent[k] == st.sent[k];
      SentEarlier(st, s, rows, b, k, i);
      TrailingSendTouchesOneMore(st, s, rows, b, answer, st.sent[k][i].row);
    }
  }

  // ----- Every execution -----

  /** On the inputs: the execution reaches trailing ignored rows with `p` rows waiting behind `q` full sends, and the
      reply to their send gives a code other than that of the send before. */
  predicate Overwrites(s: nat, rows: seq<Row>, b: nat, reply: nat -> Reply)
    requires s < |rows| && b > 0
  {
    var n := |Live(rows, s, |rows|)|;
    var q, p := n / b, n % b;
    && rows[|rows| - 1].ignored && ConvertibleTo(rows, s, |rows|) && (forall k :: 0 <= k < q ==> reply(k) != Bad)
    && p > 0 && q > 0 && reply(q) != Good && CodeOf(reply(q), p) != CodeOf(reply(q - 1), b - 1)
  }

  /** The sends of an execution without one behind trailing ignored rows. */
  function LiveSends(st: State, s: nat, rows: seq<Row>, b: nat): nat
    requires s < |rows| && b > 0
  {
    var q := |Live(rows, s, |rows|)| / b;
    if rows[|rows| - 1].ignored && |st.sent| > q then q else |st.sent|
  }

  /** So far no row failed to convert and no send was refused. */
  predicate Sound(st: State, s: nat, rows: seq<Row>, reply: nat -> Reply) {
    ConvertibleTo(rows, s, st.row) && forall k :: 0 <= k < |st.sent| ==> reply(k) != Bad
  }

  lemma LastStepReportsIff(st: State, s: nat, rows: seq<Row>, b: nat, reply: nat -> Reply)
    requires Marked(st, s, rows, b) && Reported(st, reply) && Sound(st, s, rows, reply) && b > 0
    requires st.row + 1 == |rows| && rows[st.row].ignored
    ensures var st1 := Trailing(st, reply(|st.sent|)).0;
            ReportedTo(st1, reply, LiveSends(st1, s, rows, b)) <==> !Overwrites(s, rows, b, reply)
  {
    SentSoFar(st, s, rows, b);
    assert Live(rows, s, |rows|) == Live(rows, s, st.row);
    if st.pending != [] { TrailingKeepsIff(st, s, rows, b, reply); }
  }

  lemma StepStaysSound(st: State, s: nat, rows: seq<Row>, b: nat, reply: nat -> Reply)
    requires Marked(st, s, rows, b) && Sound(st, s, rows, reply) && st.row < |rows|
    requires Step(st, rows, b, reply(|st.sent|)).Goes?
    ensures Sound(Step(st, rows, b, reply(|st.sent|)).next, s, rows, reply)
  {
  }

  /** An execution that ends before trailing ignored rows overwrites nothing. */
  lemma EndsBefore(st: State, s: nat, rows: seq<Row>, b: nat, reply: nat -> Reply)
    requires Marked(st, s, rows, b) && st.row < |rows| && b > 0
    requires rows[st.row].ignored ==> st.row + 1 < |rows|
    requires Step(st, rows, b, reply(|st.sent|)).Ends?
    ensures !Overwrites(s, rows, b, reply)
  {
    if !rows[st.row].ignored && rows[st.row].text.Some? && st.row + 1 < |rows| { SendFits(st, s, rows, b, |rows|); }
  }

  lemma {:induction false} ReportsFromIff(st: State, s: nat, rows: seq<Row>, b: nat, reply: nat -> Reply)
    requires Marked(st, s, rows, b) && Reported(st, reply) && Sound(st, s, rows, reply) && st.row < |rows| && b > 0
    ensures var st1 := Execute(st, rows, b, reply).0;
            ReportedTo(st1, reply, LiveSends(st1, s, rows, b)) <==> !Overwrites(s, rows, b, reply)
    decreases |rows| - st.row
  {
    if rows[st.row].ignored && st.row + 1 == |rows| {
      LastStepReportsIff(st, s, rows, b, reply);
    } else {
      StepReports(st, s, rows, b, reply);
      match Step(st, rows, b, reply(|st.sent|))
      case Goes(next) =>
        StepStaysSound(st, s, rows, b, reply);
        ReportsFromIff(next, s, rows, b, reply);
      case Ends(_, _) => EndsBefore(st, s, rows, b, reply);
    }
  }

  /** Over every execution: each row of a send caused by a live row has, at the end, the code of the reply to that send,
      if and only if no send behind trailing ignored rows overwrites one of them. */
  lemma ExecutionReportsIff(s: nat, rows: seq<Row>, b: nat, reply: nat -> Reply)
    requires s < |rows| && b > 0
    ensures var st1 := Execute(Start(s, rows, []), rows, b, reply).0;
            ReportedTo(st1, reply, LiveSends(st1, s, rows, b)) <==> !Overwrites(s, rows, b, reply)
  {
    ReportsFromIff(Start(s, rows, []), s, rows, b, reply);
  }

  // ----- The statuses in words -----

  /** Every row sent has the code of the reply to its send, counting `live` sends caused by live rows and then perhaps
      one behind trailing ignored rows; with `over`, the last row of the last live send may have another. */
  ghost predicate Told(st: State, reply: nat -> Reply, live: nat, b: nat, over: bool) {
    forall k, i :: 0 <= k < |st.sent| && 0 <= i < |st.sent[k]| ==>
      && 0 <= st.sent[k][i].row < |st.status|
      && (|| st.status[st.sent[k][i].row] == CodeOf(reply(k), if k < live then |st.sent[k]| - 1 else |st.sent[k]|)
          || (over && ExceptedRow(st, live, b, st.sent[k][i].row)))
  }

  predicate ExceptedRow(st: State, live: nat, b: nat, row: int) {
    0 < live <= |st.sent| && 0 < b <= |st.sent[live - 1]| && row == st.sent[live - 1][b - 1].row
  }

  lemma TrailingTells(st: State, s: nat, rows: seq<Row>, b: nat, reply: nat -> Reply, over: bool)
    requires Marked(st, s, rows, b) && Reported(st, reply) && st.row + 1 == |rows| && rows[st.row].ignored
    requires st.pending != [] && b > 0
    requires !over ==> var n, answer := |st.sent|, reply(|st.sent|);
                       answer == Good || n == 0 || CodeOf(answer, |st.pending|) == CodeOf(reply(n - 1), b - 1)
    ensures Told(Trailing(st, reply(|st.sent|)).0, reply, |st.sent|, b, over)
  {
    var n, answer := |st.sent|, reply(|st.sent|);
    var st1 := Trailing(st, answer).0;
    assert st1.sent == st.sent + [st.pending];
    if answer == Good { TrailingSuccess(st, s, rows, b); }
    forall k, i | 0 <= k < |st1.sent| && 0 <= i < |st1.sent[k]|
      ensures 0 <= st1.sent[k][i].row < |st1.status|
      ensures || st1.status[st1.sent[k][i].row] == CodeOf(reply(k), if k < n then |st1.sent[k]| - 1 else |st1.sent[k]|)
              || (over && ExceptedRow(st1, n, b, st1.sent[k][i].row))
    {
      if k < n {
        assert st1.sent[k] == st.sent[k];
        TrailingTellsEarlier(st, s, rows, b, reply, over, k, i);
      } else {
        TrailingTellsOwn(st, s, rows, b, answer, i);
      }
    }
  }

  lemma TrailingTellsOwn(st: State, s: nat, rows: seq<Row>, b: nat, answer: Reply, i: nat)
    requires Marked(st, s, rows, b) && st.row + 1 == |rows| && rows[st.row].ignored && i < |st.pending|
    ensures 0 <= st.pending[i].row < |st.status|
    ensures Trailing(st, answer).0.status[st.pending[i].row] == CodeOf(answer, |st.pending|)
  {
    var j := st.pending[i].row;
    WaitingRows(st, s, rows, b);
    LiveRows(rows, First(st, s, rows), st.row, i);
    FirstIsBehind(rows, s, |rows|, |st.pending|);
    if answer == Good {
      TrailingSuccess(st, s, rows, b);
    } else {
      TrailingSendTouchesOneMore(st, s, rows, b, answer, j);
    }
  }

  lemma TrailingTellsEarlier(
    st: State, s: nat, rows: seq<Row>, b: nat, reply: nat -> Reply, over: bool, k: nat, i: nat)
    requires Marked(st, s, rows, b) && Reported(st, reply) && st.row + 1 == |rows| && rows[st.row].ignored
    requires st.pending != [] && b > 0 && k < |st.sent| && i < |st.sent[k]|
    requires !over ==> var n, answer := |st.sent|, reply(|st.sent|);
                       answer == Good || CodeOf(answer, |st.pending|) == CodeOf(reply(n - 1), b - 1)
    ensures var n, row, st1 := |st.sent|, st.sent[k][i].row, Trailing(st, reply(|st.sent|)).0;
            && 0 <= row < |st1.status|
            && (st1.status[row] == CodeOf(reply(k), |st.sent[k]| - 1) || (over && ExceptedRow(st, n, b, row)))
  {
    var n, answer := |st.sent|, reply(|st.sent|);
    SentEarlier(st, s, rows, b, k, i);
    if answer == Good {
      TrailingSuccess(st, s, rows, b);
    } else {
      OneRowTooMany(st, s, rows, b);
      TrailingSendTouchesOneMore(st, s, rows, b, answer, st.sent[k][i].row);
      assert |st.sent[n - 1]| == b;
      assert st.status[st.sent[n - 1][b - 1].row] == CodeOf(reply(n - 1), b - 1);
    }
  }

  lemma LastStepTells(st: State, s: nat, rows: seq<Row>, b: nat, reply: nat -> Reply)
    requires Marked(st, s, rows, b) && Reported(st, reply) && Sound(st, s, rows, reply) && b > 0
    requires st.row + 1 == |rows| && rows[st.row].ignored
    ensures var st1 := Trailing(st, reply(|st.sent|)).0;
            Told(st1, reply, LiveSends(st1, s, rows, b), b, Overwrites(s, rows, b, reply))
  {
    SentSoFar(st, s, rows, b);
    assert Live(rows, s, |rows|) == Live(rows, s, st.row);
    if st.pending != [] { TrailingTells(st, s, rows, b, reply, Overwrites(s, rows, b, reply)); }
  }

  lemma ReportedIsTold(st: State, reply: nat -> Reply, live: nat, b: nat, over: bool)
    requires Reported(st, reply) && live >= |st.sent|
    ensures Told(st, reply, live, b, over)
  {
  }

  lemma EndedLive(st: State, s: nat, rows: seq<Row>, b: nat, reply: nat -> Reply)
    requires Marked(st, s, rows, b) && st.row < |rows| && b > 0
    requires rows[st.row].ignored ==> st.row + 1 < |rows|
    requires Step(st, rows, b, reply(|st.sent|)).Ends?
    ensures var st1 := Step(st, rows, b, reply(|st.sent|)).last; LiveSends(st1, s, rows, b) >= |st1.sent|
  {
    if !rows[st.row].ignored && rows[st.row].text.Some? {
      if st.row + 1 < |rows| { SendFits(st, s, rows, b, |rows|); }
    } else {
      FullLength(st, s, rows, b);
      LiveGrows(rows, s, st.row, |rows|);
      Fits(|Live(rows, s, |rows|)|, b, |st.sent|);
    }
  }

  lemma {:induction false} ToldFrom(st: State, s: nat, rows: seq<Row>, b: nat, reply: nat -> Reply)
    requires Marked(st, s, rows, b) && Reported(st, reply) && Sound(st, s, rows, reply) && st.row < |rows| && b > 0
    ensures var st1 := Execute(st, rows, b, reply).0;
            Told(st1, reply, LiveSends(st1, s, rows, b), b, Overwrites(s, rows, b, reply))
    decreases |rows| - st.row
  {
    if rows[st.row].ignored && st.row + 1 == |rows| {
      LastStepTells(st, s, rows, b, reply);
    } else {
      StepReports(st, s, rows, b, reply);
      match Step(st, rows, b, reply(|st.sent|))
      case Goes(next) =>
        StepStaysSound(st, s, rows, b, reply);
        ToldFrom(next, s, rows, b, reply);
      case Ends(last, _) =>
        EndedLive(st, s, rows, b, reply);
        ReportedIsTold(last, reply, LiveSends(last, s, rows, b), b, Overwrites(s, rows, b, reply));
    }
  }

  /** Over every execution, what the application finds for a row that was sent. A refused send leaves ERROR. SUCCESS is
      left by a plain success, or by one with information but no notice when rows were deferred before; any other
      success with information leaves SUCCESS_WITH_INFO. Only the last row of the last live send may differ, when a
      send behind trailing ignored rows overwrites it. */
  lemma StatusesInWords(s: nat, rows: seq<Row>, b: nat, reply: nat -> Reply, k: nat, i: nat)
    requires s < |rows| && b > 0
    requires var st1 := Execute(Start(s, rows, []), rows, b, reply).0; k < |st1.sent| && i < |st1.sent[k]|
    requires var st1 := Execute(Start(s, rows, []), rows, b, reply).0;
             !(Overwrites(s, rows, b, reply) && ExceptedRow(st1, LiveSends(st1, s, rows, b), b, st1.sent[k][i].row))
    ensures var st1 := Execute(Start(s, rows, []), rows, b, reply).0;
            var row := st1.sent[k][i].row;
            var deferred := if k < LiveSends(st1, s, rows, b) then |st1.sent[k]| - 1 else |st1.sent[k]|;
            && 0 <= row < |st1.status|
            && (reply(k) == Bad <==> st1.status[row] == ERROR)
            && (reply(k) == Good || (reply(k) == Info(false) && deferred > 0) <==> st1.status[row] == SUCCESS)
            && (reply(k) == Info(true) || (reply(k) == Info(false) && deferred == 0) <==>
                  st1.status[row] == SUCCESS_WITH_INFO)
  {
    ToldFrom(Start(s, rows, []), s, rows, b, reply);
  }

  /** How an execution ended whose last row taken is `r`, and what the rows that were not sent are left with. */
  predicate EndsBehind(last: State, outcome: Outcome, s: nat, rows: seq<Row>, reply: nat -> Reply, r: nat)
    requires r < |rows|
  {
    && |last.status| == |rows| && r <= last.row <= r + 1
    && (forall j :: 0 <= j < |rows| && (j < s || rows[j].ignored || j > r) ==> last.status[j] == UNUSED)
    && (outcome == ServerError <==> last.sent != [] && reply(|last.sent| - 1) == Bad)
    && (outcome == ConversionError <==> !rows[r].ignored && rows[r].text.None?)
    && (outcome == ConversionError ==> last.status[r] == ERROR)
    && (outcome == ConversionError ==> forall i :: 0 <= i < |last.pending| ==>
          0 <= last.pending[i].row < |rows| && last.status[last.pending[i].row] == SUCCESS)
    && (outcome == Finished <==> r + 1 == |rows| && outcome != ServerError && outcome != ConversionError)
  }

  lemma PendingStatuses(st: State, s: nat, rows: seq<Row>, b: nat, i: nat)
    requires Marked(st, s, rows, b) && i < |st.pending|
    ensures 0 <= st.pending[i].row < st.row && st.status[st.pending[i].row] == SUCCESS
  {
    WaitingRows(st, s, rows, b);
    LiveRows(rows, First(st, s, rows), st.row, i);
  }

  lemma FlushEndsWell(st: State, s: nat, rows: seq<Row>, b: nat, reply: nat -> Reply)
    requires Marked(st, s, rows, b) && Sound(st, s, rows, reply) && st.row < |rows|
    requires !rows[st.row].ignored && rows[st.row].text.Some? && !Defers(st, rows, b)
    requires reply(|st.sent|) == Bad || st.row + 1 == |rows|
    ensures match Step(st, rows, b, reply(|st.sent|))
            case Goes(_) => false
            case Ends(last, outcome) => outcome != ConversionError && last.row == st.row + 1 && last.sent != []
                                        && (outcome == ServerError <==> reply(|last.sent| - 1) == Bad)
                                        && |last.status| == |rows|
                                        && forall j :: 0 <= j < |rows| && (j < s || rows[j].ignored || j > st.row) ==>
                                             last.status[j] == UNUSED
  {
    var job := Job(st.row, rows[st.row].text.value);
    forall j: nat | j < |rows| && (j < s || rows[j].ignored || j > st.row)
      ensures Flush(st, job, reply(|st.sent|)).status[j] == UNUSED
    {
      LiveSendTouchesItsBatch(st, s, rows, b, reply(|st.sent|), j);
    }
  }

  lemma TrailingEndsWell(st: State, s: nat, rows: seq<Row>, b: nat, reply: nat -> Reply)
    requires Marked(st, s, rows, b) && Sound(st, s, rows, reply) && st.row + 1 == |rows| && rows[st.row].ignored
    ensures var (last, outcome) := Trailing(st, reply(|st.sent|)); EndsBehind(last, outcome, s, rows, reply, st.row)
  {
    var answer := reply(|st.sent|);
    if st.pending != [] {
      if answer == Good {
        TrailingSuccess(st, s, rows, b);
      } else {
        forall j: nat | j < |rows| && (j < s || rows[j].ignored)
          ensures Trailing(st, answer).0.status[j] == UNUSED
        {
          TrailingSendTouchesOneMore(st, s, rows, b, answer, j);
        }
      }
    }
  }

  lemma StepEndsWell(st: State, s: nat, rows: seq<Row>, b: nat, reply: nat -> Reply)
    requires Marked(st, s, rows, b) && Sound(st, s, rows, reply) && st.row < |rows|
    ensures match Step(st, rows, b, reply(|st.sent|))
            case Goes(_) => true
            case Ends(last, outcome) => EndsBehind(last, outcome, s, rows, reply, st.row)
  {
    if rows[st.row].ignored {
      if st.row + 1 == |rows| { TrailingEndsWell(st, s, rows, b, reply); }
    } else if rows[st.row].text.None? {
      forall i | 0 <= i < |st.pending|
        ensures 0 <= st.pending[i].row < st.row && st.status[st.pending[i].row] == SUCCESS
      {
        PendingStatuses(st, s, rows, b, i);
      }
    } else if !Defers(st, rows, b) && (reply(|st.sent|) == Bad || st.row + 1 == |rows|) {
      FlushEndsWell(st, s, rows, b, reply);
    }
  }

  lemma {:induction false} EndsFrom(st: State, s: nat, rows: seq<Row>, b: nat, reply: nat -> Reply) returns (r: nat)
    requires Marked(st, s, rows, b) && Reported(st, reply) && Sound(st, s, rows, reply) && st.row < |rows|
    ensures st.row <= r < |rows|
    ensures var (last, outcome) := Execute(st, rows, b, reply); EndsBehind(last, outcome, s, rows, reply, r)
    decreases |rows| - st.row
  {
    r := st.row;
    StepEndsWell(st, s, rows, b, reply);
    match Step(st, rows, b, reply(|st.sent|))
    case Goes(next) =>
      StepReports(st, s, rows, b, reply);
      StepStaysSound(st, s, rows, b, reply);
      r := EndsFrom(next, s, rows, b, reply);
    case Ends(_, _) =>
  }

  /** Over every execution, with `r` the row taken last: a server error means that the last send was refused, a
      conversion error that row `r` is live and cannot be converted. That row is left with ERROR and those deferred
      before it with SUCCESS, though they were not sent; ignored rows and rows not reached stay unused. */
  lemma EndInWords(s: nat, rows: seq<Row>, b: nat, reply: nat -> Reply) returns (r: nat)
    requires s < |rows| && b > 0
    ensures s <= r < |rows|
    ensures var (last, outcome) := Execute(Start(s, rows, []), rows, b, reply);
            EndsBehind(last, outcome, s, rows, reply, r)
  {
    r := EndsFrom(Start(s, rows, []), s, rows, b, reply);
  }

  function NoticeOnSecond(k: nat): Reply {
    if k == 0 then Good else Info(true)
  }

  /** With an ignored last row the status of another send can be overwritten: the notice belongs to the
      third row, which is sent alone. */
  lemma TrailingSendOverwrites()
    ensures var rows := [Row(false, Some("a")), Row(false, Some("b")), Row(false, Some("c")), Row(true, None)];
            Execute(Start(0, rows, []), rows, 2, NoticeOnSecond).0.status ==
            [SUCCESS, SUCCESS_WITH_INFO, SUCCESS_WITH_INFO, UNUSED]
  {
    var rows := [Row(false, Some("a")), Row(false, Some("b")), Row(false, Some("c")), Row(true, None)];
    var a, b, c := Job(0, "a"), Job(1, "b"), Job(2, "c");
    var st1 := State(1, [a], [], [SUCCESS, UNUSED, UNUSED, UNUSED]);
    assert Defer(Start(0, rows, []), a) == st1;
    var st2 := State(2, [], [[a, b]], [SUCCESS, SUCCESS, UNUSED, UNUSED]);
    assert [a] + [b] == [a, b];
    assert Flush(st1, b, Good) == st2;
    var st3 := State(3, [c], [[a, b]], [SUCCESS, SUCCESS, SUCCESS, UNUSED]);
    assert Defer(st2, c) == st3;
    assert Execute(st3, rows, 2, NoticeOnSecond) == Trailing(st3, Info(true));
    assert Execute(st2, rows, 2, NoticeOnSecond) == Execute(st3, rows, 2, NoticeOnSecond);
    assert Execute(st1, rows, 2, NoticeOnSecond) == Execute(st2, rows, 2, NoticeOnSecond);
    assert LastUsed(st3.status, 3) == 2;
    var t := [SUCCESS, SUCCESS, SUCCESS_WITH_INFO, UNUSED];
    assert Touch(st3.status, 2, 2, SUCCESS_WITH_INFO) == Touch(t, 1, 1, SUCCESS_WITH_INFO);
    assert Touch(t, 1, 1, SUCCESS_WITH_INFO) == [SUCCESS, SUCCESS_WITH_INFO, SUCCESS_WITH_INFO, UNUSED];
  }
}
