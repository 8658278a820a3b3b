/** Every live row is sent exactly once and in order, and which statuses a send touches. */
module BatchTheorems {
  import opened Basics
  import opened Batch

  // ----- Lists -----

  predicate AllOf(groups: seq<seq<Job>>, b: nat) {
    forall k :: 0 <= k < |groups| ==> |groups[k]| == b
  }

  /** Pieces of `b`, the last one possibly shorter but not empty. */
  predicate Cut(groups: seq<seq<Job>>, b: nat) {
    groups == [] || (AllOf(groups[..|groups| - 1], b) && 0 < |groups[|groups| - 1]| <= b)
  }

  lemma {:induction false} CutIsChunks(groups: seq<seq<Job>>, b: nat)
    requires b > 0 && Cut(groups, b)
    ensures groups == Chunks(Concat(groups), b)
  {
    if groups != [] {
      var rest := groups[1..];
      if rest == [] {
        assert Concat(groups) == groups[0] + [] == groups[0];
      } else {
        assert groups[..|groups| - 1][0] == groups[0];
        assert rest[|rest| - 1] == groups[|groups| - 1];
        forall k | 0 <= k < |rest| - 1 ensures |rest[k]| == b { assert groups[..|groups| - 1][k + 1] == rest[k]; }
        CutIsChunks(rest, b);
        assert rest[0] != [] by { if |rest| > 1 { assert |rest[..|rest| - 1][0]| == b; } }
        var x := Concat(groups);
        assert x[..b] == groups[0] && x[b..] == Concat(rest) && |Concat(rest)| > 0;
      }
    }
  }

  // ----- One execution -----

  /** Between rows: what was pending before, followed by the live rows taken, is what was sent followed by
      what is pending; all sends were full. */
  predicate Kept(st: State, s: nat, rows: seq<Row>, b: nat, before: seq<Job>) {
    && s <= st.row <= |rows| == |st.status|
    && Concat(st.sent) + st.pending == before + Live(rows, s, st.row)
    && AllOf(st.sent, b) && |st.pending| < b
  }

  lemma BothGrow(a: seq<Job>, b: seq<Job>, c: seq<Job>, d: seq<Job>, job: Job)
    requires a + b == c + d
    ensures a + (b + [job]) == c + (d + [job])
  {
    assert a + (b + [job]) == (a + b) + [job] && c + (d + [job]) == (c + d) + [job];
  }

  lemma DeferKeeps(st: State, s: nat, rows: seq<Row>, b: nat, before: seq<Job>)
    requires Kept(st, s, rows, b, before) && st.row < |rows| && Defers(st, rows, b)
    requires !rows[st.row].ignored && rows[st.row].text.Some?
    ensures Kept(Defer(st, Job(st.row, rows[st.row].text.value)), s, rows, b, before)
  {
    var job := Job(st.row, rows[st.row].text.value);
    BothGrow(Concat(st.sent), st.pending, before, Live(rows, s, st.row), job);
  }

  /** What an execution leaves, having taken the live rows before `k`; the ways it can end. */
  predicate Accounted(st: State, outcome: Outcome, s: nat, rows: seq<Row>, b: nat, before: seq<Job>, k: nat) {
    && s <= k <= |rows|
    && Concat(st.sent) + st.pending == before + Live(rows, s, k)
    && Cut(st.sent, b) && |st.pending| < b
    && (outcome == Finished ==> k == |rows|)
    && (outcome != ConversionError ==> st.pending == [])
    && (outcome == ConversionError ==> k < |rows| && !rows[k].ignored && rows[k].text.None? && AllOf(st.sent, b))
  }

  lemma FlushSends(st: State, s: nat, rows: seq<Row>, b: nat, before: seq<Job>, reply: Reply)
    requires Kept(st, s, rows, b, before) && st.row < |rows|
    requires !rows[st.row].ignored && rows[st.row].text.Some?
    ensures var st1 := Flush(st, Job(st.row, rows[st.row].text.value), reply);
            && Concat(st1.sent) == before + Live(rows, s, st1.row) && st1.pending == []
            && Cut(st1.sent, b)
            && (!Defers(st, rows, b) && st1.row < |rows| ==> Kept(st1, s, rows, b, before))
  {
    var job := Job(st.row, rows[st.row].text.value);
    ConcatSnoc(st.sent, st.pending + [job]);
    BothGrow(Concat(st.sent), st.pending, before, Live(rows, s, st.row), job);
    CutSnoc(st.sent, st.pending + [job], b);
  }

  lemma TrailingSends(st: State, s: nat, rows: seq<Row>, b: nat, before: seq<Job>, reply: Reply)
    requires Kept(st, s, rows, b, before) && st.row + 1 == |rows| && rows[st.row].ignored
    ensures Accounted(Trailing(st, reply).0, Trailing(st, reply).1, s, rows, b, before, |rows|)
  {
    assert Live(rows, s, |rows|) == Live(rows, s, st.row);
    if st.pending == [] {
      FullIsCut(st.sent, b);
    } else {
      var sent := st.sent + [st.pending];
      CutSnoc(st.sent, st.pending, b);
      assert Concat(sent) + [] == before + Live(rows, s, |rows|) by { ConcatSnoc(st.sent, st.pending); }
    }
  }

  lemma FullIsCut(groups: seq<seq<Job>>, b: nat)
    requires AllOf(groups, b) && b > 0
    ensures Cut(groups, b)
  {
  }

  lemma CutSnoc(groups: seq<seq<Job>>, g: seq<Job>, b: nat)
    requires AllOf(groups, b) && 0 < |g| <= b
    ensures Cut(groups + [g], b)
  {
    assert (groups + [g])[..|groups|] == groups;
  }

  lemma FlushEnds(st: State, s: nat, rows: seq<Row>, b: nat, before: seq<Job>, reply: Reply)
    requires Kept(st, s, rows, b, before) && st.row < |rows| && (reply == Bad || st.row + 1 == |rows|)
    requires !rows[st.row].ignored && rows[st.row].text.Some?
    ensures Accounted(Flush(st, Job(st.row, rows[st.row].text.value), reply),
                      if reply == Bad then ServerError else Finished, s, rows, b, before, st.row + 1)
  {
    FlushSends(st, s, rows, b, before, reply);
  }

  lemma ConversionStops(st: State, s: nat, rows: seq<Row>, b: nat, before: seq<Job>)
    requires Kept(st, s, rows, b, before) && st.row < |rows| && !rows[st.row].ignored && rows[st.row].text.None?
    ensures Accounted(st.(status := st.status[st.row := ERROR]), ConversionError, s, rows, b, before, st.row)
  {
    FullIsCut(st.sent, b);
  }

  lemma StepConserves(st: State, s: nat, rows: seq<Row>, b: nat, reply: Reply, before: seq<Job>)
    requires Kept(st, s, rows, b, before) && st.row < |rows|
    ensures match Step(st, rows, b, reply)
            case Goes(next) => Kept(next, s, rows, b, before)
            case Ends(last, outcome) =>
              Accounted(last, outcome, s, rows, b, before, if outcome == ConversionError then st.row else st.row + 1)
  {
    var r := rows[st.row];
    if r.ignored && st.row + 1 == |rows| {
      TrailingSends(st, s, rows, b, before, reply);
    } else if !r.ignored && r.text.None? {
      ConversionStops(st, s, rows, b, before);
    } else if !r.ignored && Defers(st, rows, b) {
      DeferKeeps(st, s, rows, b, before);
    } else if !r.ignored && (reply == Bad || st.row + 1 == |rows|) {
      FlushEnds(st, s, rows, b, before, reply);
    } else if !r.ignored {
      FlushSends(st, s, rows, b, before, reply);
    }
  }

  /** Conservation over every execution: nothing is lost, repeated or reordered; deferred rows remain only
      when a later row's parameters cannot be converted. */
  lemma {:induction false} ExecutionConserves(
    st: State, s: nat, rows: seq<Row>, b: nat, reply: nat -> Reply, before: seq<Job>) returns (k: nat)
    requires Kept(st, s, rows, b, before) && st.row < |rows|
    ensures var (st1, outcome) := Execute(st, rows, b, reply);
            Accounted(st1, outcome, s, rows, b, before, k)
    decreases |rows| - st.row
  {
    StepConserves(st, s, rows, b, reply(|st.sent|), before);
    match Step(st, rows, b, reply(|st.sent|))
    case Goes(next) => k := ExecutionConserves(next, s, rows, b, reply, before);
    case Ends(_, outcome) => k := if outcome == ConversionError then st.row else st.row + 1;
  }

  /** Before the first row of an execution that starts at row `s`. */
  function Start(s: nat, rows: seq<Row>, before: seq<Job>): State {
    State(s, before, [], seq(|rows|, _ => UNUSED))
  }

  predicate Convertible(rows: seq<Row>) {
    forall i :: 0 <= i < |rows| ==> rows[i].ignored || rows[i].text.Some?
  }

  lemma {:induction false} GoodRunsFinish(st: State, rows: seq<Row>, b: nat, reply: nat -> Reply)
    requires st.row < |rows| == |st.status| && Convertible(rows) && forall k :: reply(k) != Bad
    ensures Execute(st, rows, b, reply).1 == Finished
    decreases |rows| - st.row
  {
    match Step(st, rows, b, reply(|st.sent|))
    case Goes(next) => GoodRunsFinish(next, rows, b, reply);
    case Ends(_, _) =>
  }

  /** Exactly once: for every ignore mask and batch size an error-free execution sends the live rows, in
      order, cut into batches. Rows that an earlier execution left behind go first. */
  lemma EveryRowIsSentOnce(s: nat, rows: seq<Row>, b: nat, reply: nat -> Reply, before: seq<Job>)
    requires s < |rows| && |before| < b && Convertible(rows) && forall k :: reply(k) != Bad
    ensures var (st1, outcome) := Execute(Start(s, rows, before), rows, b, reply);
            outcome == Finished && st1.pending == [] && st1.sent == Chunks(before + Live(rows, s, |rows|), b)
  {
    var st := Start(s, rows, before);
    GoodRunsFinish(st, rows, b, reply);
    var k := ExecutionConserves(st, s, rows, b, reply, before);
    var st1 := Execute(st, rows, b, reply).0;
    CutIsChunks(st1.sent, b);
    assert Concat(st1.sent) + [] == Concat(st1.sent);
  }

  lemma {:induction false} LengthOfFull(groups: seq<seq<Job>>, b: nat)
    requires AllOf(groups, b)
    ensures |Concat(groups)| == |groups| * b
  {
    if groups != [] {
      assert |groups[0]| == b;
      forall k | 0 <= k < |groups[1..]| ensures |groups[1..][k]| == b { assert groups[1..][k] == groups[k + 1]; }
      LengthOfFull(groups[1..], b);
      assert |groups| * b == b + (|groups| - 1) * b;
    }
  }

  lemma AtLeastOne(e: int, b: nat)
    requires e >= 1
    ensures e * b >= b
  {
  }

  lemma QuotientIs(x: nat, b: nat, q: nat, r: nat)
    requires x == q * b + r && r < b
    ensures x / b == q && x % b == r
  {
    var d, m := x / b, x % b;
    assert (q - d) * b == m - r by { assert d * b + m == x; assert (q - d) * b == q * b - d * b; }
    if q > d { AtLeastOne(q - d, b); }
    if q < d { AtLeastOne(d - q, b); }
  }

  /** Between rows, the rows taken so far are full sends and a remainder. */
  lemma SentSoFar(st: State, s: nat, rows: seq<Row>, b: nat)
    requires Kept(st, s, rows, b, []) && b > 0
    ensures var n := |Live(rows, s, st.row)|; |st.sent| == n / b && |st.pending| == n % b
    ensures st.pending == Live(rows, s, st.row)[|st.sent| * b..]
  {
    var jobs := Live(rows, s, st.row);
    assert [] + jobs == jobs;
    LengthOfFull(st.sent, b);
    QuotientIs(|jobs|, b, |st.sent|, |st.pending|);
  }

  lemma {:induction false} LiveGrows(rows: seq<Row>, s: nat, i: nat, k: nat)
    requires s <= i <= k <= |rows|
    ensures |Live(rows, s, i)| <= |Live(rows, s, k)|
    decreases k
  {
    if i < k { LiveGrows(rows, s, i, k - 1); }
  }

  /** A full send before row `k` is one of those that fit. */
  lemma SendFits(st: State, s: nat, rows: seq<Row>, b: nat, k: nat)
    requires Kept(st, s, rows, b, []) && b > 0 && st.row < k <= |rows| && !rows[st.row].ignored
    requires |st.pending| + 1 >= b
    ensures |st.sent| < |Live(rows, s, k)| / b
  {
    FullLength(st, s, rows, b);
    LiveGrows(rows, s, st.row + 1, k);
    OneMoreFits(|Live(rows, s, k)|, b, |st.sent|);
  }

  lemma FullLength(st: State, s: nat, rows: seq<Row>, b: nat)
    requires Kept(st, s, rows, b, [])
    ensures |Live(rows, s, st.row)| == |st.sent| * b + |st.pending|
  {
    assert [] + Live(rows, s, st.row) == Live(rows, s, st.row);
    LengthOfFull(st.sent, b);
  }

  lemma OneMoreFits(n: nat, b: nat, q: nat)
    requires b > 0 && n >= q * b + b
    ensures q < n / b
  {
    assert (q + 1) * b == q * b + b;
    Fits(n, b, q + 1);
  }

  lemma Fits(n: nat, b: nat, q: nat)
    requires b > 0 && n >= q * b
    ensures n / b >= q
  {
    var d := n / b;
    assert d * b + n % b == n && (q - d) * b == q * b - d * b;
    if d < q { AtLeastOne(q - d, b); }
  }

  /** The live rows from `s` up to `k` can be converted. */
  predicate ConvertibleTo(rows: seq<Row>, s: nat, k: nat) {
    forall i :: s <= i < k && i < |rows| ==> rows[i].ignored || rows[i].text.Some?
  }

  lemma {:induction false} ReachesFailure(st: State, s: nat, rows: seq<Row>, b: nat, reply: nat -> Reply, k: nat)
    requires Kept(st, s, rows, b, []) && b > 0 && st.row <= k < |rows| && ConvertibleTo(rows, s, k)
    requires !rows[k].ignored && rows[k].text.None?
    requires forall j :: 0 <= j < |Live(rows, s, k)| / b ==> reply(j) != Bad
    ensures var (st1, outcome) := Execute(st, rows, b, reply);
            && outcome == ConversionError && |st1.pending| == |Live(rows, s, k)| % b
            && st1.pending == Live(rows, s, k)[|Live(rows, s, k)| - |st1.pending|..]
    decreases k - st.row
  {
    if st.row == k {
      SentSoFar(st, s, rows, b);
      assert [] + Live(rows, s, k) == Live(rows, s, k);
    } else {
      if !rows[st.row].ignored && !Defers(st, rows, b) { SendFits(st, s, rows, b, k); }
      StepConserves(st, s, rows, b, reply(|st.sent|), []);
      ReachesFailure(Step(st, rows, b, reply(|st.sent|)).next, s, rows, b, reply, k);
    }
  }

  /** On the inputs: `k` is the first live row whose parameters cannot be converted, and the sends before it are
      not refused. The rows deferred before it are neither sent nor dropped; they stay behind, for the next execution
      to send, if and only if the live rows before it do not fill their batches. */
  lemma RowsStayBehindIff(s: nat, rows: seq<Row>, b: nat, reply: nat -> Reply, k: nat)
    requires s <= k < |rows| && b > 0 && ConvertibleTo(rows, s, k) && !rows[k].ignored && rows[k].text.None?
    requires forall j :: 0 <= j < |Live(rows, s, k)| / b ==> reply(j) != Bad
    ensures var (st1, outcome) := Execute(Start(s, rows, []), rows, b, reply);
            var jobs := Live(rows, s, k);
            && outcome == ConversionError && st1.pending == jobs[|jobs| - |jobs| % b..]
            && (st1.pending != [] <==> |jobs| % b != 0)
  {
    ReachesFailure(Start(s, rows, []), s, rows, b, reply, k);
  }

  /** Without such a row nothing stays behind, whatever the server replies. */
  lemma NothingStaysBehind(s: nat, rows: seq<Row>, b: nat, reply: nat -> Reply, before: seq<Job>)
    requires s < |rows| && |before| < b && ConvertibleTo(rows, s, |rows|)
    ensures Execute(Start(s, rows, before), rows, b, reply).0.pending == []
  {
    var k := ExecutionConserves(Start(s, rows, before), s, rows, b, reply, before);
  }
}
