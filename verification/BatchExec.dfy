/** execute.c's row loop over the fields of the statement: PGAPI_Execute, Exec_with_parameters_resolved and
    param_status_batch_update for deferred execution. */
module BatchExec {
  import opened Basics
  import opened Batch
  import opened BatchTheorems

  /** Statement texts with semicolons between them. */
  function Joined(jobs: seq<Job>): string {
    if jobs == [] then ""
    else if |jobs| == 1 then jobs[0].text
    else Joined(jobs[..|jobs| - 1]) + ";" + jobs[|jobs| - 1].text
  }

  predicate NoEmpty(jobs: seq<Job>) {
    forall i :: 0 <= i < |jobs| ==> jobs[i].text != ""
  }

  /** The buffer of deferred statements holds these; `None`: it was never set up. */
  predicate Holds(buffer: Option<string>, jobs: seq<Job>) {
    NoEmpty(jobs) && if jobs == [] then buffer == None || buffer == Some("") else buffer == Some(Joined(jobs))
  }

  /** What is sent for a batch; an empty statement may stand in front, which the server skips. */
  predicate Renders(text: string, jobs: seq<Job>) {
    text == Joined(jobs) || text == ";" + Joined(jobs)
  }

  lemma JoinedSnoc(jobs: seq<Job>, job: Job)
    ensures Joined(jobs + [job]) == if jobs == [] then job.text else Joined(jobs) + ";" + job.text
    ensures NoEmpty(jobs) && jobs != [] ==> Joined(jobs) != ""
    ensures NoEmpty(jobs) && job.text != "" ==> NoEmpty(jobs + [job])
  {
    assert (jobs + [job])[..|jobs|] == jobs;
  }

  class StatementClass {
    const batchSize: nat
    var execCurrentRow: int
    var countOfDeffered: nat
    var stmtDeferred: Option<string>
    var paramStatus: array<ParamStatus>
    var sent: seq<string>  // by the current execution
    ghost var pending: seq<Job>
    ghost var groups: seq<seq<Job>>

    ghost predicate Valid()
      reads this
    {
      && countOfDeffered == |pending| && Holds(stmtDeferred, pending)
      && |sent| == |groups| && forall k :: 0 <= k < |sent| ==> Renders(sent[k], groups[k])
    }

    ghost function View(): State
      requires execCurrentRow >= 0
      reads this, paramStatus
    {
      State(execCurrentRow, pending, groups, paramStatus[..])
    }

    constructor (batchSize: nat, paramStatus: array<ParamStatus>)
      ensures Valid() && this.batchSize == batchSize && this.paramStatus == paramStatus && pending == []
      ensures execCurrentRow == -1 && sent == [] && stmtDeferred == None
    {
      this.batchSize, this.paramStatus := batchSize, paramStatus;
      execCurrentRow, countOfDeffered, stmtDeferred, sent, pending, groups := -1, 0, None, [], [], [];
    }

    method ParamStatusBatchUpdate(code: ParamStatus, targetRow: int, deferred: nat)
      requires targetRow < paramStatus.Length
      modifies paramStatus
      ensures paramStatus[..] == Touch(old(paramStatus[..]), targetRow, deferred + 1, code)
    {
      var i, j := targetRow, 0;
      while i >= 0 && j <= deferred
        invariant i < paramStatus.Length && 0 <= j <= deferred + 1
        invariant Touch(paramStatus[..], i, deferred + 1 - j, code) ==
                  Touch(old(paramStatus[..]), targetRow, deferred + 1, code)
        decreases i + 1
      {
        ghost var was := paramStatus[..];
        if paramStatus[i] != UNUSED {
          paramStatus[i] := code;
          assert paramStatus[..] == was[i := code];
          j := j + 1;
        }
        i := i - 1;
      }
    }

    /** The statuses after a send that was answered. */
    method ReportStatus(reply: Reply, row: int, deferred: nat)
      requires 0 <= row < paramStatus.Length
      modifies paramStatus
      ensures paramStatus[..] == Report(old(paramStatus[..]), row, deferred, reply)
    {
      match reply {
        case Good => paramStatus[row] := SUCCESS;
        case Info(notice) =>
          ParamStatusBatchUpdate(if deferred > 0 && !notice then SUCCESS else SUCCESS_WITH_INFO, row, deferred);
        case Bad => ParamStatusBatchUpdate(ERROR, row, deferred);
      }
    }

    /** A row that waits for others. */
    method DeferRow(text: string)
      requires Valid() && 0 <= execCurrentRow < paramStatus.Length && text != ""
      modifies this, paramStatus
      ensures Valid() && execCurrentRow >= 0 && paramStatus == old(paramStatus)
      ensures View() == Defer(old(View()), Job(old(execCurrentRow), text)) && sent == old(sent)
    {
      ghost var job := Job(execCurrentRow, text);
      JoinedSnoc(pending, job);
      if stmtDeferred == None { stmtDeferred := Some(""); }
      if stmtDeferred.value != "" {
        stmtDeferred := Some(stmtDeferred.value + ";" + text);
      } else {
        stmtDeferred := Some(text);
      }
      paramStatus[execCurrentRow] := SUCCESS;
      countOfDeffered := countOfDeffered + 1;
      execCurrentRow := execCurrentRow + 1;
      pending := pending + [job];
    }

    /** SC_execute: the text goes to the server. */
    method Send(text: string, ghost jobs: seq<Job>)
      requires |sent| == |groups| && Renders(text, jobs)
      requires forall k :: 0 <= k < |sent| ==> Renders(sent[k], groups[k])
      modifies this`sent, this`groups, this`countOfDeffered, this`stmtDeferred, this`pending
      ensures Valid() && sent == old(sent) + [text] && groups == old(groups) + [jobs] && pending == []
      ensures stmtDeferred == if old(stmtDeferred) == None then None else Some("")
    {
      sent, groups := sent + [text], groups + [jobs];
      countOfDeffered := 0;
      pending := [];
      stmtDeferred := if stmtDeferred == None then None else Some("");
    }

    /** The deferred statements and one more; behind a buffer that was set up and is empty the text begins with a
        semicolon. */
    method SendDeferred(text: string, ghost job: Job)
      requires Valid() && job.text == text != ""
      modifies this`sent, this`groups, this`countOfDeffered, this`stmtDeferred, this`pending
      ensures Valid() && groups == old(groups) + [old(pending) + [job]] && pending == []
      ensures sent == old(sent) + [if old(stmtDeferred) == None then text else old(stmtDeferred).value + ";" + text]
      ensures stmtDeferred == if old(stmtDeferred) == None then None else Some("")
    {
      JoinedSnoc(pending, job);
      var all := if stmtDeferred == None then text else stmtDeferred.value + ";" + text;
      assert "" + ";" + text == ";" + text;
      Send(all, pending + [job]);
    }

    /** A row that is sent with those that wait. */
    method FlushRow(text: string, reply: Reply)
      requires Valid() && 0 <= execCurrentRow < paramStatus.Length && text != ""
      modifies this, paramStatus
      ensures Valid() && execCurrentRow >= 0 && paramStatus == old(paramStatus)
      ensures View() == Flush(old(View()), Job(old(execCurrentRow), text), reply)
      ensures sent == old(sent) + [if old(stmtDeferred) == None then text else old(stmtDeferred).value + ";" + text]
      ensures stmtDeferred == if old(stmtDeferred) == None then None else Some("")
    {
      var deferred := countOfDeffered;
      paramStatus[execCurrentRow] := ERROR;
      assert paramStatus[..] == old(paramStatus[..])[execCurrentRow := ERROR];
      SendDeferred(text, Job(execCurrentRow, text));
      ReportStatus(reply, execCurrentRow, deferred);
      execCurrentRow := execCurrentRow + 1;
    }
 
    /** LAST_EXEC. */
    method ExecLast(reply: Reply) returns (outcome: Outcome)
      requires Valid() && execCurrentRow + 1 == paramStatus.Length && execCurrentRow >= 0
      modifies this, paramStatus
      ensures Valid() && paramStatus == old(paramStatus) && execCurrentRow == old(execCurrentRow)
      ensures (View(), outcome) == Trailing(old(View()), reply)
      ensures sent == old(sent) + if old(pending) == [] then [] else [Joined(old(pending))]
    {
      if pending != [] { JoinedSnoc(pending, pending[0]); }
      if stmtDeferred == None || stmtDeferred.value == "" { return Finished; }
      var row := paramStatus.Length - 1;
      if reply != Bad {
        var i := FindLastUsed();
        if i >= 0 { row := i; }
      }
      var deferred := countOfDeffered;
      Send(stmtDeferred.value, pending);
      ReportStatus(reply, row, deferred);
      outcome := if reply == Bad then ServerError else Finished;
    }

    method FindLastUsed() returns (i: int)
      ensures i == LastUsed(paramStatus[..], paramStatus.Length - 1)
    {
      i := paramStatus.Length - 1;
      while i >= 0 && paramStatus[i] == UNUSED
        invariant -1 <= i < paramStatus.Length
        invariant LastUsed(paramStatus[..], i) == LastUsed(paramStatus[..], paramStatus.Length - 1)
      {
        i := i - 1;
      }
    }

    /** One turn of the row loop. */
    method NextRow(rows: seq<Row>, reply: nat -> Reply) returns (done: bool, outcome: Outcome)
      requires Valid() && 0 <= execCurrentRow < |rows| == paramStatus.Length
      requires forall r :: r in rows ==> r.text != Some("")
      modifies this, paramStatus
      ensures Valid() && paramStatus == old(paramStatus) && execCurrentRow >= 0
      ensures if done then (View(), outcome) == Execute(old(View()), rows, batchSize, reply)
              else old(execCurrentRow) < execCurrentRow < |rows|
                   && Execute(View(), rows, batchSize, reply) == Execute(old(View()), rows, batchSize, reply)
    {
      var row := rows[execCurrentRow];
      done, outcome := false, Finished;
      if row.ignored {
        if execCurrentRow + 1 == |rows| {
          outcome := ExecLast(reply(|sent|));
          done := true;
        } else {
          execCurrentRow := execCurrentRow + 1;
        }
      } else if row.text.None? {
        paramStatus[execCurrentRow] := ERROR;
        assert paramStatus[..] == old(paramStatus[..])[execCurrentRow := ERROR];
        done, outcome := true, ConversionError;
      } else if execCurrentRow + 1 < |rows| && countOfDeffered + 1 < batchSize {
        DeferRow(row.text.value);
      } else {
        var answer := reply(|sent|);
        FlushRow(row.text.value, answer);
        if answer == Bad {
          done, outcome := true, ServerError;
        } else {
          done := execCurrentRow == |rows|;
        }
      }
    }

    /** PGAPI_Execute for rows whose execution may be deferred: `reply(k)` is what the server makes of the
        k-th send. */
    method PGAPIExecute(rows: seq<Row>, startRow: nat, reply: nat -> Reply) returns (outcome: Outcome)
      requires Valid() && startRow < |rows| == paramStatus.Length && forall r :: r in rows ==> r.text != Some("")
      modifies this, paramStatus
      ensures Valid() && paramStatus == old(paramStatus) && execCurrentRow == -1
      ensures var (st, o) := Execute(Start(startRow, rows, old(pending)), rows, batchSize, reply);
              pending == st.pending && groups == st.sent && paramStatus[..] == st.status && outcome == o
    {
      execCurrentRow, sent, groups := startRow, [], [];
      forall i | 0 <= i < paramStatus.Length { paramStatus[i] := UNUSED; }
      assert View() == Start(startRow, rows, old(pending));
      var done := false;
      outcome := Finished;
      while !done
        invariant Valid() && paramStatus == old(paramStatus) && 0 <= execCurrentRow
        invariant if done then (View(), outcome) == Execute(Start(startRow, rows, old(pending)), rows, batchSize, reply)
                  else execCurrentRow < |rows|
                       && Execute(View(), rows, batchSize, reply) ==
                          Execute(Start(startRow, rows, old(pending)), rows, batchSize, reply)
        decreases !done, |rows| - execCurrentRow
      {
        done, outcome := NextRow(rows, reply);
      }
      execCurrentRow := -1;
    }
  }
}
