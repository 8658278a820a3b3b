/** Reading one column in pieces with SQLGetData: what the calls hand out, over every sequence of buffer
    sizes. */
module GetDataSpec {
  import opened Basics
  import opened LiteralText

  // ----- Line ends -----

  /** Line feeds get a carriage return unless one stands there. */
  function Returned(v: string, convlf: bool, before: char): string {
    if v == "" then ""
    else (if convlf && v[0] == '\n' && before != '\r' then "\r\n" else [v[0]]) + Returned(v[1..], convlf, v[0])
  }

  /** The value of a text column as an application reads it. */
  function Converted(v: string, convlf: bool): string {
    Returned(v, convlf, '\0')
  }

  predicate HasCrLf(v: string) {
    exists i :: 0 < i < |v| && v[i - 1] == '\r' && v[i] == '\n'
  }

  lemma {:induction false} CollapsedReturned(v: string, before: char)
    ensures Collapsed(Returned(v, true, before)) == Collapsed(v)
  {
    if v != "" {
      var t := Returned(v[1..], true, v[0]);
      CollapsedReturned(v[1..], v[0]);
      if v[0] == '\n' && before != '\r' {
        assert Returned(v, true, before) == "\r\n" + t;
        assert ("\r\n" + t)[1..] == ['\n'] + t && (['\n'] + t)[1..] == t;
      } else {
        assert Returned(v, true, before) == [v[0]] + t;
        assert ([v[0]] + t)[1..] == t;
        if v[0] == '\r' && |v| > 1 { assert v[1..] != "" && t != "" && t[0] == v[1]; }
      }
    }
  }

  lemma {:induction false} CollapsedIsIff(v: string)
    ensures |Collapsed(v)| <= |v|
    ensures Collapsed(v) == v <==> !HasCrLf(v)
  {
    if v != "" {
      var rest := v[1..];
      CollapsedIsIff(rest);
      if HasCrLf(rest) {
        var i :| 0 < i < |rest| && rest[i - 1] == '\r' && rest[i] == '\n';
        assert v[i + 1 - 1] == '\r' && v[i + 1] == '\n';
      }
      if |v| > 1 && v[0] == '\r' && v[1] == '\n' {
        assert v[1 - 1] == '\r';
      } else {
        assert v == [v[0]] + rest && ([v[0]] + Collapsed(rest))[1..] == Collapsed(rest);
        if HasCrLf(v) {
          var i :| 0 < i < |v| && v[i - 1] == '\r' && v[i] == '\n';
          assert i > 1 && rest[i - 2] == '\r' && rest[i - 1] == '\n';
        }
      }
    }
  }

  /** A value read as a column and written back as a parameter, with line ends converted both ways, is
      stored again as it was exactly when it holds no CR LF. */
  lemma ReadThenWrittenIff(v: string)
    ensures Collapsed(Converted(v, true)) == v <==> !HasCrLf(v)
  {
    CollapsedReturned(v, '\0');
    CollapsedIsIff(v);
  }

  // ----- One call -----

  datatype Status = COPY_OK | COPY_RESULT_TRUNCATED | COPY_NO_DATA_FOUND

  /** Where the reading of a column stands. `Fresh`: nothing was read since the column was reset; a buffer
      of length `stale` may have been left behind by an earlier row. `Reading`: `left` characters are to
      come out of a buffer that has `slack` more bytes than the value. `Ended`: everything was handed out
      or given up. `Over`: the end was reported. */
  datatype Cursor = Fresh(stale: nat) | Reading(left: nat, slack: nat) | Ended | Over

  datatype Outcome = Outcome(status: Status, length: nat, copied: nat, next: Cursor)

  /** A call with a buffer of `size` bytes for a value of `n` characters. */
  function Call(c: Cursor, n: nat, size: nat): Outcome {
    match c
    case Fresh(stale) =>
      if size == 0 then Outcome(COPY_RESULT_TRUNCATED, n, 0, c)
      else if n + 1 <= size then Outcome(COPY_OK, n, n, Ended)
      else Outcome(COPY_RESULT_TRUNCATED, n, size - 1, Reading(n - (size - 1), if stale > n + 1 then stale - n else 1))
    case Reading(left, slack) =>
      if size == 0 then Outcome(COPY_OK, left, 0, Ended)
      else if left + slack <= size then Outcome(COPY_OK, left, Min(left, size - 1), Ended)
      else if left <= size - 1 then Outcome(COPY_RESULT_TRUNCATED, left, left, Ended)
      else Outcome(COPY_RESULT_TRUNCATED, left, size - 1, Reading(left - (size - 1), slack))
    case Ended => Outcome(COPY_NO_DATA_FOUND, 0, 0, Over)
    case Over =>
      if size == 0 then Outcome(COPY_RESULT_TRUNCATED, n, 0, Fresh(0)) else Outcome(COPY_NO_DATA_FOUND, 0, 0, Over)
  }

  /** Characters still to come. */
  function Left(c: Cursor, n: nat): nat {
    match c
    case Fresh(_) => n
    case Reading(left, _) => left
    case Ended => 0
    case Over => 0
  }

  predicate Fits(c: Cursor, n: nat) {
    c.Reading? ==> 0 < c.left <= n && 0 < c.slack
  }

  predicate Going(c: Cursor) {
    c.Fresh? || c.Reading?
  }

  lemma CallFits(c: Cursor, n: nat, size: nat)
    requires Fits(c, n)
    ensures var r := Call(c, n, size);
            && Fits(r.next, n) && r.copied <= r.length <= n
            && (Going(c) ==> r.length == Left(c, n) && (size > 0 ==> r.copied + Left(r.next, n) == Left(c, n)))
            && (Going(c) && size >= 2 ==> r.next == Ended || Left(r.next, n) == Left(c, n) - (size - 1))
  {
  }

  // ----- Sequences of calls -----

  /** The piece of `w` that a call puts into the application's buffer: it starts where as much is left as
      the call reports. */
  function Chunk(w: string, r: Outcome): string
    requires r.copied <= r.length <= |w|
  {
    w[|w| - r.length..|w| - r.length + r.copied]
  }

  /** All that calls with the given buffer sizes hand out. */
  function Collected(c: Cursor, w: string, sizes: seq<nat>): string
    requires Fits(c, |w|)
    decreases |sizes|
  {
    if sizes == [] then ""
    else
      CallFits(c, |w|, sizes[0]);
      Chunk(w, Call(c, |w|, sizes[0])) + Collected(Call(c, |w|, sizes[0]).next, w, sizes[1..])
  }

  function After(c: Cursor, n: nat, sizes: seq<nat>): Cursor
    decreases |sizes|
  {
    if sizes == [] then c else After(Call(c, n, sizes[0]).next, n, sizes[1..])
  }

  predicate Positive(sizes: seq<nat>) {
    forall i :: 0 <= i < |sizes| ==> sizes[i] > 0
  }

  lemma {:induction false} AfterFits(c: Cursor, n: nat, sizes: seq<nat>)
    requires Fits(c, n)
    ensures Fits(After(c, n, sizes), n)
    decreases |sizes|
  {
    if sizes != [] {
      CallFits(c, n, sizes[0]);
      AfterFits(Call(c, n, sizes[0]).next, n, sizes[1..]);
    }
  }

  lemma {:induction false} NothingAfterEnd(c: Cursor, w: string, sizes: seq<nat>)
    requires !Going(c) && Positive(sizes)
    ensures !Going(After(c, |w|, sizes)) && Collected(c, w, sizes) == ""
    ensures forall i :: 0 <= i < |sizes| ==> Call(After(c, |w|, sizes[..i]), |w|, sizes[i]).status == COPY_NO_DATA_FOUND
    decreases |sizes|
  {
    if sizes != [] {
      var r := Call(c, |w|, sizes[0]);
      NothingAfterEnd(r.next, w, sizes[1..]);
      forall i | 0 <= i < |sizes|
        ensures Call(After(c, |w|, sizes[..i]), |w|, sizes[i]).status == COPY_NO_DATA_FOUND
      {
        if i > 0 {
          assert sizes[..i][1..] == sizes[1..][..i - 1] && sizes[i] == sizes[1..][i - 1];
        }
      }
    }
  }

  /** The pieces of the calls are the value from where it stood up to what is left. */
  predicate AddsUp(c: Cursor, w: string, sizes: seq<nat>)
    requires Fits(c, |w|)
  {
    var d := After(c, |w|, sizes);
    && Left(d, |w|) <= Left(c, |w|) <= |w|
    && Collected(c, w, sizes) == w[|w| - Left(c, |w|)..|w| - Left(d, |w|)]
  }

  lemma PieceJoins(c: Cursor, w: string, sizes: seq<nat>, r: Outcome)
    requires Fits(c, |w|) && Going(c) && sizes != [] && sizes[0] > 0 && r == Call(c, |w|, sizes[0])
    requires Fits(r.next, |w|) && AddsUp(r.next, w, sizes[1..])
    ensures AddsUp(c, w, sizes)
  {
    CallFits(c, |w|, sizes[0]);
    var a, b, d := |w| - Left(c, |w|), |w| - Left(r.next, |w|), |w| - Left(After(r.next, |w|, sizes[1..]), |w|);
    assert Chunk(w, r) == w[a..b];
    SlicesJoin(w, a, b, d);
  }

  lemma SlicesJoin(w: string, a: nat, b: nat, d: nat)
    requires a <= b <= d <= |w|
    ensures w[a..b] + w[b..d] == w[a..d]
  {
  }

  /** Conservation: whatever the buffer sizes, the pieces put together are the value up to what is left. */
  lemma {:induction false} PiecesAddUp(c: Cursor, w: string, sizes: seq<nat>)
    requires Fits(c, |w|) && Positive(sizes)
    ensures AddsUp(c, w, sizes)
    decreases |sizes|
  {
    if sizes != [] {
      if Going(c) {
        CallFits(c, |w|, sizes[0]);
        PiecesAddUp(Call(c, |w|, sizes[0]).next, w, sizes[1..]);
        PieceJoins(c, w, sizes, Call(c, |w|, sizes[0]));
      } else {
        NothingAfterEnd(c, w, sizes);
      }
    }
  }
}
