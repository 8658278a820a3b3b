/** The promises of SQLGetData over whole readings of a column. */
module GetDataTheorems {
  import opened GetDataSpec

  // ----- Reading to the end -----

  function Room(sizes: seq<nat>): int {
    if sizes == [] then 0 else sizes[0] - 1 + Room(sizes[1..])
  }

  lemma {:induction false} EnoughRoomEnds(c: Cursor, n: nat, sizes: seq<nat>)
    requires Fits(c, n) && sizes != [] && Room(sizes) >= Left(c, n)
    requires forall i :: 0 <= i < |sizes| ==> sizes[i] >= 2
    ensures !Going(After(c, n, sizes))
    decreases |sizes|
  {
    var next := Call(c, n, sizes[0]).next;
    CallFits(c, n, sizes[0]);
    if !Going(next) {
      NothingAfterEnd(next, seq(n, _ => 'x'), sizes[1..]);
    } else {
      assert Room(sizes[1..]) >= Left(next, n) > 0;
      EnoughRoomEnds(next, n, sizes[1..]);
    }
  }

  /** Calls with room for the value hand out exactly the value: each makes progress, and nothing is left,
      repeated or lost. */
  lemma EveryReadingIsWhole(stale: nat, w: string, sizes: seq<nat>)
    requires forall i :: 0 <= i < |sizes| ==> sizes[i] >= 2
    requires sizes != [] && Room(sizes) >= |w|
    ensures Collected(Fresh(stale), w, sizes) == w && !Going(After(Fresh(stale), |w|, sizes))
  {
    EnoughRoomEnds(Fresh(stale), |w|, sizes);
    PiecesAddUp(Fresh(stale), w, sizes);
  }

  /** Each call reports the length that remained before it. */
  lemma ReportsWhatRemained(stale: nat, w: string, sizes: seq<nat>, size: nat)
    requires Positive(sizes) && Going(After(Fresh(stale), |w|, sizes))
    ensures Call(After(Fresh(stale), |w|, sizes), |w|, size).length == |w| - |Collected(Fresh(stale), w, sizes)|
  {
    PiecesAddUp(Fresh(stale), w, sizes);
  }

  /** A first call without a buffer asks for the length: it reports the whole length as truncated, hands out nothing,
      and the reading behind it is as if it had not been made. */
  lemma ProbeChangesNothing(stale: nat, w: string, sizes: seq<nat>)
    ensures Call(Fresh(stale), |w|, 0) == Outcome(COPY_RESULT_TRUNCATED, |w|, 0, Fresh(stale))
    ensures Collected(Fresh(stale), w, [0] + sizes) == Collected(Fresh(stale), w, sizes)
    ensures After(Fresh(stale), |w|, [0] + sizes) == After(Fresh(stale), |w|, sizes)
  {
    assert ([0] + sizes)[1..] == sizes;
    assert Collected(Fresh(stale), w, [0] + sizes) == "" + Collected(Fresh(stale), w, sizes);
  }

  /** Once the end was reported a call without a buffer starts the reading over, any other reports the end again. */
  lemma BehindTheEnd(w: string, size: nat)
    ensures Call(Ended, |w|, size).status == COPY_NO_DATA_FOUND && Call(Ended, |w|, size).next == Over
    ensures size > 0 ==> Call(Over, |w|, size) == Outcome(COPY_NO_DATA_FOUND, 0, 0, Over)
    ensures Call(Over, |w|, 0) == Call(Fresh(0), |w|, 0)
  {
  }

  lemma SameRest(w: string, a: nat, b: nat, rest: string)
    requires a <= b <= |w|
    ensures w[a..b] + rest == w[a..] <==> rest == w[b..]
  {
    assert w[a..] == w[a..b] + w[b..];
    assert w[a..][b - a..] == w[b..] && (w[a..b] + rest)[b - a..] == rest;
  }

  lemma LaterCalls(c: Cursor, n: nat, sizes: seq<nat>)
    requires sizes != [] && forall i :: 0 <= i < |sizes| ==> Going(After(c, n, sizes[..i]))
    ensures Going(c)
    ensures var d := Call(c, n, sizes[0]).next; forall i :: 0 <= i < |sizes| - 1 ==> Going(After(d, n, sizes[1..][..i]))
    ensures |sizes| > 1 ==> Going(Call(c, n, sizes[0]).next)
  {
    assert Going(After(c, n, sizes[..0]));
    var d := Call(c, n, sizes[0]).next;
    forall i | 0 <= i < |sizes| - 1 ensures Going(After(d, n, sizes[1..][..i])) {
      assert sizes[..i + 1][1..] == sizes[1..][..i];
      assert Going(After(c, n, sizes[..i + 1]));
    }
    if |sizes| > 1 { assert sizes[1..][..0] == [] && Going(After(d, n, sizes[1..][..0])); }
  }

  lemma {:induction false} WholeRestIff(c: Cursor, w: string, sizes: seq<nat>)
    requires Fits(c, |w|) && sizes != [] && After(c, |w|, sizes) == Ended
    requires forall i :: 0 <= i < |sizes| ==> Going(After(c, |w|, sizes[..i]))
    ensures Collected(c, w, sizes) == w[|w| - Left(c, |w|)..] <==> sizes[|sizes| - 1] > 0
    ensures |Collected(c, w, sizes)| <= Left(c, |w|)
    decreases |sizes|
  {
    var r := Call(c, |w|, sizes[0]);
    CallFits(c, |w|, sizes[0]);
    LaterCalls(c, |w|, sizes);
    var a := |w| - Left(c, |w|);
    if |sizes| == 1 {
      assert sizes[1..] == [];
    } else {
      WholeRestIff(r.next, w, sizes[1..]);
      var b := |w| - Left(r.next, |w|);
      if sizes[0] > 0 { SameRest(w, a, b, Collected(r.next, w, sizes[1..])); }
    }
  }

  /** For every sequence of sizes, also zero: when a reading ends, the pieces are the whole value if and
      only if its last call had a buffer. A call without one in the middle of a reading gives the rest up
      and reports success. */
  lemma WholeValueIff(stale: nat, w: string, sizes: seq<nat>)
    requires sizes != [] && After(Fresh(stale), |w|, sizes) == Ended
    requires forall i :: 0 <= i < |sizes| ==> Going(After(Fresh(stale), |w|, sizes[..i]))
    ensures Collected(Fresh(stale), w, sizes) == w <==> sizes[|sizes| - 1] > 0
  {
    WholeRestIff(Fresh(stale), w, sizes);
    assert w[0..] == w;
  }

  lemma EmptyBufferLosesRest()
    ensures After(Fresh(0), 3, [2, 0]) == Ended && Collected(Fresh(0), "abc", [2, 0]) == "a"
    ensures Call(Reading(2, 1), 3, 0).status == COPY_OK
  {
    assert [2, 0][1..] == [0] && [0][1..] == [];
    assert After(Reading(2, 1), 3, [0]) == Ended;
    assert Collected(Fresh(0), "abc", [2, 0]) == "abc"[0..1] + Collected(Reading(2, 1), "abc", [0]);
    assert Collected(Reading(2, 1), "abc", [0]) == "abc"[1..1] + "";
  }

  // ----- The truncation status -----

  /** A call says "truncated" exactly when characters are left. */
  predicate Honest(c: Cursor, n: nat, size: nat) {
    Call(c, n, size).status == COPY_RESULT_TRUNCATED <==> Left(Call(c, n, size).next, n) > 0
  }

  /** Every call of every reading that starts with a buffer of length `stale` left behind. */
  ghost predicate AllHonest(stale: nat, n: nat) {
    forall sizes: seq<nat>, size: nat {:trigger Honest(After(Fresh(stale), n, sizes), n, size)} ::
      Positive(sizes) && size > 0 && Going(After(Fresh(stale), n, sizes)) ==>
        Honest(After(Fresh(stale), n, sizes), n, size)
  }

  lemma {:induction false} SlackIs(stale: nat, c: Cursor, n: nat, sizes: seq<nat>)
    requires Positive(sizes) && (c.Reading? ==> c.slack == if stale > n + 1 then stale - n else 1)
    requires c.Fresh? ==> c.stale == stale
    ensures var d := After(c, n, sizes); d.Reading? ==> d.slack == if stale > n + 1 then stale - n else 1
    decreases |sizes|
  {
    if sizes != [] { SlackIs(stale, Call(c, n, sizes[0]).next, n, sizes[1..]); }
  }

  /** The status can be trusted exactly when no buffer longer than this value needs was left behind by an
      earlier row (an empty value never needs one). */
  lemma StatusHonestIff(stale: nat, n: nat)
    ensures AllHonest(stale, n) <==> stale <= n + 1 || n == 0
  {
    if stale <= n + 1 || n == 0 {
      forall sizes: seq<nat>, size: nat | Positive(sizes) && size > 0 && Going(After(Fresh(stale), n, sizes))
        ensures Honest(After(Fresh(stale), n, sizes), n, size)
      {
        SlackIs(stale, Fresh(stale), n, sizes);
        AfterFits(Fresh(stale), n, sizes);
      }
    } else {
      assert [1][1..] == [];
      var c := After(Fresh(stale), n, [1]);
      assert c == Reading(n, stale - n);
      assert !Honest(c, n, n + 1);
    }
  }
}
