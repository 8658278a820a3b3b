/** Where a statement has parameter markers and where its first command ends, and when the two scanners of
    the driver agree about it. */
module ScanCount {
  import opened ScanSpec

  /** How many of the positions hold a marker. */
  function MarkersAt(s: string, ps: seq<nat>): nat
    requires forall j :: 0 <= j < |ps| ==> ps[j] < |s|
  {
    if ps == [] then 0 else (if s[ps[0]] == '?' then 1 else 0) + MarkersAt(s, ps[1..])
  }

  function Markers(s: string, i: nat, o: Setting): nat
    requires i <= |s| && 1 <= o.skip <= 2
  {
    MarkersAt(s, Outside(s, i, o))
  }

  lemma MarkersStep(s: string, i: nat, o: Setting)
    requires i < |s| && 1 <= o.skip <= 2
    ensures Markers(s, i, o) == (if s[i] == '?' then 1 else 0) + Markers(s, BlockEnd(s, i, o), o)
  {
    assert Outside(s, i, o)[1..] == Outside(s, BlockEnd(s, i, o), o);
  }

  // ----- The rewriter and the counter -----

  /** A comment opener whose star is followed by a slash, with more text behind it. */
  predicate Overlaps(s: string, p: nat) {
    p + 3 < |s| && s[p..p + 3] == "/*/"
  }

  predicate NoOverlap(s: string, ps: seq<nat>) {
    forall j :: 0 <= j < |ps| ==> !Overlaps(s, ps[j])
  }

  lemma SameBlockEndIff(s: string, i: nat, o: Setting)
    requires i < |s| && 1 <= o.skip <= 2
    ensures BlockEnd(s, i, o.(skip := 1)) == BlockEnd(s, i, o.(skip := 2)) <==> !Overlaps(s, i)
    ensures Overlaps(s, i) ==> BlockEnd(s, i, o.(skip := 1)) == i + 3
  {
    assert i + 3 < |s| ==> (Overlaps(s, i) <==> s[i] == '/' && s[i + 1] == '*' && s[i + 2] == '/');
    if s[i] == '/' && At(s, i + 1) == '*' {
      assert CommentEnd(s, i + 1, 1) == if At(s, i + 2) == '/' then i + 3 else CommentEnd(s, i + 2, 1);
      if At(s, i + 2) == '/' {
        if i + 3 < |s| {
          assert CommentEnd(s, i + 2, 1) > i + 3;
        } else {
          assert CommentEnd(s, i + 2, 1) == CommentEnd(s, i + 3, 1) == i + 3;
        }
      }
    }
  }

  /** The rewriter looks for the end of a comment from the star of its opener on, the counter from behind
      the opener: they take the same text to lie outside all blocks exactly when no comment overlaps its
      own opener. */
  lemma {:induction false} ScannersAgreeIff(s: string, i: nat, o: Setting)
    requires i <= |s| && 1 <= o.skip <= 2
    ensures Outside(s, i, o.(skip := 1)) == Outside(s, i, o.(skip := 2))
            <==> NoOverlap(s, Outside(s, i, o.(skip := 1)))
    decreases |s| - i
  {
    if i < |s| {
      var o1, o2 := o.(skip := 1), o.(skip := 2);
      var e1, e2 := BlockEnd(s, i, o1), BlockEnd(s, i, o2);
      var one, two := Outside(s, e1, o1), Outside(s, e2, o2);
      SameBlockEndIff(s, i, o);
      assert Outside(s, i, o1) == [i] + one && Outside(s, i, o2) == [i] + two;
      if Overlaps(s, i) {
        assert ([i] + one)[0] == i;
        assert one[0] == e1 && ([i] + one)[1] == e1;
        if |two| > 0 { assert ([i] + two)[1] == e2; }
      } else {
        ScannersAgreeIff(s, e1, o);
        assert ([i] + one)[1..] == one && ([i] + two)[1..] == two;
        assert forall j :: 0 <= j < |one| ==> ([i] + one)[j + 1] == one[j];
        assert forall j :: 0 < j < |one| + 1 ==> ([i] + one)[j] == one[j - 1];
      }
    }
  }

  /** Then the text that is written is also the one the counter's view of the blocks gives. */
  lemma {:induction false} SameRewriting(s: string, i: nat, k: nat, o: Setting)
    requires i <= |s| && 1 <= o.skip <= 2 && NoOverlap(s, Outside(s, i, o.(skip := 1)))
    ensures Rewrite(s, i, k, o.(skip := 1)) == Rewrite(s, i, k, o.(skip := 2))
    decreases |s| - i
  {
    if i < |s| {
      var ps, e := Outside(s, i, o.(skip := 1)), BlockEnd(s, i, o.(skip := 1));
      assert !Overlaps(s, ps[0]);
      assert ps[1..] == Outside(s, e, o.(skip := 1));
      SameBlockEndIff(s, i, o);
      SameRewriting(s, e, Numbered(s, i, k), o);
      RewriteStep(s, i, k, o.(skip := 1));
      RewriteStep(s, i, k, o.(skip := 2));
    }
  }

  lemma OverlappingComment()
    ensures Markers("/*/?", 0, Setting(false, false, '\0', 1)) == 1
    ensures Markers("/*/?", 0, Setting(false, false, '\0', 2)) == 0
  {
    var s := "/*/?";
    var o, o2 := Setting(false, false, '\0', 1), Setting(false, false, '\0', 2);
    assert Outside(s, 0, o) == [0, 3] by {
      assert BlockEnd(s, 0, o) == CommentEnd(s, 1, 1) == 3;
      assert Outside(s, 3, o) == [3] + Outside(s, 4, o);
    }
    assert Outside(s, 0, o2) == [0] by {
      assert BlockEnd(s, 0, o2) == CommentEnd(s, 2, 1) == 4;
    }
    MarkersOne(s, 0, []);
    MarkersOne(s, 3, []);
    MarkersOne(s, 0, [3]);
  }

  lemma MarkersOne(s: string, p: nat, rest: seq<nat>)
    requires p < |s| && forall j :: 0 <= j < |rest| ==> rest[j] < |s|
    ensures MarkersAt(s, [p] + rest) == (if s[p] == '?' then 1 else 0) + MarkersAt(s, rest)
  {
    assert ([p] + rest)[1..] == rest;
  }

  // ----- What rewriting keeps -----

  /** From `i` on there is no marker and no carriage return to drop outside the blocks. */
  predicate Untouched(s: string, i: nat, o: Setting)
    requires i <= |s| && 1 <= o.skip <= 2
    decreases |s| - i
  {
    i == |s| || (s[i] != '?' && !Dropped(s, i, o) && Untouched(s, BlockEnd(s, i, o), o))
  }

  lemma {:induction false} RewriteKeepsFromIff(s: string, i: nat, k: nat, o: Setting)
    requires i <= |s| && 1 <= o.skip <= 2
    ensures Rewrite(s, i, k, o) == s[i..] <==> Untouched(s, i, o)
    decreases |s| - i
  {
    if i < |s| {
      var e := BlockEnd(s, i, o);
      if s[i] == '?' {
        assert Rewrite(s, i, k, o)[0] == '$' && s[i..][0] == '?';
      } else if Dropped(s, i, o) {
        RewriteStarts(s, i + 1, k, o);
        assert Rewrite(s, i, k, o)[0] == '\n' && s[i..][0] == '\r';
      } else {
        RewriteStep(s, i, k, o);
        RewriteKeepsFromIff(s, e, Numbered(s, i, k), o);
        SameFront(s, i, e, Rewrite(s, e, Numbered(s, i, k), o));
      }
    }
  }

  lemma SameFront(s: string, i: nat, e: nat, rest: string)
    requires i <= e <= |s|
    ensures s[i..e] + rest == s[i..] <==> rest == s[e..]
  {
    assert s[i..] == s[i..e] + s[e..];
    assert s[i..][e - i..] == s[e..] && (s[i..e] + rest)[e - i..] == rest;
  }

  lemma {:induction false} UntouchedIff(s: string, i: nat, o: Setting)
    requires i <= |s| && 1 <= o.skip <= 2
    ensures var ps := Outside(s, i, o);
            Untouched(s, i, o) <==> forall j :: 0 <= j < |ps| ==> s[ps[j]] != '?' && !Dropped(s, ps[j], o)
    decreases |s| - i
  {
    if i < |s| {
      var ps, rest := Outside(s, i, o), Outside(s, BlockEnd(s, i, o), o);
      UntouchedIff(s, BlockEnd(s, i, o), o);
      assert ps == [i] + rest && ps[0] == i;
      if forall j :: 0 <= j < |ps| ==> s[ps[j]] != '?' && !Dropped(s, ps[j], o) {
        forall j | 0 <= j < |rest| ensures s[rest[j]] != '?' && !Dropped(s, rest[j], o) { assert rest[j] == ps[j + 1]; }
      }
    }
  }

  /** A statement is sent as it is exactly when, outside the blocks, it has no marker and no carriage return that
      the conversion of line ends drops. */
  lemma RewriteKeepsIff(s: string, o: Setting)
    requires 1 <= o.skip <= 2
    ensures var ps := Outside(s, 0, o);
            Rewrite(s, 0, 0, o) == s <==> forall j :: 0 <= j < |ps| ==> s[ps[j]] != '?' && !Dropped(s, ps[j], o)
  {
    assert s[0..] == s;
    RewriteKeepsFromIff(s, 0, 0, o);
    UntouchedIff(s, 0, o);
  }
}
