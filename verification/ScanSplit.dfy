/** A text of several commands is split twice: as written by the application, to count the parameters of each
    command, and as rewritten, to get the text of each command. When the two agree. */
module ScanSplit {
  import opened BigNum
  import opened ScanSpec
  import opened ScanLocal

  /** A marker that touches no identifier, dollar sign or other marker. */
  predicate Clear(s: string, p: nat)
    requires p < |s|
  {
    && (p > 0 ==> !IsIdentChar(s[p - 1]))
    && (p + 1 < |s| ==> !IsIdentChar(s[p + 1]) && s[p + 1] != '?')
  }

  /** All markers from `i` on are clear. */
  predicate Apart(s: string, i: nat, o: Setting)
    requires i <= |s| && 1 <= o.skip <= 2
    decreases |s| - i
  {
    i == |s| || ((s[i] == '?' ==> Clear(s, i)) && Apart(s, BlockEnd(s, i, o), o))
  }

  // ----- What follows in the rewritten text -----

  /** The character in `t` where the rewriting of the rest of `s` begins; behind a clear place it cannot
      continue an identifier or a tag. */
  lemma NextCharacter(s: string, i: nat, k: nat, t: string, j: nat, o: Setting)
    requires i <= |s| && 1 <= o.skip <= 2 && j <= |t| && t[j..] == Rewrite(s, i, k, o)
    requires i < |s| ==> s[i] != '?'
    ensures At(t, j) == At(s, i) || (At(s, i) == '\r' && At(t, j) == '\n')
    ensures i == |s| <==> j == |t|
  {
    if i < |s| {
      RewriteStarts(s, i, k, o);
      assert t[j..][0] == t[j];
    }
  }

  lemma Front(t: string, j: nat, head: string, rest: string)
    requires j <= |t| && t[j..] == head + rest
    ensures j + |head| <= |t| && t[j..j + |head|] == head && t[j + |head|..] == rest
  {
    assert t[j..j + |head|] == t[j..][..|head|] && t[j + |head|..] == t[j..][|head|..];
  }

  lemma Copied(s: string, i: nat, e: nat, t: string, j: nat, rest: string)
    requires i <= e <= |s| && j <= |t| && t[j..] == s[i..e] + rest && (e == |s| ==> rest == "")
    ensures Same(s, t, j - i, i, e) && t[j + (e - i)..] == rest
  {
    forall p | i <= p < e ensures s[p] == t[p + (j - i)] {
      assert t[j..][p - i] == s[i..e][p - i];
    }
    assert t[j..][e - i..] == rest;
  }

  // ----- The number written for a marker -----

  lemma {:induction false} DigitsIdent(t: string, j: nat, n: nat)
    requires j + n <= |t| && (forall p :: j <= p < j + n ==> IsDigit(t[p])) && !IsIdentChar(At(t, j + n))
    ensures IdentEnd(t, j) == j + n && TagClose(t, j) == |t|
    decreases n
  {
    if n > 0 { DigitsIdent(t, j + 1, n - 1); }
  }

  /** From `j` to `j1` no command ends and no marker stands outside the blocks. */
  predicate Passes(t: string, j: nat, j1: nat, o: Setting)
    requires 1 <= o.skip <= 2
  {
    && j <= j1 <= |t|
    && FirstSemi(t, j, o) == FirstSemi(t, j1, o) && MarkersBefore(t, j, o) == MarkersBefore(t, j1, o)
  }

  lemma SkipBlock(t: string, j: nat, j1: nat, o: Setting)
    requires j < |t| && 1 <= o.skip <= 2 && t[j] != ';' && t[j] != '?' && j1 == BlockEnd(t, j, o)
    ensures Passes(t, j, j1, o)
  {
  }

  lemma PassesOn(t: string, j: nat, j1: nat, j2: nat, o: Setting)
    requires 1 <= o.skip <= 2 && Passes(t, j, j1, o) && Passes(t, j1, j2, o)
    ensures Passes(t, j, j2, o)
  {
  }

  /** A number behind a dollar sign, and perhaps a minus sign, ends no command and holds no marker. */
  lemma NumberScans(t: string, j: nat, m: nat, n: nat, o: Setting)
    requires 1 <= o.skip <= 2 && 0 < n && j + m + n <= |t| && t[j] == '$' && (m == 1 || (m == 2 && t[j + 1] == '-'))
    requires (forall p :: j + m <= p < j + m + n ==> IsDigit(t[p])) && !IsIdentChar(At(t, j + m + n))
    ensures Passes(t, j, j + m + n, o)
  {
    DigitsIdent(t, j + m, n);
    NumberBlocks(t, j, m, n, o);
    SkipBlock(t, j, j + 1, o);
    SkipBlock(t, j + m, j + m + n, o);
    if m == 2 {
      SkipBlock(t, j + 1, j + 2, o);
      PassesOn(t, j, j + 1, j + 2, o);
    }
    PassesOn(t, j, j + m, j + m + n, o);
  }

  lemma NumberBlocks(t: string, j: nat, m: nat, n: nat, o: Setting)
    requires 1 <= o.skip <= 2 && 0 < n && j + m + n <= |t| && t[j] == '$' && (m == 1 || (m == 2 && t[j + 1] == '-'))
    requires IsDigit(t[j + m]) && IdentEnd(t, j + m) == j + m + n && TagClose(t, j + m) == |t|
    ensures BlockEnd(t, j, o) == j + 1 && BlockEnd(t, j + m, o) == j + m + n
    ensures m == 2 ==> BlockEnd(t, j + 1, o) == j + 2
  {
    assert TagLength(t, j) == 0;
  }

  lemma MarkerShape(k: nat) returns (m: nat, n: nat)
    ensures 0 < n && |MarkerText(k)| == m + n && MarkerText(k)[0] == '$'
    ensures m == 1 || (m == 2 && MarkerText(k)[1] == '-')
    ensures forall p :: m <= p < m + n ==> IsDigit(MarkerText(k)[p])
  {
    var v := Int2(k);
    m := if v >= 0 then 1 else 2;
    var ds := Digits(if v >= 0 then v else -v);
    n := |ds|;
    forall p | m <= p < m + n ensures IsDigit(MarkerText(k)[p]) { assert MarkerText(k)[p] == ds[p - m]; }
  }

  /** A number stands at `j`, behind a dollar sign and perhaps a minus sign, and nothing continues it. */
  predicate NumberAt(t: string, j: nat, m: nat, n: nat) {
    && 0 < n && j + m + n <= |t| && t[j] == '$' && (m == 1 || (m == 2 && t[j + 1] == '-'))
    && (forall p :: j + m <= p < j + m + n ==> IsDigit(t[p])) && !IsIdentChar(At(t, j + m + n))
  }

  lemma NumberPasses(t: string, j: nat, m: nat, n: nat, j1: nat, o: Setting)
    requires 1 <= o.skip <= 2 && NumberAt(t, j, m, n) && j1 == j + m + n
    ensures Passes(t, j, j1, o)
  {
    NumberScans(t, j, m, n, o);
  }

  lemma MarkerLies(t: string, j: nat, k: nat, rest: string) returns (m: nat, n: nat, j1: nat)
    requires j <= |t| && t[j..] == MarkerText(k) + rest && (rest != "" ==> !IsIdentChar(rest[0]))
    ensures NumberAt(t, j, m, n) && j1 == j + m + n <= |t| && IsDigit(t[j1 - 1])
    ensures t[j..j1] == MarkerText(k) && t[j1..] == rest
  {
    var text := MarkerText(k);
    m, n := MarkerShape(k);
    j1 := j + |text|;
    Front(t, j, text, rest);
    forall p | j <= p < j1 ensures t[p] == text[p - j] { assert t[j..j1][p - j] == text[p - j]; }
    assert At(t, j1) == if rest == "" then '\0' else t[j1..][0];
  }

  // ----- A copied block -----

  /** A literal that opens here reads backslashes alike in both texts. */
  predicate SameBefore(s: string, i: nat, t: string, j: nat, o: Setting) {
    At(s, i) == '\'' ==> LiteralEscapes(s, i, o.escape, o.before) == LiteralEscapes(t, j, o.escape, o.before)
  }

  lemma {:induction false} IdentStops(s: string, i: nat)
    requires i <= |s|
    ensures !IsIdentChar(At(s, IdentEnd(s, i)))
    ensures IdentEnd(s, i) > i ==> IsIdentChar(s[IdentEnd(s, i) - 1])
    decreases |s| - i
  {
    if i < |s| && IsIdentChar(s[i]) { IdentStops(s, i + 1); }
  }

  /** Behind an identifier or a dollar sign, no marker follows and nothing in the rewritten text continues it. */
  lemma NothingContinues(s: string, e: nat, k: nat, t: string, j: nat, o: Setting)
    requires 0 < e <= |s| && 1 <= o.skip <= 2 && j <= |t| && t[j..] == Rewrite(s, e, k, o) && Apart(s, e, o)
    requires IsIdentChar(s[e - 1]) && !IsIdentChar(At(s, e))
    ensures !IsIdentChar(At(t, j))
  {
    NextCharacter(s, e, k, t, j, o);
  }

  lemma {:induction false} NoTagCopied(s: string, t: string, d: int, p: nat, e: nat)
    requires Same(s, t, d, p, e) && TagClose(s, p) == |s| && !IsIdentChar(At(t, e + d))
    ensures TagClose(t, p + d) == |t|
    decreases e - p
  {
    if p < e && StartsIdent(s[p]) { NoTagCopied(s, t, d, p + 1, e); }
  }

  lemma NoTagAhead(s: string, i: nat, k: nat, t: string, j: nat, o: Setting)
    requires 0 < i <= |s| && 1 <= o.skip <= 2 && j <= |t| && t[j..] == Rewrite(s, i, k, o) && Apart(s, i, o)
    requires s[i - 1] == '$' && TagClose(s, i) == |s|
    ensures TagClose(t, j) == |t|
  {
    if i < |s| && StartsIdent(s[i]) {
      var e := BlockEnd(s, i, o);
      IdentStops(s, i);
      Copied(s, i, e, t, j, Rewrite(s, e, k, o));
      NothingContinues(s, e, k, t, j + (e - i), o);
      NoTagCopied(s, t, j - i, i, e);
    } else {
      NextCharacter(s, i, k, t, j, o);
    }
  }

  lemma NoCommentAhead(s: string, i: nat, k: nat, t: string, j: nat, o: Setting, c: char)
    requires i <= |s| && 1 <= o.skip <= 2 && j <= |t| && t[j..] == Rewrite(s, i, k, o)
    requires (c == '*' || c == '-') && At(s, i) != c
    ensures At(t, j) != c
  {
    if i < |s| && s[i] == '?' {
      assert t[j..][0] == MarkerText(k + 1)[0] == '$';
    } else {
      NextCharacter(s, i, k, t, j, o);
    }
  }

  /** The block at `i` stands at `j` in the rewritten text, and the rewriting of the rest behind it. */
  predicate CopyAt(s: string, i: nat, e: nat, k: nat, t: string, j: nat, o: Setting)
    requires i <= e <= |s| && 1 <= o.skip <= 2
  {
    Same(s, t, j - i, i, e) && t[j + (e - i)..] == Rewrite(s, e, k, o) && Apart(s, e, o)
  }

  lemma CopiedIdent(s: string, i: nat, e: nat, k: nat, t: string, j: nat, o: Setting)
    requires i < |s| && 1 <= o.skip <= 2 && StartsIdent(s[i]) && e == IdentEnd(s, i + 1) && CopyAt(s, i, e, k, t, j, o)
    ensures !IsIdentChar(At(t, j + (e - i)))
  {
    IdentStops(s, i + 1);
    assert IsIdentChar(s[e - 1]) by { if e == i + 1 { assert IsIdentChar(s[i]); } }
    NothingContinues(s, e, k, t, j + (e - i), o);
  }

  lemma CopiedDollar(s: string, i: nat, k: nat, t: string, j: nat, o: Setting)
    requires i < |s| && 1 <= o.skip <= 2 && s[i] == '$' && TagLength(s, i) == 0 && CopyAt(s, i, i + 1, k, t, j, o)
    ensures TagLength(t, j) == 0
  {
    NoTagAhead(s, i + 1, k, t, j + 1, o);
  }

  /** What follows a copied block does not change where it ends. */
  lemma CopyEnds(s: string, i: nat, e: nat, k: nat, t: string, j: nat, o: Setting)
    requires i < |s| && 1 <= o.skip <= 2 && s[i] != '?' && e == BlockEnd(s, i, o) && CopyAt(s, i, e, k, t, j, o)
    requires SameBefore(s, i, t, j, o)
    ensures BlockEnd(t, j, o) == j + (e - i)
  {
    if StartsIdent(s[i]) {
      CopiedIdent(s, i, e, k, t, j, o);
    } else if s[i] == '$' && TagLength(s, i) == 0 {
      CopiedDollar(s, i, k, t, j, o);
    } else if s[i] == '/' && At(s, i + 1) != '*' {
      NoCommentAhead(s, i + 1, k, t, j + 1, o, '*');
    } else if s[i] == '-' && At(s, i + 1) != '-' {
      NoCommentAhead(s, i + 1, k, t, j + 1, o, '-');
    }
    BlockLocal(s, t, j - i, i, o);
  }

  /** A block is copied, and ends in the rewritten text where its copy ends. */
  lemma BlockCopied(s: string, i: nat, k: nat, t: string, j: nat, o: Setting)
    requires i < |s| && 1 <= o.skip <= 2 && j <= |t| && t[j..] == Rewrite(s, i, k, o)
    requires s[i] != '?' && s[i] != ';' && !Dropped(s, i, o) && Apart(s, i, o) && SameBefore(s, i, t, j, o)
    ensures var (e, j1) := (BlockEnd(s, i, o), j + (BlockEnd(s, i, o) - i));
            && j < |t| && t[j] == s[i] && BlockEnd(t, j, o) == j1 <= |t|
            && t[j1..] == Rewrite(s, e, k, o) && SameBefore(s, e, t, j1, o)
  {
    var e, d := BlockEnd(s, i, o), j - i;
    Copied(s, i, e, t, j, Rewrite(s, e, k, o));
    assert s[e - 1] == t[e - 1 + d] && s[i] == t[i + d];
    CopyEnds(s, i, e, k, t, j, o);
  }

  // ----- Whole commands -----

  /** The rewriting of one command: up to the next semicolon outside all blocks. */
  function Command(s: string, i: nat, k: nat, o: Setting): string
    requires i <= |s| && 1 <= o.skip <= 2
    decreases |s| - i
  {
    if i == |s| || s[i] == ';' then ""
    else if Dropped(s, i, o) then Command(s, i + 1, k, o)
    else if s[i] == '?' then MarkerText(k + 1) + Command(s, i + 1, k + 1, o)
    else var e := BlockEnd(s, i, o); s[i..e] + Command(s, e, k, o)
  }

  /** All commands, each numbering its parameters from one. */
  function Commands(s: string, i: nat, o: Setting): seq<string>
    requires i <= |s| && 1 <= o.skip <= 2
    decreases |s| - i
  {
    var a := FirstSemi(s, i, o);
    if a < |s| then [Command(s, i, 0, o)] + Commands(s, a + 1, o) else [Command(s, i, 0, o)]
  }

  /** A text cut at its semicolons. */
  function Pieces(t: string, j: nat, o: Setting): seq<string>
    requires j <= |t| && 1 <= o.skip <= 2
    decreases |t| - j
  {
    var b := FirstSemi(t, j, o);
    if b < |t| then [t[j..b]] + Pieces(t, b + 1, o) else [t[j..b]]
  }

  lemma Prepend(t: string, j: nat, j1: nat, b: nat, head: string, tail: string)
    requires j <= j1 <= b <= |t| && t[j..j1] == head && t[j1..b] == tail
    ensures t[j..b] == head + tail
  {
  }

  lemma CommandStep(s: string, i: nat, k: nat, o: Setting)
    requires i < |s| && 1 <= o.skip <= 2 && s[i] != ';'
    ensures Command(s, i, k, o) == Written(s, i, k, o) + Command(s, BlockEnd(s, i, o), Numbered(s, i, k), o)
  {
    if Dropped(s, i, o) { assert "" + Command(s, i + 1, k, o) == Command(s, i + 1, k, o); }
  }

  lemma SourceStep(s: string, i: nat, k: nat, o: Setting)
    requires i < |s| && 1 <= o.skip <= 2 && s[i] != ';'
    ensures FirstSemi(s, i, o) == FirstSemi(s, BlockEnd(s, i, o), o)
    ensures k + MarkersBefore(s, i, o) == Numbered(s, i, k) + MarkersBefore(s, BlockEnd(s, i, o), o)
  {
  }

  /** Up to the end of its command, the rewritten text is the rewritten command, without markers. */
  predicate Alike(s: string, i: nat, k: nat, t: string, j: nat, o: Setting)
    requires i <= |s| && 1 <= o.skip <= 2 && j <= |t|
  {
    t[j..FirstSemi(t, j, o)] == Command(s, i, k, o) && MarkersBefore(t, j, o) == 0
  }

  /** Putting a piece in front keeps the texts alike. */
  lemma AlikeStep(s: string, i: nat, k: nat, t: string, j: nat, j1: nat, o: Setting)
    requires i < |s| && 1 <= o.skip <= 2 && s[i] != ';' && j <= j1 <= |t|
    requires Passes(t, j, j1, o)
    requires t[j..j1] == Written(s, i, k, o) && Alike(s, BlockEnd(s, i, o), Numbered(s, i, k), t, j1, o)
    ensures Alike(s, i, k, t, j, o)
  {
    CommandStep(s, i, k, o);
    Prepend(t, j, j1, FirstSemi(t, j1, o), t[j..j1], Command(s, BlockEnd(s, i, o), Numbered(s, i, k), o));
  }

  lemma BehindMarker(s: string, i: nat, k: nat, o: Setting)
    requires i < |s| && 1 <= o.skip <= 2 && Clear(s, i)
    ensures var rest := Rewrite(s, i + 1, k + 1, o); rest != "" ==> !IsIdentChar(rest[0])
  {
    if i + 1 < |s| { RewriteStarts(s, i + 1, k + 1, o); }
  }

  lemma BehindNumber(s: string, i: nat, t: string, j1: nat, o: Setting)
    requires i < |s| && s[i] == '?' && 0 < j1 <= |t| && IsDigit(t[j1 - 1])
    ensures SameBefore(s, i + 1, t, j1, o)
  {
  }

  lemma RewriteMarker(s: string, i: nat, k: nat, o: Setting)
    requires i < |s| && 1 <= o.skip <= 2 && s[i] == '?'
    ensures Rewrite(s, i, k, o) == MarkerText(k + 1) + Rewrite(s, i + 1, k + 1, o)
  {
  }

  lemma MarkerAlike(t: string, j: nat, rest: string, k: nat, o: Setting) returns (j1: nat)
    requires 1 <= o.skip <= 2 && j <= |t| && t[j..] == MarkerText(k) + rest && (rest != "" ==> !IsIdentChar(rest[0]))
    ensures j < j1 <= |t| && IsDigit(t[j1 - 1]) && t[j..j1] == MarkerText(k) && t[j1..] == rest
    ensures Passes(t, j, j1, o)
  {
    var m, n;
    m, n, j1 := MarkerLies(t, j, k, rest);
    NumberPasses(t, j, m, n, j1, o);
  }

  lemma MarkerTaken(s: string, i: nat, t: string, j: nat, rest: string, k: nat, o: Setting) returns (j1: nat)
    requires i < |s| && s[i] == '?' && 1 <= o.skip <= 2 && j <= |t| && t[j..] == MarkerText(k) + rest
    requires rest != "" ==> !IsIdentChar(rest[0])
    ensures j <= j1 <= |t| && t[j..j1] == MarkerText(k) && t[j1..] == rest && SameBefore(s, i + 1, t, j1, o)
    ensures Passes(t, j, j1, o)
  {
    j1 := MarkerAlike(t, j, rest, k, o);
    BehindNumber(s, i, t, j1, o);
  }

  lemma BlockAlike(s: string, i: nat, k: nat, t: string, j: nat, o: Setting) returns (j1: nat)
    requires i < |s| && 1 <= o.skip <= 2 && j <= |t| && t[j..] == Rewrite(s, i, k, o)
    requires s[i] != '?' && s[i] != ';' && !Dropped(s, i, o) && Apart(s, i, o) && SameBefore(s, i, t, j, o)
    ensures j <= j1 <= |t| && t[j..j1] == s[i..BlockEnd(s, i, o)] && t[j1..] == Rewrite(s, BlockEnd(s, i, o), k, o)
    ensures SameBefore(s, BlockEnd(s, i, o), t, j1, o)
    ensures Passes(t, j, j1, o)
  {
    var e := BlockEnd(s, i, o);
    j1 := j + (e - i);
    BlockCopied(s, i, k, t, j, o);
    SkipBlock(t, j, j1, o);
    Front(t, j, s[i..e], Rewrite(s, e, k, o));
  }

  lemma EndAlike(s: string, i: nat, k: nat, t: string, j: nat, o: Setting)
    requires i <= |s| && 1 <= o.skip <= 2 && j <= |t| && t[j..] == Rewrite(s, i, k, o)
    requires i == |s| || s[i] == ';'
    ensures Alike(s, i, k, t, j, o)
  {
    if i < |s| { assert t[j..][0] == ';'; }
  }

  lemma {:induction false} CommandsEndAlike(s: string, i: nat, k: nat, t: string, j: nat, o: Setting)
    requires i <= |s| && 1 <= o.skip <= 2 && j <= |t| && t[j..] == Rewrite(s, i, k, o)
    requires Apart(s, i, o) && SameBefore(s, i, t, j, o)
    ensures Alike(s, i, k, t, j, o)
    decreases |s| - i
  {
    if i == |s| || s[i] == ';' {
      EndAlike(s, i, k, t, j, o);
    } else if Dropped(s, i, o) {
      CommandsEndAlike(s, i + 1, k, t, j, o);
      AlikeStep(s, i, k, t, j, j, o);
    } else if s[i] == '?' {
      RewriteMarker(s, i, k, o);
      BehindMarker(s, i, k, o);
      var j1 := MarkerTaken(s, i, t, j, Rewrite(s, i + 1, k + 1, o), k + 1, o);
      CommandsEndAlike(s, i + 1, k + 1, t, j1, o);
      AlikeStep(s, i, k, t, j, j1, o);
    } else {
      var j1 := BlockAlike(s, i, k, t, j, o);
      CommandsEndAlike(s, BlockEnd(s, i, o), k, t, j1, o);
      AlikeStep(s, i, k, t, j, j1, o);
    }
  }

  /** The rewritten text is the rewritten command followed by the rewriting of the rest. */
  lemma {:induction false} RewriteSplits(s: string, i: nat, k: nat, o: Setting, a: nat, n: nat)
    requires i <= |s| && 1 <= o.skip <= 2 && a == FirstSemi(s, i, o) && n == k + MarkersBefore(s, i, o)
    ensures Rewrite(s, i, k, o) == Command(s, i, k, o) + Rewrite(s, a, n, o)
    decreases |s| - i
  {
    if i == |s| || s[i] == ';' {
      assert "" + Rewrite(s, i, k, o) == Rewrite(s, i, k, o);
    } else {
      var e, k1 := BlockEnd(s, i, o), Numbered(s, i, k);
      SourceStep(s, i, k, o);
      RewriteSplits(s, e, k1, o, a, n);
      CommandStep(s, i, k, o);
      RewriteStep(s, i, k, o);
      Join(Written(s, i, k, o), Command(s, e, k1, o), Rewrite(s, a, n, o));
    }
  }

  lemma Join(a: string, b: string, c: string)
    ensures a + (b + c) == (a + b) + c
  {
  }

  lemma {:induction false} ApartBehind(s: string, i: nat, o: Setting)
    requires i <= |s| && 1 <= o.skip <= 2 && Apart(s, i, o)
    ensures Apart(s, FirstSemi(s, i, o), o)
    decreases |s| - i
  {
    if i < |s| && s[i] != ';' { ApartBehind(s, BlockEnd(s, i, o), o); }
  }

  /** Behind the semicolon of the first command the two texts stand at the same place again. */
  lemma NextCommand(s: string, i: nat, t: string, j: nat, o: Setting, a: nat, b: nat)
    requires i <= |s| && 1 <= o.skip <= 2 && j <= |t| && t[j..] == Rewrite(s, i, 0, o)
    requires a == FirstSemi(s, i, o) && b == FirstSemi(t, j, o) && t[j..b] == Command(s, i, 0, o)
    ensures a == |s| <==> b == |t|
    ensures a < |s| ==> t[b + 1..] == Rewrite(s, a + 1, 0, o) && SameBefore(s, a + 1, t, b + 1, o)
  {
    var rest := Rewrite(s, a, MarkersBefore(s, i, o), o);
    RewriteSplits(s, i, 0, o, a, MarkersBefore(s, i, o));
    Front(t, j, Command(s, i, 0, o), rest);
    SemiStands(s, i, o);
    AfterSemi(s, a, MarkersBefore(s, i, o), t, b, o);
  }

  lemma AfterSemi(s: string, a: nat, n: nat, t: string, b: nat, o: Setting)
    requires a <= |s| && 1 <= o.skip <= 2 && b <= |t| && t[b..] == Rewrite(s, a, n, o) && (a < |s| ==> s[a] == ';')
    ensures a == |s| <==> b == |t|
    ensures a < |s| ==> t[b + 1..] == Rewrite(s, a + 1, 0, o) && SameBefore(s, a + 1, t, b + 1, o)
  {
    if a < |s| {
      Front(t, b, ";", Rewrite(s, a + 1, 0, o));
      assert t[b] == t[b..][0] == ';';
    }
  }

  lemma {:induction false} SemiStands(s: string, i: nat, o: Setting)
    requires i <= |s| && 1 <= o.skip <= 2
    ensures FirstSemi(s, i, o) < |s| ==> s[FirstSemi(s, i, o)] == ';'
    decreases |s| - i
  {
    if i < |s| && s[i] != ';' { SemiStands(s, BlockEnd(s, i, o), o); }
  }

  /** Both texts stand at the start of the same command. */
  predicate Aligned(s: string, i: nat, t: string, j: nat, o: Setting)
    requires 1 <= o.skip <= 2
  {
    i <= |s| && j <= |t| && t[j..] == Rewrite(s, i, 0, o) && Apart(s, i, o) && SameBefore(s, i, t, j, o)
  }

  lemma OneCommand(s: string, i: nat, t: string, j: nat, o: Setting, a: nat, b: nat)
    requires 1 <= o.skip <= 2 && Aligned(s, i, t, j, o) && a == FirstSemi(s, i, o) && b == FirstSemi(t, j, o)
    ensures t[j..b] == Command(s, i, 0, o) && (a == |s| <==> b == |t|)
    ensures a < |s| ==> Aligned(s, a + 1, t, b + 1, o)
  {
    CommandsEndAlike(s, i, 0, t, j, o);
    NextCommand(s, i, t, j, o, a, b);
    if a < |s| { ApartNext(s, i, o, a); }
  }

  /** Texts that stand at the start of the same command are cut alike from there on. */
  predicate CutAlike(s: string, i: nat, t: string, j: nat, o: Setting)
    requires 1 <= o.skip <= 2
  {
    Aligned(s, i, t, j, o) ==> Pieces(t, j, o) == Commands(s, i, o)
  }

  lemma CutAlikeStep(s: string, i: nat, t: string, j: nat, o: Setting, a: nat, b: nat)
    requires 1 <= o.skip <= 2 && i <= |s| && j <= |t| && a == FirstSemi(s, i, o) && b == FirstSemi(t, j, o)
    ensures a == |s| || b == |t| || CutAlike(s, a + 1, t, b + 1, o) ==> CutAlike(s, i, t, j, o)
  {
    PiecesCons(s, i, t, j, o, a, b);
    if Aligned(s, i, t, j, o) { OneCommand(s, i, t, j, o, a, b); }
  }

  lemma {:induction false} EverywhereCutAlike(s: string, i: nat, t: string, j: nat, o: Setting)
    requires 1 <= o.skip <= 2 && i <= |s| && j <= |t|
    ensures CutAlike(s, i, t, j, o) == true
    decreases |s| - i
  {
    var a, b := FirstSemi(s, i, o), FirstSemi(t, j, o);
    if a < |s| && b < |t| { EverywhereCutAlike(s, a + 1, t, b + 1, o); }
    CutAlikeStep(s, i, t, j, o, a, b);
  }

  lemma ApartNext(s: string, i: nat, o: Setting, a: nat)
    requires i <= |s| && 1 <= o.skip <= 2 && Apart(s, i, o) && a == FirstSemi(s, i, o) < |s|
    ensures Apart(s, a + 1, o)
  {
    ApartBehind(s, i, o);
    SemiStands(s, i, o);
    assert BlockEnd(s, a, o) == a + 1;
  }

  lemma PiecesCons(s: string, i: nat, t: string, j: nat, o: Setting, a: nat, b: nat)
    requires i <= |s| && 1 <= o.skip <= 2 && j <= |t| && a == FirstSemi(s, i, o) && b == FirstSemi(t, j, o)
    ensures t[j..b] == Command(s, i, 0, o) && (a == |s| <==> b == |t|)
            && (a < |s| && b < |t| ==> Pieces(t, b + 1, o) == Commands(s, a + 1, o)) ==>
              Pieces(t, j, o) == Commands(s, i, o)
  {
    PiecesStep(t, j, o, b);
    CommandsStep(s, i, o, a);
  }

  lemma PiecesStep(t: string, j: nat, o: Setting, b: nat)
    requires j <= |t| && 1 <= o.skip <= 2 && b == FirstSemi(t, j, o)
    ensures Pieces(t, j, o) == if b < |t| then [t[j..b]] + Pieces(t, b + 1, o) else [t[j..b]]
  {
  }

  lemma CommandsStep(s: string, i: nat, o: Setting, a: nat)
    requires i <= |s| && 1 <= o.skip <= 2 && a == FirstSemi(s, i, o)
    ensures Commands(s, i, o) ==
            if a < |s| then [Command(s, i, 0, o)] + Commands(s, a + 1, o) else [Command(s, i, 0, o)]
  {
  }
}
