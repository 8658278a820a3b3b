/** The translated pattern means what the ODBC pattern means, exactly when no backslash of the
    pattern stands directly before a non-ASCII character. */
module LikeMeaning {
  import opened Basics
  import opened SqlLiteral
  import opened LikePattern

  /** The pattern behind the literal: the same translation without the lexer layer. */
  function Pattern(p: string, escapeIn: bool): string
    decreases |p|
  {
    if p == "" then if escapeIn then "\\" else ""
    else PatternUnit(p[0], escapeIn) + Pattern(p[1..], NextEscape(p[0], escapeIn))
  }

  function PatternUnit(c: char, escapeIn: bool): string {
    if !NonAscii(c) && escapeIn && c != '%' && c != '_' then ['\\', c] else [c]
  }

  lemma {:induction false} AdjustedIsEscaped(p: string, escapeIn: bool, lexer: bool)
    ensures Adjusted(p, escapeIn, lexer) == Escaped(Pattern(p, escapeIn), lexer)
    decreases |p|
  {
    if p == "" {
    } else {
      var unit, next := PatternUnit(p[0], escapeIn), NextEscape(p[0], escapeIn);
      AdjustedIsEscaped(p[1..], next, lexer);
      EscapedConcat(unit, Pattern(p[1..], next), lexer);
      assert Unit(p[0], escapeIn, lexer) == Escaped(unit, lexer) by {
        assert Escaped([p[0]], lexer) == EscapeChar(p[0], lexer) + "";
        if |unit| == 2 { assert unit[1..] == [p[0]]; }
      }
    }
  }

  /** Some backslash is followed directly by a non-ASCII character. */
  predicate BackslashBeforeNonAscii(p: string) {
    exists i :: 0 <= i < |p| - 1 && p[i] == '\\' && NonAscii(p[i + 1])
  }

  lemma BadCons(c: char, p: string)
    ensures BackslashBeforeNonAscii([c] + p) <==>
            (c == '\\' && p != "" && NonAscii(p[0])) || BackslashBeforeNonAscii(p)
  {
    var q := [c] + p;
    if c == '\\' && p != "" && NonAscii(p[0]) {
      assert q[0] == '\\' && NonAscii(q[0 + 1]);
    }
    if BackslashBeforeNonAscii(p) {
      var i :| 0 <= i < |p| - 1 && p[i] == '\\' && NonAscii(p[i + 1]);
      assert q[i + 1] == '\\' && NonAscii(q[(i + 1) + 1]);
    }
    if BackslashBeforeNonAscii(q) {
      var i :| 0 <= i < |q| - 1 && q[i] == '\\' && NonAscii(q[i + 1]);
      if i > 0 { assert p[i - 1] == '\\' && NonAscii(p[(i - 1) + 1]); }
    }
  }

  // ----- The tokens LIKE sees, read off the ODBC pattern -----

  /** Where the translation stands: not after a backslash; after a backslash that the next written
      character will use up; or after one already used up by a non-ASCII character. */
  datatype Mode = Clear | Pending | Stale

  function LikeView(p: string, mode: Mode): Option<seq<Token>>
    decreases |p|
  {
    if p == "" then
      match mode
      case Clear => Some([])
      case Pending => Some([Lit('\\')])
      case Stale => None
    else if NonAscii(p[0]) then
      Cons(Lit(p[0]), LikeView(p[1..], if mode == Clear then Clear else Stale))
    else if p[0] == '\\' then
      match mode
      case Clear => LikeView(p[1..], Pending)
      case _ => Cons(Lit('\\'), LikeView(p[1..], mode))
    else if mode == Pending && p[0] != '%' && p[0] != '_' then
      Cons(Lit('\\'), Cons(Lit(p[0]), LikeView(p[1..], Clear)))
    else Cons(if mode == Pending then Lit(p[0]) else Plain(p[0]), LikeView(p[1..], Clear))
  }

  function Lead(mode: Mode): string {
    if mode == Pending then "\\" else ""
  }

  lemma LikeOne(c: char, rest: string)
    requires c != '\\'
    ensures LikeTokens([c] + rest) == Cons(Plain(c), LikeTokens(rest))
  {
    assert ([c] + rest)[1..] == rest;
  }

  lemma LikeTwo(c: char, rest: string)
    ensures LikeTokens(['\\', c] + rest) == Cons(Lit(c), LikeTokens(rest))
  {
    assert (['\\', c] + rest)[2..] == rest;
  }

  lemma {:induction false} LikeViewIsLike(p: string, mode: Mode)
    ensures LikeTokens(Lead(mode) + Pattern(p, mode != Clear)) == LikeView(p, mode)
    decreases |p|
  {
    var text := Lead(mode) + Pattern(p, mode != Clear);
    if p == "" {
      if mode == Pending {
        LikeTwo('\\', "");
        assert text == ['\\', '\\'] + "" && [Lit('\\')] + [] == [Lit('\\')];
      }
    } else {
      var c, tail := p[0], p[1..];
      var next := After(c, mode);
      LikeViewStep(c, Pattern(tail, next != Clear), mode);
      LikeViewIsLike(tail, next);
      assert Pattern(p, mode != Clear) == PatternUnit(c, mode != Clear) + Pattern(tail, next != Clear);
    }
  }

  function After(c: char, mode: Mode): Mode {
    if NonAscii(c) then if mode == Clear then Clear else Stale
    else if c != '\\' then Clear
    else if mode == Clear then Pending else mode
  }

  lemma LikeBackslash(body: string, mode: Mode)
    requires mode != Clear
    ensures LikeTokens(Lead(mode) + (['\\', '\\'] + body)) == Cons(Lit('\\'), LikeTokens(Lead(mode) + body))
  {
    LikeTwo('\\', Lead(mode) + body);
    assert Lead(mode) + (['\\', '\\'] + body) == ['\\', '\\'] + (Lead(mode) + body);
  }

  lemma LikePending(c: char, body: string)
    requires c != '\\'
    ensures LikeTokens("\\" + ([c] + body)) == Cons(Lit(c), LikeTokens(body))
    ensures LikeTokens("\\" + (['\\', c] + body)) == Cons(Lit('\\'), Cons(Plain(c), LikeTokens(body)))
  {
    LikeTwo(c, body);
    assert "\\" + ([c] + body) == ['\\', c] + body;
    LikeTwo('\\', [c] + body);
    LikeOne(c, body);
    assert "\\" + (['\\', c] + body) == ['\\', '\\'] + ([c] + body);
  }

  /** One character: what LIKE reads from what it wrote. */
  lemma LikeViewStep(c: char, body: string, mode: Mode)
    ensures var rest := Lead(After(c, mode)) + body;
            LikeTokens(Lead(mode) + (PatternUnit(c, mode != Clear) + body)) ==
            if mode == Clear && c == '\\' then LikeTokens(rest)
            else if mode == Pending && !NonAscii(c) && c != '\\' && c != '%' && c != '_'
            then Cons(Lit('\\'), Cons(Lit(c), LikeTokens(rest)))
            else Cons(if mode == Pending || (mode == Stale && c == '\\') then Lit(c) else Plain(c), LikeTokens(rest))
  {
    if c == '\\' {
      if mode == Clear {
        assert Lead(mode) + ([c] + body) == "\\" + body;
      } else {
        LikeBackslash(body, mode);
      }
    } else {
      assert "" + body == body;
      if mode == Pending {
        LikePending(c, body);
      } else {
        var unit := PatternUnit(c, mode != Clear);
        assert "" + (unit + body) == unit + body;
        LikeOne(c, body);
        LikeTwo(c, body);
      }
    }
  }

  // ----- Against the ODBC reading -----

  function Source(p: string, mode: Mode): string {
    Lead(mode) + p
  }

  lemma OdbcStep(p: string, mode: Mode)
    requires p != ""
    ensures var c, tail := p[0], p[1..];
            OdbcTokens(Source(p, mode)) ==
            if mode != Pending then
              if c == '\\' then OdbcTokens(Source(tail, Pending)) else [Plain(c)] + OdbcTokens(tail)
            else if c == '%' || c == '_' then [Lit(c)] + OdbcTokens(tail)
            else if c == '\\' then [Lit('\\')] + OdbcTokens(Source(tail, Pending))
            else [Lit('\\')] + ([Plain(c)] + OdbcTokens(tail))
  {
    var src := Source(p, mode);
    assert Source(p[1..], Pending) == ['\\'] + p[1..];
    assert p == [p[0]] + p[1..];
    if mode == Pending {
      assert src[1..] == p && src[2..] == p[1..];
    } else {
      assert src == p;
    }
  }

  lemma BadSource(p: string, mode: Mode)
    requires p != ""
    ensures BackslashBeforeNonAscii(Source(p, mode)) <==>
            (mode == Pending && NonAscii(p[0]))
            || BackslashBeforeNonAscii(if p[0] == '\\' then Source(p[1..], Pending) else p[1..])
  {
    assert p == [p[0]] + p[1..];
    BadCons(p[0], p[1..]);
    if p[0] == '\\' { assert Source(p[1..], Pending) == p; }
    if mode == Pending {
      assert Source(p, mode) == ['\\'] + p;
      BadCons('\\', p);
    } else {
      assert Source(p, mode) == p;
    }
  }

  lemma {:induction false} SameTokens(p: string, mode: Mode)
    requires mode != Stale && !BackslashBeforeNonAscii(Source(p, mode))
    ensures LikeView(p, mode) == Some(OdbcTokens(Source(p, mode)))
    decreases |p|
  {
    if p == "" {
      if mode == Pending { assert Source(p, mode) == "\\" && [Lit('\\')] + [] == [Lit('\\')]; }
    } else {
      var c, tail := p[0], p[1..];
      OdbcStep(p, mode);
      BadSource(p, mode);
      if c == '\\' {
        SameTokens(tail, Pending);
      } else {
        assert Source(tail, Clear) == tail;
        SameTokens(tail, Clear);
      }
    }
  }

  function LitCount(ts: seq<Token>): nat {
    if ts == [] then 0 else (if ts[0].Lit? then 1 else 0) + LitCount(ts[1..])
  }

  lemma LitCountCons(t: Token, ts: seq<Token>)
    ensures LitCount([t] + ts) == (if t.Lit? then 1 else 0) + LitCount(ts)
  {
    assert ([t] + ts)[1..] == ts;
  }

  lemma LitCountOfCons(t: Token, r: Option<seq<Token>>)
    ensures r.Some? ==> Cons(t, r).Some? && LitCount(Cons(t, r).value) == (if t.Lit? then 1 else 0) + LitCount(r.value)
  {
    if r.Some? { LitCountCons(t, r.value); }
  }

  /** Characters other than the two wildcards. */
  function NonWild(p: string): nat {
    if p == "" then 0 else (if p[0] == '%' || p[0] == '_' then 0 else 1) + NonWild(p[1..])
  }

  /** A backslash either stands for itself or trades places with the wildcard it protects. */
  lemma {:induction false} OdbcLitCount(p: string)
    ensures LitCount(OdbcTokens(p)) == NonWild(p)
    decreases |p|
  {
    if p != "" {
      OdbcLitCount(p[1..]);
      if p[0] == '\\' && |p| > 1 && (p[1] == '%' || p[1] == '_') {
        assert p[1..][1..] == p[2..];
        OdbcLitCount(p[2..]);
        LitCountCons(Lit(p[1]), OdbcTokens(p[2..]));
      } else {
        LitCountCons(Plain(p[0]), OdbcTokens(p[1..]));
      }
    }
  }

  lemma LikeViewCount(p: string, mode: Mode)
    requires p != "" && LikeView(p, mode).Some?
    ensures var c, next := p[0], After(p[0], mode);
            && LikeView(p[1..], next).Some?
            && LitCount(LikeView(p, mode).value) + |Lead(next)| <=
               LitCount(LikeView(p[1..], next).value) + |Lead(mode)| + (if c == '%' || c == '_' then 0 else 1)
            && (mode == Pending && NonAscii(c) ==>
                  LitCount(LikeView(p, mode).value) <= LitCount(LikeView(p[1..], next).value) + 1)
  {
    var c := p[0];
    var r := LikeView(p[1..], After(c, mode));
    if mode != Clear || c != '\\' {
      LitCountOfCons(Plain(c), r);
      LitCountOfCons(Lit(c), r);
      if mode == Pending { LitCountOfCons(Lit('\\'), Cons(Lit(c), r)); }
    }
  }

  /** LIKE never asks for more literal characters than the ODBC pattern does, and for fewer once a
      backslash has met a non-ASCII character. */
  lemma {:induction false} FewerLiterals(p: string, mode: Mode)
    requires LikeView(p, mode).Some?
    ensures LitCount(LikeView(p, mode).value) <= NonWild(p) + |Lead(mode)|
    ensures mode != Stale && BackslashBeforeNonAscii(Source(p, mode)) ==>
              LitCount(LikeView(p, mode).value) < NonWild(p) + |Lead(mode)|
    decreases |p|
  {
    if p != "" {
      BadSource(p, mode);
      LikeViewCount(p, mode);
      FewerLiterals(p[1..], After(p[0], mode));
      assert Source(p[1..], Clear) == p[1..];
    } else {
      assert !BackslashBeforeNonAscii(Source(p, mode));
    }
  }

  // ----- Matching -----

  function Lits(ts: seq<Token>): multiset<char> {
    if ts == [] then multiset{} else (if ts[0].Lit? then multiset{ts[0].c} else multiset{}) + Lits(ts[1..])
  }

  lemma {:induction false} LitsSize(ts: seq<Token>)
    ensures |Lits(ts)| == LitCount(ts)
  {
    if ts != [] { LitsSize(ts[1..]); }
  }

  /** A matching string holds every literal of the pattern. */
  lemma {:induction false} MatchHoldsLits(ts: seq<Token>, s: string)
    requires Matches(ts, s)
    ensures Lits(ts) <= multiset(s)
    decreases |ts|, |s|
  {
    if ts != [] {
      if s != "" { assert s == [s[0]] + s[1..]; }
      if ts[0].AnyRun? {
        if Matches(ts[1..], s) { MatchHoldsLits(ts[1..], s); } else { MatchHoldsLits(ts, s[1..]); }
      } else {
        MatchHoldsLits(ts[1..], s[1..]);
      }
    }
  }

  /** A shortest matching string: nothing for a run, `z` for a single character. */
  function Shortest(ts: seq<Token>, z: char): string {
    if ts == [] then ""
    else match ts[0]
      case AnyRun => Shortest(ts[1..], z)
      case AnyOne => [z] + Shortest(ts[1..], z)
      case Lit(c) => [c] + Shortest(ts[1..], z)
  }

  lemma {:induction false} ShortestMatches(ts: seq<Token>, z: char, x: char)
    requires x != z
    ensures Matches(ts, Shortest(ts, z))
    ensures multiset(Shortest(ts, z))[x] == Lits(ts)[x]
  {
    if ts != [] {
      ShortestMatches(ts[1..], z, x);
      var rest := Shortest(ts[1..], z);
      if !ts[0].AnyRun? { assert Shortest(ts, z)[1..] == rest && Shortest(ts, z) == [Shortest(ts, z)[0]] + rest; }
    }
  }

  lemma SubsetSize(a: multiset<char>, b: multiset<char>)
    requires b <= a
    ensures |b| <= |a|
  {
    assert a == b + (a - b);
  }

  lemma FewerMeansOneFewer(a: multiset<char>, b: multiset<char>)
    requires |a| < |b|
    ensures exists x :: a[x] < b[x]
  {
    if b <= a { SubsetSize(a, b); }
  }

  /** The translation preserves the meaning of a pattern, for every string and in both escape
      modes, if and only if no backslash stands directly before a non-ASCII character. */
  lemma TranslationPreservesMeaningIff(p: string, lexer: bool)
    ensures (forall s :: LikeMatch(Literal(p, lexer), s) == Some(OdbcMatch(p, s)))
            <==> !BackslashBeforeNonAscii(p)
  {
    AdjustedIsEscaped(p, false, lexer);
    ConstantReadsBack(Pattern(p, false), lexer);
    LikeViewIsLike(p, Clear);
    assert Lead(Clear) + Pattern(p, false) == Pattern(p, false) && Source(p, Clear) == p;
    if !BackslashBeforeNonAscii(p) {
      SameTokens(p, Clear);
    } else if LikeView(p, Clear).None? {
      assert LikeMatch(Literal(p, lexer), "").None?;
    } else {
      var like, odbc := LikeView(p, Clear).value, OdbcTokens(p);
      FewerLiterals(p, Clear);
      OdbcLitCount(p);
      LitsSize(like);
      LitsSize(odbc);
      FewerMeansOneFewer(Lits(like), Lits(odbc));
      var x :| Lits(like)[x] < Lits(odbc)[x];
      var z := if x == 'a' then 'b' else 'a';
      var s := Shortest(like, z);
      ShortestMatches(like, z, x);
      if Matches(odbc, s) { MatchHoldsLits(odbc, s); }
      assert LikeMatch(Literal(p, lexer), s) != Some(OdbcMatch(p, s));
    }
  }

  /** The operand the catalog queries place after `like ` or `like E`. */
  function Literal(p: string, lexer: bool): string {
    (if lexer then "E'" else "'") + Adjusted(p, false, lexer) + "'"
  }

  /** In particular for every ASCII pattern. */
  lemma AsciiPatternsKeepMeaning(p: string, lexer: bool, s: string)
    requires forall i :: 0 <= i < |p| ==> !NonAscii(p[i])
    ensures LikeMatch(Literal(p, lexer), s) == Some(OdbcMatch(p, s))
  {
    TranslationPreservesMeaningIff(p, lexer);
  }
}
