/** Where a block ends depends only on its own text: the same text elsewhere ends in the same place. */
module ScanLocal {
  import opened Basics
  import opened ScanSpec

  /** What stands from `i` to `e` in `s` stands in `t` too, `d` further on; if `s` ends there, so does `t`. */
  predicate Same(s: string, t: string, d: int, i: nat, e: nat) {
    && i <= e <= |s| && 0 <= i + d && e + d <= |t| && (e == |s| ==> e + d == |t|)
    && forall p :: i <= p < e ==> s[p] == t[p + d]
  }

  lemma {:induction false} LineLocal(s: string, t: string, d: int, i: nat)
    requires i <= |s| && Same(s, t, d, i, LineEnd(s, i))
    ensures LineEnd(t, i + d) == LineEnd(s, i) + d
    decreases |s| - i
  {
    if i < |s| && s[i] != '\n' { LineLocal(s, t, d, i + 1); }
  }

  lemma {:induction false} QuotedLocal(s: string, t: string, d: int, i: nat)
    requires i <= |s| && Same(s, t, d, i, QuotedEnd(s, i))
    ensures QuotedEnd(t, i + d) == QuotedEnd(s, i) + d
    decreases |s| - i
  {
    if i < |s| && s[i] != '"' { QuotedLocal(s, t, d, i + 1); }
  }

  lemma {:induction false} EscapeLocal(s: string, t: string, d: int, i: nat, e: nat)
    requires i <= |s| && EscapeEnd(s, i) <= e && Same(s, t, d, i, e)
    ensures EscapeEnd(t, i + d) == EscapeEnd(s, i) + d
    decreases |s| - i
  {
    if i < |s| && NonAscii(s[i]) { EscapeLocal(s, t, d, i + 1, e); }
  }

  /** Behind the character of a literal at `i`, and what a backslash there protects. */
  function LiteralNext(s: string, i: nat, escapes: bool): (e: nat)
    requires i < |s|
    ensures i < e <= |s|
  {
    if escapes && s[i] == '\\' then EscapeEnd(s, i + 1) else i + 1
  }

  lemma LiteralNextLocal(s: string, t: string, d: int, i: nat, escapes: bool, e: nat)
    requires i < |s| && LiteralNext(s, i, escapes) <= e && Same(s, t, d, i, e)
    ensures LiteralNext(t, i + d, escapes) == LiteralNext(s, i, escapes) + d
  {
    assert s[i] == t[i + d];
    if escapes && s[i] == '\\' { EscapeLocal(s, t, d, i + 1, e); }
  }

  lemma {:induction false} LiteralLocal(s: string, t: string, d: int, i: nat, escapes: bool)
    requires i <= |s| && Same(s, t, d, i, LiteralEnd(s, i, escapes))
    ensures LiteralEnd(t, i + d, escapes) == LiteralEnd(s, i, escapes) + d
    decreases |s| - i
  {
    if i < |s| && s[i] != '\'' {
      var e := LiteralNext(s, i, escapes);
      assert LiteralEnd(s, i, escapes) == LiteralEnd(s, e, escapes);
      LiteralNextLocal(s, t, d, i, escapes, LiteralEnd(s, e, escapes));
      LiteralLocal(s, t, d, e, escapes);
    }
  }

  lemma {:induction false} CommentLocal(s: string, t: string, d: int, i: nat, level: nat)
    requires i <= |s| && Same(s, t, d, i, CommentEnd(s, i, level))
    ensures CommentEnd(t, i + d, level) == CommentEnd(s, i, level) + d
    decreases |s| - i
  {
    if i < |s| {
      if s[i] == '/' && At(s, i + 1) == '*' {
        CommentLocal(s, t, d, i + 2, level + 1);
      } else if s[i] == '*' && At(s, i + 1) == '/' {
        if level > 1 { CommentLocal(s, t, d, i + 2, level - 1); }
      } else {
        CommentLocal(s, t, d, i + 1, level);
      }
    }
  }

  /** An identifier also needs what follows it not to continue it. */
  lemma {:induction false} IdentLocal(s: string, t: string, d: int, i: nat)
    requires i <= |s| && Same(s, t, d, i, IdentEnd(s, i)) && !IsIdentChar(At(t, IdentEnd(s, i) + d))
    ensures IdentEnd(t, i + d) == IdentEnd(s, i) + d
    decreases |s| - i
  {
    if i < |s| && IsIdentChar(s[i]) { IdentLocal(s, t, d, i + 1); }
  }

  /** A tag found in a text is found in its copy. */
  lemma {:induction false} TagLocal(s: string, t: string, d: int, i: nat, e: nat)
    requires i <= |s| && TagClose(s, i) < e && Same(s, t, d, i, e)
    ensures TagClose(t, i + d) == TagClose(s, i) + d < |t|
    decreases |s| - i
  {
    if s[i] != '$' { TagLocal(s, t, d, i + 1, e); }
  }

  lemma TagAtLocal(s: string, t: string, d: int, tag: nat, n: nat, i: nat, e: nat)
    requires tag + n <= i && Same(s, t, d, tag, e) && i <= e && (i + n <= e || e == |s|)
    ensures TagAt(s, tag, n, i) <==> TagAt(t, tag + d, n, i + d)
  {
    if i + n <= e {
      assert s[i..i + n] == t[i + d..i + d + n] && s[tag..tag + n] == t[tag + d..tag + d + n];
    }
  }

  lemma {:induction false} DollarLocal(s: string, t: string, d: int, tag: nat, n: nat, i: nat)
    requires 2 <= n && tag + n <= i <= |s| && Same(s, t, d, tag, DollarEnd(s, tag, n, i))
    ensures DollarEnd(t, tag + d, n, i + d) == DollarEnd(s, tag, n, i) + d
    decreases |s| - i
  {
    if i < |s| {
      DollarReach(s, tag, n, i);
      TagAtLocal(s, t, d, tag, n, i, DollarEnd(s, tag, n, i));
      if !(s[i] == '$' && TagAt(s, tag, n, i)) { DollarLocal(s, t, d, tag, n, i + 1); }
    }
  }

  /** A closed dollar quote holds its closing tag. */
  lemma {:induction false} DollarReach(s: string, tag: nat, n: nat, i: nat)
    requires tag + n <= |s| && 2 <= n && i <= |s|
    ensures DollarEnd(s, tag, n, i) == |s| || DollarEnd(s, tag, n, i) >= i + n
    decreases |s| - i
  {
    if i < |s| && !(s[i] == '$' && TagAt(s, tag, n, i)) { DollarReach(s, tag, n, i + 1); }
  }

  /** The same block elsewhere: what follows must not continue an identifier, complete a tag or open a
      comment, and an E before a literal must be there in both or in neither. */
  lemma BlockLocal(s: string, t: string, d: int, i: nat, o: Setting)
    requires i < |s| && 1 <= o.skip <= 2 && Same(s, t, d, i, BlockEnd(s, i, o))
    requires s[i] == '\'' ==> LiteralEscapes(s, i, o.escape, o.before) == LiteralEscapes(t, i + d, o.escape, o.before)
    requires StartsIdent(s[i]) ==> !IsIdentChar(At(t, BlockEnd(s, i, o) + d))
    requires s[i] == '$' && TagLength(s, i) == 0 ==> TagLength(t, i + d) == 0
    requires s[i] == '/' && At(s, i + 1) != '*' ==> At(t, i + 1 + d) != '*'
    requires s[i] == '-' && At(s, i + 1) != '-' ==> At(t, i + 1 + d) != '-'
    ensures BlockEnd(t, i + d, o) == BlockEnd(s, i, o) + d
  {
    var c := s[i];
    if c == '$' {
      DollarBlock(s, t, d, i, o);
    } else if c == '\'' {
      LiteralLocal(s, t, d, i + 1, LiteralEscapes(s, i, o.escape, o.before));
    } else if c == '"' {
      QuotedLocal(s, t, d, i + 1);
    } else if c == '/' {
      CommentBlock(s, t, d, i, o);
    } else if c == '-' {
      LineBlock(s, t, d, i, o);
    } else if StartsIdent(c) {
      IdentLocal(s, t, d, i + 1);
    }
  }

  lemma DollarBlock(s: string, t: string, d: int, i: nat, o: Setting)
    requires i < |s| && 1 <= o.skip <= 2 && Same(s, t, d, i, BlockEnd(s, i, o)) && s[i] == '$'
    requires TagLength(s, i) == 0 ==> TagLength(t, i + d) == 0
    ensures BlockEnd(t, i + d, o) == BlockEnd(s, i, o) + d
  {
    var n := TagLength(s, i);
    if n > 0 {
      TagLocal(s, t, d, i + 1, BlockEnd(s, i, o));
      DollarLocal(s, t, d, i, n, i + n);
    }
  }

  lemma CommentBlock(s: string, t: string, d: int, i: nat, o: Setting)
    requires i < |s| && 1 <= o.skip <= 2 && Same(s, t, d, i, BlockEnd(s, i, o)) && s[i] == '/'
    requires At(s, i + 1) != '*' ==> At(t, i + 1 + d) != '*'
    ensures BlockEnd(t, i + d, o) == BlockEnd(s, i, o) + d
  {
    if At(s, i + 1) == '*' {
      OpenerInside(s, i, o);
      CommentLocal(s, t, d, i + o.skip, 1);
    }
  }

  lemma LineBlock(s: string, t: string, d: int, i: nat, o: Setting)
    requires i < |s| && 1 <= o.skip <= 2 && Same(s, t, d, i, BlockEnd(s, i, o)) && s[i] == '-'
    requires At(s, i + 1) != '-' ==> At(t, i + 1 + d) != '-'
    ensures BlockEnd(t, i + d, o) == BlockEnd(s, i, o) + d
  {
    if At(s, i + 1) == '-' {
      assert LineEnd(s, i + 1) >= i + 2;
      LineLocal(s, t, d, i + 1);
    }
  }

  lemma OpenerInside(s: string, i: nat, o: Setting)
    requires i < |s| && 1 <= o.skip <= 2 && s[i] == '/' && At(s, i + 1) == '*'
    ensures BlockEnd(s, i, o) >= i + 2
  {
  }
}
