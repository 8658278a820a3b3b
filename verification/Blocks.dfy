/** Where the blocks of a statement end, told by its characters: each end is the first place of a certain kind, and
    there is only one. */
module Blocks {
  import opened ScanSpec

  predicate Multibyte(c: char) {
    c as int >= 128
  }

  predicate Word(c: char) {
    'A' <= c <= 'Z' || 'a' <= c <= 'z' || '0' <= c <= '9' || Multibyte(c)
  }

  predicate WordPart(c: char) {
    Word(c) || c == '_' || c == '$'
  }

  // ----- What closes a block -----

  /** In a literal from `lo` on, a backslash stands in front of `p` that has not found its character: bytes of
      multibyte characters do not count, and a backslash can itself be the character. */
  predicate Waits(s: string, lo: nat, p: nat)
    requires p <= |s|
    decreases p
  {
    p > lo && if Multibyte(s[p - 1]) then Waits(s, lo, p - 1) else s[p - 1] == '\\' && !Waits(s, lo, p - 1)
  }

  /** In a comment from `lo` on, an opener or a closer starts at `p`; two of them do not share a character. */
  predicate Mark(s: string, lo: nat, p: nat)
    decreases p
  {
    && lo <= p && p + 1 < |s|
    && ((s[p] == '/' && s[p + 1] == '*') || (s[p] == '*' && s[p + 1] == '/'))
    && !(p > lo && Mark(s, lo, p - 1))
  }

  /** One more than the openers, less the closers, that start from `lo` up to `p`. */
  function Balance(s: string, lo: nat, p: nat): int
    requires p <= |s|
    decreases p
  {
    if p <= lo then 1
    else Balance(s, lo, p - 1) + if !Mark(s, lo, p - 1) then 0 else if s[p - 1] == '/' then 1 else -1
  }

  datatype Closer =
    | LineFeed
    | DoubleQuote
    | Quote(lo: nat, escapes: bool)
    | Comment(lo: nat)
    | Tag(start: nat, length: nat)

  /** Does the block close with the character at `q`? */
  predicate Closes(s: string, k: Closer, q: nat) {
    q < |s| &&
    match k
    case LineFeed => s[q] == '\n'
    case DoubleQuote => s[q] == '"'
    case Quote(lo, escapes) => s[q] == '\'' && !(escapes && Waits(s, lo, q))
    case Comment(lo) => q > lo && Mark(s, lo, q - 1) && s[q] == '/' && Balance(s, lo, q) == 0
    case Tag(start, n) => start + 2 * n <= q + 1 && s[q + 1 - n..q + 1] == s[start..start + n]
  }

  /** `e` is behind the first character from `i` on that closes, or the end if there is none. */
  predicate BehindFirst(s: string, i: nat, e: nat, k: Closer) {
    && i <= e <= |s|
    && (forall p :: i <= p < e - 1 ==> !Closes(s, k, p))
    && (e == |s| || (i < e && Closes(s, k, e - 1)))
  }

  /** A tag of length `n` stands at `i`: word characters between two dollar signs. */
  predicate IsTag(s: string, i: nat, n: nat) {
    && 2 <= n && i + n <= |s| && s[i] == '$' && s[i + n - 1] == '$'
    && forall p :: i < p < i + n - 1 ==> Word(s[p])
  }

  /** The session's setting, or an E in front. */
  predicate Escapes(s: string, i: nat, o: Setting)
    requires i < |s|
  {
    o.escape || if i == 0 then o.before == 'E' else s[i - 1] == 'E'
  }

  predicate Two(s: string, i: nat, c: char, d: char) {
    i + 1 < |s| && s[i] == c && s[i + 1] == d
  }

  /** What a dollar sign at `i` begins ends at `e`. */
  ghost predicate DollarTo(s: string, i: nat, e: nat) {
    if exists n :: IsTag(s, i, n) then exists n :: IsTag(s, i, n) && BehindFirst(s, i + n, e, Tag(i, n))
    else e == i + 1
  }

  /** The block that starts at `i` ends at `e`. */
  ghost predicate BlockTo(s: string, i: nat, e: nat, o: Setting)
    requires i < |s|
  {
    if s[i] == '\'' then BehindFirst(s, i + 1, e, Quote(i + 1, Escapes(s, i, o)))
    else if s[i] == '"' then BehindFirst(s, i + 1, e, DoubleQuote)
    else if Two(s, i, '/', '*') then BehindFirst(s, i + o.skip, e, Comment(i + o.skip))
    else if Two(s, i, '-', '-') then BehindFirst(s, i + 2, e, LineFeed)
    else if s[i] == '$' then DollarTo(s, i, e)
    else if Word(s[i]) then
      i < e <= |s| && (forall p :: i < p < e ==> WordPart(s[p])) && (e < |s| ==> !WordPart(s[e]))
    else e == i + 1
  }

  // ----- There is only one such end -----

  lemma OneEnd(s: string, i: nat, e: nat, e1: nat, k: Closer)
    requires BehindFirst(s, i, e, k) && BehindFirst(s, i, e1, k)
    ensures e == e1
  {
  }

  lemma OneTag(s: string, i: nat, n: nat, m: nat)
    requires IsTag(s, i, n) && IsTag(s, i, m)
    ensures n == m
  {
  }

  lemma OneBlock(s: string, i: nat, e: nat, e1: nat, o: Setting)
    requires i < |s| && BlockTo(s, i, e, o) && BlockTo(s, i, e1, o)
    ensures e == e1
  {
    if s[i] == '\'' {
      OneEnd(s, i + 1, e, e1, Quote(i + 1, Escapes(s, i, o)));
    } else if s[i] == '"' {
      OneEnd(s, i + 1, e, e1, DoubleQuote);
    } else if Two(s, i, '/', '*') {
      OneEnd(s, i + o.skip, e, e1, Comment(i + o.skip));
    } else if Two(s, i, '-', '-') {
      OneEnd(s, i + 2, e, e1, LineFeed);
    } else if s[i] == '$' {
      OneDollar(s, i, e, e1);
    }
  }

  lemma OneDollar(s: string, i: nat, e: nat, e1: nat)
    requires DollarTo(s, i, e) && DollarTo(s, i, e1)
    ensures e == e1
  {
    if n :| IsTag(s, i, n) {
      var n0 :| IsTag(s, i, n0) && BehindFirst(s, i + n0, e, Tag(i, n0));
      var n1 :| IsTag(s, i, n1) && BehindFirst(s, i + n1, e1, Tag(i, n1));
      OneTag(s, i, n0, n1);
      OneEnd(s, i + n0, e, e1, Tag(i, n0));
    }
  }

  // ----- The ends of the scanner -----

  lemma {:induction false} LineFirst(s: string, i: nat)
    requires i <= |s|
    ensures BehindFirst(s, i, LineEnd(s, i), LineFeed)
    decreases |s| - i
  {
    if i < |s| && s[i] != '\n' { LineFirst(s, i + 1); }
  }

  lemma {:induction false} QuotedFirst(s: string, i: nat)
    requires i <= |s|
    ensures BehindFirst(s, i, QuotedEnd(s, i), DoubleQuote)
    decreases |s| - i
  {
    if i < |s| && s[i] != '"' { QuotedFirst(s, i + 1); }
  }

  /** What a waiting backslash protects does not close the literal. */
  lemma {:induction false} EscapePasses(s: string, lo: nat, i: nat)
    requires lo < i <= |s| && Waits(s, lo, i)
    ensures var e := EscapeEnd(s, i);
            (forall p :: i <= p < e ==> !Closes(s, Quote(lo, true), p)) && (e == |s| || !Waits(s, lo, e))
    decreases |s| - i
  {
    if i < |s| && Multibyte(s[i]) { EscapePasses(s, lo, i + 1); }
  }

  lemma {:induction false} LiteralFirst(s: string, lo: nat, i: nat, escapes: bool)
    requires lo <= i <= |s| && (escapes && i < |s| ==> !Waits(s, lo, i))
    ensures BehindFirst(s, i, LiteralEnd(s, i, escapes), Quote(lo, escapes))
    decreases |s| - i
  {
    if i < |s| && s[i] != '\'' {
      if escapes && s[i] == '\\' {
        EscapePasses(s, lo, i + 1);
        LiteralFirst(s, lo, EscapeEnd(s, i + 1), escapes);
      } else {
        LiteralFirst(s, lo, i + 1, escapes);
      }
    }
  }

  lemma {:induction false} CommentFirst(s: string, lo: nat, i: nat, level: nat)
    requires lo <= i <= |s| && (i > lo ==> !Mark(s, lo, i - 1)) && Balance(s, lo, i) == level > 0
    ensures BehindFirst(s, i, CommentEnd(s, i, level), Comment(lo))
    decreases |s| - i
  {
    if i < |s| {
      if Two(s, i, '/', '*') {
        CommentFirst(s, lo, i + 2, level + 1);
      } else if Two(s, i, '*', '/') {
        if level > 1 { CommentFirst(s, lo, i + 2, level - 1); }
      } else {
        CommentFirst(s, lo, i + 1, level);
      }
    }
  }

  /** The tag closes with its last character. */
  lemma TagCloses(s: string, tag: nat, n: nat, r: nat)
    requires 2 <= n && tag + n <= r < |s| && s[tag] == '$'
    ensures Closes(s, Tag(tag, n), r + n - 1) <==> s[r] == '$' && TagAt(s, tag, n, r)
  {
    if r + n <= |s| { assert s[r..r + n][0] == s[r] && s[tag..tag + n][0] == s[tag]; }
  }

  /** Up to the end of a tag that would begin at `i` nothing closes. */
  lemma NoTagYet(s: string, tag: nat, n: nat, i: nat)
    requires 2 <= n && tag + n <= i <= |s| && forall r :: tag + n <= r < i ==> !TagAt(s, tag, n, r)
    ensures forall p :: i <= p < i + n - 1 ==> !Closes(s, Tag(tag, n), p)
  {
    forall p | i <= p < i + n - 1 && p < |s| && tag + 2 * n <= p + 1 ensures !Closes(s, Tag(tag, n), p) {
      assert !TagAt(s, tag, n, p + 1 - n);
    }
  }

  lemma {:induction false} DollarFirst(s: string, tag: nat, n: nat, i: nat)
    requires 2 <= n && tag + n <= i <= |s| && s[tag] == '$'
    requires forall r :: tag + n <= r < i ==> !TagAt(s, tag, n, r)
    ensures BehindFirst(s, i, DollarEnd(s, tag, n, i), Tag(tag, n))
    decreases |s| - i
  {
    NoTagYet(s, tag, n, i);
    if i < |s| {
      TagCloses(s, tag, n, i);
      if !(s[i] == '$' && TagAt(s, tag, n, i)) { DollarFirst(s, tag, n, i + 1); }
    }
  }

  lemma {:induction false} CloseFound(s: string, i: nat)
    requires i <= |s|
    ensures var k := TagClose(s, i);
            k < |s| ==> s[k] == '$' && forall p :: i <= p < k ==> Word(s[p])
    decreases |s| - i
  {
    if i < |s| && s[i] != '$' && StartsIdent(s[i]) { CloseFound(s, i + 1); }
  }

  lemma {:induction false} CloseIs(s: string, i: nat, k: nat)
    requires i <= k < |s| && s[k] == '$' && forall p :: i <= p < k ==> Word(s[p])
    ensures TagClose(s, i) == k
    decreases k - i
  {
    if i < k { CloseIs(s, i + 1, k); }
  }

  lemma TagFound(s: string, i: nat)
    requires i < |s| && s[i] == '$'
    ensures TagLength(s, i) > 0 ==> IsTag(s, i, TagLength(s, i))
    ensures TagLength(s, i) == 0 ==> !exists n :: IsTag(s, i, n)
  {
    CloseFound(s, i + 1);
    if TagLength(s, i) == 0 {
      if n :| IsTag(s, i, n) { CloseIs(s, i + 1, i + n - 1); }
    }
  }

  lemma {:induction false} IdentFirst(s: string, i: nat)
    requires i <= |s|
    ensures var e := IdentEnd(s, i);
            (forall p :: i <= p < e ==> WordPart(s[p])) && (e < |s| ==> !WordPart(s[e]))
    decreases |s| - i
  {
    if i < |s| && IsIdentChar(s[i]) { IdentFirst(s, i + 1); }
  }

  lemma DollarEnds(s: string, i: nat, o: Setting)
    requires i < |s| && s[i] == '$' && 1 <= o.skip <= 2
    ensures DollarTo(s, i, BlockEnd(s, i, o))
  {
    var n := TagLength(s, i);
    TagFound(s, i);
    if n > 0 { DollarFirst(s, i, n, i + n); }
  }

  lemma BlockEnds(s: string, i: nat, o: Setting)
    requires i < |s| && 1 <= o.skip <= 2
    ensures BlockTo(s, i, BlockEnd(s, i, o), o)
  {
    if s[i] == '\'' {
      LiteralFirst(s, i + 1, i + 1, Escapes(s, i, o));
    } else if s[i] == '"' {
      QuotedFirst(s, i + 1);
    } else if Two(s, i, '/', '*') {
      CommentFirst(s, i + o.skip, i + o.skip, 1);
    } else if Two(s, i, '-', '-') {
      LineFirst(s, i + 2);
    } else if s[i] == '$' {
      DollarEnds(s, i, o);
    } else if Word(s[i]) {
      IdentFirst(s, i + 1);
    }
  }

  /** The scanner ends a block exactly where its characters say: a literal behind the first quote that no backslash
      protects, a quoted identifier behind the first double quote, a comment where openers and closers first balance, a
      line comment behind the first line feed, a dollar quote behind the first recurrence of its tag, an identifier
      before the first character that is not part of a word, anything else behind one character. */
  lemma BlockEndIff(s: string, i: nat, e: nat, o: Setting)
    requires i < |s| && 1 <= o.skip <= 2
    ensures BlockEnd(s, i, o) == e <==> BlockTo(s, i, e, o)
  {
    BlockEnds(s, i, o);
    if BlockTo(s, i, e, o) { OneBlock(s, i, BlockEnd(s, i, o), e, o); }
  }
}
