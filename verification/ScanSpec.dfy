/** The lexical structure of a statement as convert.c's scanner takes it, block by block: identifiers,
    literals, quoted identifiers, dollar quotes, comments, and what stands between them. */
module ScanSpec {
  import opened Basics
  import opened BigNum

  /** The character at `i`; a terminator stands behind the last one. */
  function At(s: string, i: nat): char {
    if i < |s| then s[i] else '\0'
  }

  predicate IsAlnum(c: char) {
    '0' <= c <= '9' || 'A' <= c <= 'Z' || 'a' <= c <= 'z'
  }

  predicate StartsIdent(c: char) {
    IsAlnum(c) || NonAscii(c)
  }

  predicate IsIdentChar(c: char) {
    StartsIdent(c) || c == '$' || c == '_'
  }

  /** IS_NOT_SPACE, for a character that is not part of a multibyte character. */
  predicate NotSpace(c: char) {
    c != ' ' && !('\t' <= c <= '\r') && !NonAscii(c)
  }

  predicate NotSpaceIn(s: string, i: nat, j: nat) {
    exists q :: i <= q < j && q < |s| && NotSpace(s[q])
  }

  // ----- Where blocks end -----

  function IdentEnd(s: string, i: nat): (e: nat)
    requires i <= |s|
    ensures i <= e <= |s|
    decreases |s| - i
  {
    if i < |s| && IsIdentChar(s[i]) then IdentEnd(s, i + 1) else i
  }

  /** Just after a backslash inside a literal: bytes of multibyte characters do not use it up. */
  function EscapeEnd(s: string, i: nat): (e: nat)
    requires i <= |s|
    ensures i <= e <= |s|
    decreases |s| - i
  {
    if i == |s| then i else if NonAscii(s[i]) then EscapeEnd(s, i + 1) else i + 1
  }

  /** Inside a literal; `escapes`: a backslash protects the next ASCII character. */
  function LiteralEnd(s: string, i: nat, escapes: bool): (e: nat)
    requires i <= |s|
    ensures i <= e <= |s|
    decreases |s| - i
  {
    if i == |s| then i
    else if s[i] == '\'' then i + 1
    else if escapes && s[i] == '\\' then LiteralEnd(s, EscapeEnd(s, i + 1), escapes)
    else LiteralEnd(s, i + 1, escapes)
  }

  function QuotedEnd(s: string, i: nat): (e: nat)
    requires i <= |s|
    ensures i <= e <= |s|
    decreases |s| - i
  {
    if i == |s| then i else if s[i] == '"' then i + 1 else QuotedEnd(s, i + 1)
  }

  function LineEnd(s: string, i: nat): (e: nat)
    requires i <= |s|
    ensures i <= e <= |s|
    decreases |s| - i
  {
    if i == |s| then i else if s[i] == '\n' then i + 1 else LineEnd(s, i + 1)
  }

  /** Inside `level` nested comments. */
  function CommentEnd(s: string, i: nat, level: nat): (e: nat)
    requires i <= |s|
    ensures i <= e <= |s|
    decreases |s| - i
  {
    if i == |s| then i
    else if s[i] == '/' && At(s, i + 1) == '*' then CommentEnd(s, i + 2, level + 1)
    else if s[i] == '*' && At(s, i + 1) == '/' then if level <= 1 then i + 2 else CommentEnd(s, i + 2, level - 1)
    else CommentEnd(s, i + 1, level)
  }

  /** findTag: length of the tag `$...$` at `i`, or 0. */
  function TagLength(s: string, i: nat): (n: nat)
    requires i < |s|
    ensures i + n <= |s| && (n > 0 ==> n >= 2)
  {
    var k := TagClose(s, i + 1);
    if k < |s| then k + 1 - i else 0
  }

  /** Position of the dollar closing a tag whose name is read from `i` on, or the length of `s`. */
  function TagClose(s: string, i: nat): (k: nat)
    requires i <= |s|
    ensures i <= k <= |s|
    decreases |s| - i
  {
    if i == |s| then i
    else if s[i] == '$' then i
    else if StartsIdent(s[i]) then TagClose(s, i + 1)
    else |s|
  }

  /** Does the tag of length `n` at `tag` occur at `i`? */
  predicate TagAt(s: string, tag: nat, n: nat, i: nat)
    requires tag + n <= |s|
  {
    i + n <= |s| && s[i..i + n] == s[tag..tag + n]
  }

  /** Inside a dollar quote opened by the tag of length `n` at `tag`. */
  function DollarEnd(s: string, tag: nat, n: nat, i: nat): (e: nat)
    requires tag + n <= |s| && 2 <= n && i <= |s|
    ensures i <= e <= |s|
    decreases |s| - i
  {
    if i == |s| then i
    else if s[i] == '$' && TagAt(s, tag, n, i) then i + n
    else DollarEnd(s, tag, n, i + 1)
  }

  /** Backslash escapes in a literal that opens at `i`: by the session's setting, or by an E before it. */
  predicate LiteralEscapes(s: string, i: nat, escape: bool, before: char) {
    escape || (if i == 0 then before else At(s, i - 1)) == 'E'
  }

  /** The settings of a scan: `escape`: the session reads backslash escapes; `lf`: line ends are converted;
      `before`: the byte in front of the statement; `skip`: how much of a comment opener is passed over
      before its end is looked for, 1 in the rewriter and 2 in the counter. */
  datatype Setting = Setting(escape: bool, lf: bool, before: char, skip: nat)

  /** End of the block that starts at `i` outside all blocks; the blocks partition the statement. */
  function BlockEnd(s: string, i: nat, o: Setting): (e: nat)
    requires i < |s| && 1 <= o.skip <= 2
    ensures i < e <= |s|
  {
    var c := s[i];
    if c == '$' then
      var n := TagLength(s, i);
      if n > 0 then DollarEnd(s, i, n, i + n) else i + 1
    else if c == '\'' then LiteralEnd(s, i + 1, LiteralEscapes(s, i, o.escape, o.before))
    else if c == '"' then QuotedEnd(s, i + 1)
    else if c == '/' && At(s, i + 1) == '*' then CommentEnd(s, i + o.skip, 1)
    else if c == '-' && At(s, i + 1) == '-' then LineEnd(s, i + 1)
    else if StartsIdent(c) then IdentEnd(s, i + 1)
    else i + 1
  }

  /** A carriage return that is dropped in front of a line feed. */
  predicate Dropped(s: string, i: nat, o: Setting)
    requires i < |s|
  {
    o.lf && s[i] == '\r' && At(s, i + 1) == '\n'
  }

  /** The starts of the blocks from `i` on: every other position lies inside a block. */
  function Outside(s: string, i: nat, o: Setting): (ps: seq<nat>)
    requires i <= |s| && 1 <= o.skip <= 2
    ensures forall j :: 0 <= j < |ps| ==> i <= ps[j] < |s|
    decreases |s| - i
  {
    if i == |s| then [] else [i] + Outside(s, BlockEnd(s, i, o), o)
  }

  // ----- Commands -----

  /** Position of the first semicolon outside all blocks, or the length. */
  function FirstSemi(s: string, i: nat, o: Setting): (p: nat)
    requires i <= |s| && 1 <= o.skip <= 2
    ensures i <= p <= |s|
    decreases |s| - i
  {
    if i == |s| || s[i] == ';' then i else FirstSemi(s, BlockEnd(s, i, o), o)
  }

  /** Number of markers before that semicolon. */
  function MarkersBefore(s: string, i: nat, o: Setting): nat
    requires i <= |s| && 1 <= o.skip <= 2
    decreases |s| - i
  {
    if i == |s| || s[i] == ';' then 0
    else (if s[i] == '?' then 1 else 0) + MarkersBefore(s, BlockEnd(s, i, o), o)
  }

  // ----- The rewriting -----

  /** "%d" of a non-negative number. */
  function Digits(n: nat): (t: string)
    ensures AllDigits(t) && |t| >= 1
  {
    if n < 10 then [CharOf(n)] else Digits(n / 10) + [CharOf(n % 10)]
  }

  /** Value of a signed 16-bit counter. */
  function Int2(k: nat): int {
    (k + 0x8000) % 0x1_0000 - 0x8000
  }

  function MarkerText(k: nat): string {
    var n := Int2(k);
    if n >= 0 then "$" + Digits(n) else "$-" + Digits(-n)
  }

  /** What the scanner writes in prepare mode from position `i` on, `k` markers having been numbered since
      the last semicolon outside all blocks: each marker outside all blocks becomes `$k`, everything
      else is copied. */
  function Rewrite(s: string, i: nat, k: nat, o: Setting): string
    requires i <= |s| && 1 <= o.skip <= 2
    decreases |s| - i
  {
    if i == |s| then ""
    else if Dropped(s, i, o) then Rewrite(s, i + 1, k, o)
    else if s[i] == '?' then MarkerText(k + 1) + Rewrite(s, i + 1, k + 1, o)
    else if s[i] == ';' then ";" + Rewrite(s, i + 1, 0, o)
    else var e := BlockEnd(s, i, o); s[i..e] + Rewrite(s, e, k, o)
  }

  /** What the step at `i` writes. */
  function Written(s: string, i: nat, k: nat, o: Setting): string
    requires i < |s| && 1 <= o.skip <= 2
  {
    if Dropped(s, i, o) then "" else if s[i] == '?' then MarkerText(k + 1) else s[i..BlockEnd(s, i, o)]
  }

  /** How many markers have been numbered behind it. */
  function Numbered(s: string, i: nat, k: nat): nat
    requires i < |s|
  {
    if s[i] == '?' then k + 1 else if s[i] == ';' then 0 else k
  }

  lemma RewriteStep(s: string, i: nat, k: nat, o: Setting)
    requires i < |s| && 1 <= o.skip <= 2
    ensures Rewrite(s, i, k, o) == Written(s, i, k, o) + Rewrite(s, BlockEnd(s, i, o), Numbered(s, i, k), o)
  {
    if Dropped(s, i, o) { assert "" + Rewrite(s, i + 1, k, o) == Rewrite(s, i + 1, k, o); }
    if s[i] == ';' { assert s[i..i + 1] == ";"; }
  }

  lemma RewriteStarts(s: string, i: nat, k: nat, o: Setting)
    requires i < |s| && 1 <= o.skip <= 2 && s[i] != '?'
    ensures var r := Rewrite(s, i, k, o); r != "" && (r[0] == s[i] || (s[i] == '\r' && r[0] == '\n'))
  {
    if Dropped(s, i, o) {
      assert s[i + 1] == '\n' && Rewrite(s, i + 1, k, o)[0] == '\n';
    }
  }

  lemma {:induction false} DigitsDenote(n: nat)
    ensures Decimal(Digits(n)) == n
  {
    if n >= 10 {
      DigitsDenote(n / 10);
      assert Digits(n)[..|Digits(n)| - 1] == Digits(n / 10);
    }
  }
}
