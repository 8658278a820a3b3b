/** Search patterns of the catalog functions: info.c's adjustLikePattern turns an ODBC search pattern
    into the body of a LIKE literal. */
module LikePattern {
  import opened Basics
  import opened SqlLiteral
  import opened CharBuffer

  // ----- What patterns mean -----

  datatype Token = AnyRun | AnyOne | Lit(c: char)

  /** The ODBC reading: `\%` and `\_` are literal, every other backslash stands for itself. */
  function OdbcTokens(p: string): seq<Token>
    decreases |p|
  {
    if p == "" then []
    else if p[0] == '\\' && |p| > 1 && (p[1] == '%' || p[1] == '_') then [Lit(p[1])] + OdbcTokens(p[2..])
    else [Plain(p[0])] + OdbcTokens(p[1..])
  }

  function Plain(c: char): Token {
    if c == '%' then AnyRun else if c == '_' then AnyOne else Lit(c)
  }

  /** LIKE with the default escape character (section 9.7.1): a backslash makes the next character
      literal; at the end of the pattern it is an error. */
  function LikeTokens(p: string): Option<seq<Token>>
    decreases |p|
  {
    if p == "" then Some([])
    else if p[0] == '\\' then
      if |p| == 1 then None else Cons(Lit(p[1]), LikeTokens(p[2..]))
    else Cons(Plain(p[0]), LikeTokens(p[1..]))
  }

  function Cons(t: Token, r: Option<seq<Token>>): Option<seq<Token>> {
    match r
    case None => None
    case Some(ts) => Some([t] + ts)
  }

  predicate Matches(ts: seq<Token>, s: string)
    decreases |ts|, |s|
  {
    if ts == [] then s == ""
    else match ts[0]
      case AnyRun => Matches(ts[1..], s) || (s != "" && Matches(ts, s[1..]))
      case AnyOne => s != "" && Matches(ts[1..], s[1..])
      case Lit(c) => s != "" && s[0] == c && Matches(ts[1..], s[1..])
  }

  function OdbcMatch(p: string, s: string): bool {
    Matches(OdbcTokens(p), s)
  }

  /** The server's answer for `s LIKE <constant>`; None when it reports an error. */
  function LikeMatch(constant: string, s: string): Option<bool> {
    match ReadConstant(constant)
    case None => None
    case Some((value, rest)) =>
      if rest != "" then None
      else match LikeTokens(value)
        case None => None
        case Some(ts) => Some(Matches(ts, s))
  }

  // ----- The translation -----

  function Backslash(lexer: bool): string {
    if lexer then "\\\\" else "\\"
  }

  /** What one character of a pattern writes, `escapeIn` being set after a backslash;
      `lexer`: backslash escapes in literals. */
  function Unit(c: char, escapeIn: bool, lexer: bool): (r: string)
  {
    if NonAscii(c) then [c]
    else (if escapeIn && c != '%' && c != '_' then Backslash(lexer) else "") + EscapeChar(c, lexer)
  }

  /** As in the source, a non-ASCII character leaves the flag alone. */
  predicate NextEscape(c: char, escapeIn: bool) {
    if NonAscii(c) then escapeIn else c == '\\'
  }

  /** The body written for the rest of a pattern. */
  function Adjusted(p: string, escapeIn: bool, lexer: bool): string
    decreases |p|
  {
    if p == "" then if escapeIn then Backslash(lexer) else ""
    else Unit(p[0], escapeIn, lexer) + Adjusted(p[1..], NextEscape(p[0], escapeIn), lexer)
  }

  /** The step of the loop for one character. */
  method AdjustChar(dest: array<char>, n: nat, tchar: char, escapeIn: bool, lexer: bool) returns (m: nat)
    requires n + 4 <= dest.Length
    modifies dest
    ensures n < m <= n + (if NonAscii(tchar) then 1 else if escapeIn then 4 else 2)
    ensures dest[..m] == old(dest[..n]) + Unit(tchar, escapeIn, lexer)
  {
    m := n;
    ghost var before := dest[..n];
    if NonAscii(tchar) {
      m := Put(dest, m, tchar);
      return;
    }
    if escapeIn {
      match tchar {
        case '%' =>
        case '_' =>
        case _ =>
          if lexer { m := Put(dest, m, '\\'); }
          m := Put(dest, m, '\\');
      }
    }
    ghost var lead := if escapeIn && tchar != '%' && tchar != '_' then Backslash(lexer) else "";
    assert dest[..m] == before + lead;
    if tchar == '\\' {
      if lexer { m := Put(dest, m, '\\'); }
    } else if tchar == '\'' {
      m := Put(dest, m, tchar);
    }
    m := Put(dest, m, tchar);
    assert dest[..m] == before + (lead + EscapeChar(tchar, lexer));
  }

  method FinishPattern(dest: array<char>, n: nat, escapeIn: bool, lexer: bool) returns (m: nat)
    requires n + (if escapeIn then 2 else 0) < dest.Length
    modifies dest
    ensures n <= m < dest.Length && dest[m] == '\0'
    ensures dest[..m] == old(dest[..n]) + Adjusted("", escapeIn, lexer)
  {
    m := n;
    ghost var before := dest[..n];
    if escapeIn {
      if lexer { m := Put(dest, m, '\\'); }
      m := Put(dest, m, '\\');
    }
    assert dest[..m] == before + Adjusted("", escapeIn, lexer);
    dest[m] := '\0';
  }

  lemma AdjustedStep(src: string, i: nat, escapeIn: bool, lexer: bool)
    requires i < |src|
    ensures Adjusted(src[i..], escapeIn, lexer) ==
            Unit(src[i], escapeIn, lexer) + Adjusted(src[i + 1..], NextEscape(src[i], escapeIn), lexer)
  {
    assert src[i..][0] == src[i] && src[i..][1..] == src[i + 1..];
  }

  /** The result and its terminator fit the 4n + 1 bytes allocated for a pattern of length n. */
  method AdjustLikePattern(src: string, lexer: bool) returns (dest: array<char>, outlen: nat)
    ensures fresh(dest) && dest.Length == 4 * |src| + 1 && outlen < dest.Length
    ensures dest[..outlen] == Adjusted(src, false, lexer) && dest[outlen] == '\0'
  {
    dest := new char[4 * |src| + 1];
    outlen := 0;
    var escapeIn := false;
    var i := 0;
    while i < |src|
      invariant 0 <= i <= |src|
      invariant outlen <= 4 * i - (if escapeIn then 2 else 0)
      invariant dest[..outlen] + Adjusted(src[i..], escapeIn, lexer) == Adjusted(src, false, lexer)
    {
      var tchar := src[i];
      ghost var done, unit := dest[..outlen], Unit(tchar, escapeIn, lexer);
      AdjustedStep(src, i, escapeIn, lexer);
      outlen := AdjustChar(dest, outlen, tchar, escapeIn, lexer);
      if !NonAscii(tchar) { escapeIn := tchar == '\\'; }
      Assoc(done, unit, Adjusted(src[i + 1..], escapeIn, lexer));
      i := i + 1;
    }
    assert src[i..] == "";
    outlen := FinishPattern(dest, outlen, escapeIn, lexer);
  }
}
