/** The scanner as a state machine over single characters, and its agreement with the block structure. */
module ScanMachine {
  import opened Basics
  import opened ScanSpec

  datatype Lex =
    | Idle
    | Ident
    | DQuote
    | Literal(escapes: bool)
    | Escaped  // after a backslash in a literal that has escapes
    | Dollar(tag: nat, len: nat)
    | Comment(level: nat)
    | Line

  predicate Proper(s: string, lex: Lex) {
    && (lex.Dollar? ==> lex.tag + lex.len <= |s| && 2 <= lex.len)
    && (lex.Comment? ==> lex.level > 0)
  }

  /** End of the block the machine is in. */
  function End(s: string, i: nat, lex: Lex): (e: nat)
    requires i <= |s| && Proper(s, lex)
    ensures i <= e <= |s|
  {
    match lex
    case Idle => i
    case Ident => IdentEnd(s, i)
    case DQuote => QuotedEnd(s, i)
    case Literal(escapes) => LiteralEnd(s, i, escapes)
    case Escaped => LiteralEnd(s, EscapeEnd(s, i), true)
    case Dollar(tag, len) => DollarEnd(s, tag, len, i)
    case Comment(level) => CommentEnd(s, i, level)
    case Line => LineEnd(s, i)
  }

  /** One step inside a block: the next state and the next position. */
  function Inside(s: string, i: nat, lex: Lex): (Lex, nat)
    requires i < |s|
  {
    var c := s[i];
    if NonAscii(c) then (lex, i + 1)
    else match lex
      case Idle => (lex, i)
      case Ident => if IsIdentChar(c) then (lex, i + 1) else (Idle, i)
      case DQuote => (if c == '"' then Idle else lex, i + 1)
      case Literal(escapes) =>
        (if c == '\'' then Idle else if escapes && c == '\\' then Escaped else lex, i + 1)
      case Escaped => (Literal(true), i + 1)
      case Dollar(tag, len) =>
        if tag + len <= |s| && c == '$' && TagAt(s, tag, len, i) then (Idle, i + len) else (lex, i + 1)
      case Comment(level) =>
        if c == '/' && At(s, i + 1) == '*' then (Comment(level + 1), i + 2)
        else if c == '*' && At(s, i + 1) == '/' then (if level <= 1 then Idle else Comment(level - 1), i + 2)
        else (lex, i + 1)
      case Line => (if c == '\n' then Idle else lex, i + 1)
  }

  /** A step inside a block does not change where the block ends. */
  lemma InsideKeepsEnd(s: string, i: nat, lex: Lex)
    requires i < |s| && Proper(s, lex) && lex != Idle
    ensures var (lex1, j) := Inside(s, i, lex);
            i <= j <= |s| && Proper(s, lex1) && End(s, j, lex1) == End(s, i, lex)
  {
    match lex
    case Ident =>
    case DQuote =>
    case Literal(escapes) =>
    case Escaped =>
    case Dollar(tag, len) =>
    case Comment(level) =>
    case Line =>
  }

  /** Opening a block outside all others. */
  function Open(s: string, i: nat, o: Setting): (Lex, nat)
    requires i < |s|
  {
    var c := s[i];
    if c == '$' then
      var n := TagLength(s, i);
      if n > 0 then (Dollar(i, n), i + n) else (Idle, i + 1)
    else if c == '\'' then (Literal(LiteralEscapes(s, i, o.escape, o.before)), i + 1)
    else if c == '"' then (DQuote, i + 1)
    else if c == '/' && At(s, i + 1) == '*' then (Comment(1), i + o.skip)
    else if c == '-' && At(s, i + 1) == '-' then (Line, i + 1)
    else if StartsIdent(c) then (Ident, i + 1)
    else (Idle, i + 1)
  }

  lemma OpenReachesEnd(s: string, i: nat, o: Setting)
    requires i < |s| && 1 <= o.skip <= 2
    ensures var (lex, j) := Open(s, i, o);
            i < j <= |s| && Proper(s, lex) && End(s, j, lex) == BlockEnd(s, i, o)
  {
  }

  // ----- What is still to be written -----

  function Rest(s: string, i: nat, k: nat, o: Setting, lex: Lex): string
    requires i <= |s| && 1 <= o.skip <= 2 && Proper(s, lex)
  {
    var e := End(s, i, lex);
    s[i..e] + Rewrite(s, e, k, o)
  }

  lemma RestSplits(s: string, i: nat, j: nat, k: nat, o: Setting, lex: Lex, lex1: Lex)
    requires i <= j <= |s| && 1 <= o.skip <= 2 && Proper(s, lex) && Proper(s, lex1) && End(s, j, lex1) == End(s, i, lex)
    ensures Rest(s, i, k, o, lex) == s[i..j] + Rest(s, j, k, o, lex1)
  {
    SliceSplits(s, i, j, End(s, i, lex), Rewrite(s, End(s, i, lex), k, o));
  }

  lemma RestIdle(s: string, i: nat, k: nat, o: Setting)
    requires i <= |s| && 1 <= o.skip <= 2
    ensures Rest(s, i, k, o, Idle) == Rewrite(s, i, k, o)
  {
    assert s[i..i] == "";
  }

  /** Inside a block the text is copied. */
  lemma InsideCopies(s: string, i: nat, k: nat, o: Setting, lex: Lex)
    requires i < |s| && 1 <= o.skip <= 2 && Proper(s, lex) && lex != Idle
    ensures var (lex1, j) := Inside(s, i, lex);
            && i <= j <= |s| && Proper(s, lex1)
            && Rest(s, i, k, o, lex) == s[i..j] + Rest(s, j, k, o, lex1)
  {
    InsideKeepsEnd(s, i, lex);
    var (lex1, j) := Inside(s, i, lex);
    RestSplits(s, i, j, k, o, lex, lex1);
  }

  /** Outside all blocks: a carriage return may be dropped, a marker is numbered, a semicolon restarts the
      numbering. */
  lemma IdleSpecial(s: string, i: nat, k: nat, o: Setting)
    requires i < |s| && 1 <= o.skip <= 2
    ensures Dropped(s, i, o) ==> Rest(s, i, k, o, Idle) == Rest(s, i + 1, k, o, Idle)
    ensures !Dropped(s, i, o) && s[i] == '?' ==>
              Rest(s, i, k, o, Idle) == MarkerText(k + 1) + Rest(s, i + 1, k + 1, o, Idle)
    ensures !Dropped(s, i, o) && s[i] == ';' ==> Rest(s, i, k, o, Idle) == ";" + Rest(s, i + 1, 0, o, Idle)
  {
    RestIdle(s, i, k, o);
    RestIdle(s, i + 1, k, o);
    RestIdle(s, i + 1, k + 1, o);
    RestIdle(s, i + 1, 0, o);
  }

  /** Any other character opens its block. */
  lemma IdleOpens(s: string, i: nat, k: nat, o: Setting)
    requires i < |s| && 1 <= o.skip <= 2 && !Dropped(s, i, o) && s[i] != '?' && s[i] != ';'
    ensures var (lex, j) := Open(s, i, o);
            && i < j <= |s| && Proper(s, lex)
            && Rest(s, i, k, o, Idle) == s[i..j] + Rest(s, j, k, o, lex)
  {
    RestIdle(s, i, k, o);
    OpenReachesEnd(s, i, o);
    var (lex, j) := Open(s, i, o);
    SliceSplits(s, i, j, BlockEnd(s, i, o), Rewrite(s, BlockEnd(s, i, o), k, o));
  }

  lemma SliceSplits(s: string, i: nat, j: nat, e: nat, tail: string)
    requires i <= j <= e <= |s|
    ensures s[i..e] + tail == s[i..j] + (s[j..e] + tail)
  {
    assert s[i..e] == s[i..j] + s[j..e];
  }

  // ----- The whole machine -----

  /** Position, number of markers since the last semicolon, and state. */
  datatype Machine = Machine(pos: nat, k: nat, lex: Lex)

  function NextIdle(s: string, i: nat, k: nat, o: Setting): (string, Machine)
    requires i < |s| && 1 <= o.skip <= 2
  {
    if Dropped(s, i, o) then ("", Machine(i + 1, k, Idle))
    else if s[i] == '?' then (MarkerText(k + 1), Machine(i + 1, k + 1, Idle))
    else if s[i] == ';' then (";", Machine(i + 1, 0, Idle))
    else
      OpenReachesEnd(s, i, o);
      var (lex, j) := Open(s, i, o); (s[i..j], Machine(j, k, lex))
  }

  /** One step: the text written and the machine afterwards. An identifier ends before the character that
      ends it, which is then taken outside. */
  function Next(s: string, m: Machine, o: Setting): (string, Machine)
    requires m.pos < |s| && 1 <= o.skip <= 2 && Proper(s, m.lex)
  {
    if m.lex == Idle then NextIdle(s, m.pos, m.k, o)
    else
      InsideKeepsEnd(s, m.pos, m.lex);
      var (lex, j) := Inside(s, m.pos, m.lex);
      if j == m.pos then NextIdle(s, m.pos, m.k, o) else (s[m.pos..j], Machine(j, m.k, lex))
  }

  function Todo(s: string, m: Machine, o: Setting): string
    requires m.pos <= |s| && 1 <= o.skip <= 2 && Proper(s, m.lex)
  {
    Rest(s, m.pos, m.k, o, m.lex)
  }

  lemma NextIdleWrites(s: string, i: nat, k: nat, o: Setting)
    requires i < |s| && 1 <= o.skip <= 2
    ensures var (piece, m1) := NextIdle(s, i, k, o);
            && i < m1.pos <= |s| && Proper(s, m1.lex)
            && Rest(s, i, k, o, Idle) == piece + Todo(s, m1, o)
  {
    IdleSpecial(s, i, k, o);
    if Dropped(s, i, o) {
      assert "" + Rest(s, i + 1, k, o, Idle) == Rest(s, i + 1, k, o, Idle);
    } else if s[i] != '?' && s[i] != ';' {
      IdleOpens(s, i, k, o);
    }
  }

  /** Every step writes the next piece of what is still to be written. */
  lemma NextWrites(s: string, m: Machine, o: Setting)
    requires m.pos < |s| && 1 <= o.skip <= 2 && Proper(s, m.lex)
    ensures var (piece, m1) := Next(s, m, o);
            && m.pos < m1.pos <= |s| && Proper(s, m1.lex)
            && Todo(s, m, o) == piece + Todo(s, m1, o)
  {
    NextIdleWrites(s, m.pos, m.k, o);
    if m.lex != Idle {
      InsideCopies(s, m.pos, m.k, o, m.lex);
      var (lex, j) := Inside(s, m.pos, m.lex);
      if j == m.pos { assert s[j..j] + Rest(s, j, m.k, o, Idle) == Rest(s, j, m.k, o, Idle); }
    }
  }

  lemma TodoAtEnd(s: string, k: nat, lex: Lex, o: Setting)
    requires 1 <= o.skip <= 2 && Proper(s, lex)
    ensures Todo(s, Machine(|s|, k, lex), o) == ""
  {
  }
}
