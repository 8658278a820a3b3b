/** statement.c's SC_scanQueryAndCountParams: the number of parameter markers, the end of the first command
    and whether another one follows. */
module Counter {
  import opened Basics
  import opened ScanSpec
  import opened ScanMachine
  import opened ScanCount

  /** The local variables that say where the scan is. */
  datatype Flags = Flags(
    inIdent: bool, inDollar: bool, inLiteral: bool, inEscape: bool, inDquote: bool, inLine: bool,
    commentLevel: nat, escape: char, tag: nat, taglen: nat)

  ghost function LexOf(f: Flags): Lex {
    if f.inIdent then Ident
    else if f.inDollar then Dollar(f.tag, f.taglen)
    else if f.inLiteral then (if f.inEscape then Escaped else Literal(f.escape == '\\'))
    else if f.inDquote then DQuote
    else if f.inLine then Line
    else if f.commentLevel > 0 then Comment(f.commentLevel)
    else Idle
  }

  ghost predicate Sound(s: string, f: Flags) {
    && Proper(s, LexOf(f))
    && (f.inIdent ==> !f.inDollar && !f.inLiteral && !f.inDquote && !f.inLine && f.commentLevel == 0)
    && (f.inDollar ==> !f.inLiteral && !f.inDquote && !f.inLine && f.commentLevel == 0)
    && (f.inLiteral ==> !f.inDquote && !f.inLine && f.commentLevel == 0)
    && (f.inDquote ==> !f.inLine && f.commentLevel == 0)
    && (f.inLine ==> f.commentLevel == 0)
    && (f.inEscape ==> f.inLiteral && f.escape == '\\')
    && (f.escape == '\\' || f.escape == '\0')
  }

  /** Inside a block; `j` is the next position. */
  method StepInside(s: string, i: nat, f: Flags) returns (f1: Flags, j: nat)
    requires i < |s| && s[i] != '\0' && !NonAscii(s[i]) && Sound(s, f) && LexOf(f) != Idle && LexOf(f) != Ident
    ensures Sound(s, f1) && (LexOf(f1), j) == Inside(s, i, LexOf(f))
  {
    var c := s[i];
    f1, j := f, i + 1;
    if f.inDollar {
      if c == '$' && TagAt(s, f.tag, f.taglen, i) {
        f1 := f.(inDollar := false);
        j := i + f.taglen;
      }
    } else if f.inLiteral {
      if f.inEscape {
        f1 := f.(inEscape := false);
      } else if c == f.escape {
        f1 := f.(inEscape := true);
      } else if c == '\'' {
        f1 := f.(inLiteral := false);
      }
    } else if f.inDquote {
      if c == '"' { f1 := f.(inDquote := false); }
    } else if f.inLine {
      if c == '\n' { f1 := f.(inLine := false); }
    } else {
      if c == '/' && At(s, i + 1) == '*' {
        f1 := f.(commentLevel := f.commentLevel + 1);
        j := i + 2;
      } else if c == '*' && At(s, i + 1) == '/' {
        f1 := f.(commentLevel := f.commentLevel - 1);
        j := i + 2;
      }
    }
  }

  /** Outside all blocks. */
  method StepOpen(s: string, i: nat, f: Flags, o: Setting) returns (f1: Flags, j: nat)
    requires i < |s| && Sound(s, f) && LexOf(f) == Idle && o.skip == 2
    ensures Sound(s, f1) && i < j <= |s| && End(s, j, LexOf(f1)) == BlockEnd(s, i, o)
    ensures j == i + 1 || NotSpace(s[i])
    ensures StartsIdent(s[i]) ==> LexOf(f1) == Ident && j == i + 1
    ensures s[i] == '{' || (!StartsIdent(s[i]) && !NotSpace(s[i])) ==> LexOf(f1) == Idle && j == i + 1
  {
    OpenReachesEnd(s, i, o);
    var c := s[i];
    f1, j := f, i + 1;
    if StartsIdent(c) {
      f1 := f.(inIdent := true);
    } else if c == '$' {
      var n := TagLength(s, i);
      if n > 0 {
        f1 := f.(inDollar := true, tag := i, taglen := n);
        j := i + n;
      }
    } else if c == '\'' {
      var escape := if o.escape then '\\' else '\0';
      if escape == '\0' && (if i == 0 then o.before else s[i - 1]) == 'E' { escape := '\\'; }
      f1 := f.(inLiteral := true, escape := escape);
    } else if c == '"' {
      f1 := f.(inDquote := true);
    } else if c == '-' && At(s, i + 1) == '-' {
      f1 := f.(inLine := true);
      j := i + 2;
    } else if c == '/' && At(s, i + 1) == '*' {
      f1 := f.(commentLevel := f.commentLevel + 1);
      j := i + 2;
    }
  }

  // ----- The loop -----

  /** The markers counted, whether a semicolon was seen, and whether anything followed it. */
  datatype Seen = Seen(n: nat, del: bool, multi: bool)

  /** What has been found when the scan stands at `i`. With `first` only the first command is of interest. */
  ghost predicate Found(s: string, start: nat, i: nat, lex: Lex, o: Setting, first: bool, seen: Seen) {
    && start <= i <= |s| && o.skip == 2 && Proper(s, lex)
    && (if seen.del then
          FirstSemi(s, start, o) < i && seen.multi == NotSpaceIn(s, FirstSemi(s, start, o) + 1, i)
        else !seen.multi && FirstSemi(s, End(s, i, lex), o) == FirstSemi(s, start, o))
    && (if !first then seen.n + Markers(s, End(s, i, lex), o) == Markers(s, start, o)
        else seen.n + (if seen.del then 0 else MarkersBefore(s, End(s, i, lex), o)) == MarkersBefore(s, start, o))
  }

  /** What taking the character at `i` adds. */
  function SeenAfter(s: string, i: nat, outside: bool, seen: Seen): Seen
    requires i < |s|
  {
    Seen(seen.n + (if outside && s[i] == '?' then 1 else 0), seen.del || (outside && s[i] == ';'),
         seen.multi || (seen.del && NotSpace(s[i])))
  }

  lemma SeenUpTo(s: string, a: nat, i: nat, j: nat)
    requires a <= i < j <= |s| && (j == i + 1 || NotSpace(s[i]))
    ensures NotSpaceIn(s, a, j) == (NotSpaceIn(s, a, i) || NotSpace(s[i]))
  {
  }

  /** Taking a character inside a block. */
  lemma InsideFound(s: string, start: nat, i: nat, lex: Lex, j: nat, lex1: Lex, o: Setting, first: bool, seen: Seen)
    requires Found(s, start, i, lex, o, first, seen) && i < j <= |s| && (j == i + 1 || NotSpace(s[i]))
    requires Proper(s, lex1) && End(s, j, lex1) == End(s, i, lex)
    ensures Found(s, start, j, lex1, o, first, SeenAfter(s, i, false, seen))
  {
    if seen.del { SeenUpTo(s, FirstSemi(s, start, o) + 1, i, j); }
  }

  /** Taking a block's first character. */
  lemma OutsideFound(s: string, start: nat, i: nat, j: nat, lex1: Lex, o: Setting, first: bool, seen: Seen)
    requires Found(s, start, i, Idle, o, first, seen) && i < j <= |s| && (j == i + 1 || NotSpace(s[i]))
    requires Proper(s, lex1) && End(s, j, lex1) == BlockEnd(s, i, o)
    requires first && seen.del ==> !NotSpace(s[i])
    ensures Found(s, start, j, lex1, o, first, SeenAfter(s, i, true, seen))
  {
    MarkersStep(s, i, o);
    CommandStep(s, i, o);
    if seen.del {
      SeenUpTo(s, FirstSemi(s, start, o) + 1, i, j);
    } else if s[i] == ';' {
      assert j == i + 1 && !NotSpaceIn(s, i + 1, j);
    }
  }

  lemma CommandStep(s: string, i: nat, o: Setting)
    requires i < |s| && 1 <= o.skip <= 2
    ensures s[i] == ';' ==> FirstSemi(s, i, o) == i && MarkersBefore(s, i, o) == 0 && BlockEnd(s, i, o) == i + 1
    ensures s[i] != ';' ==>
              && FirstSemi(s, i, o) == FirstSemi(s, BlockEnd(s, i, o), o)
              && MarkersBefore(s, i, o) == (if s[i] == '?' then 1 else 0) + MarkersBefore(s, BlockEnd(s, i, o), o)
  {
  }

  lemma TurnFound(
    s: string, start: nat, i: nat, lex: Lex, j: nat, lex1: Lex, outside: bool, o: Setting, first: bool, seen: Seen)
    requires Found(s, start, i, lex, o, first, seen) && i < j <= |s| && (j == i + 1 || NotSpace(s[i]))
    requires Proper(s, lex1) && (first && seen.del ==> !NotSpace(s[i]))
    requires if outside then End(s, i, lex) == i && End(s, j, lex1) == BlockEnd(s, i, o)
             else End(s, j, lex1) == End(s, i, lex)
    ensures Found(s, start, j, lex1, o, first, SeenAfter(s, i, outside, seen))
    ensures outside && s[i] == ';' && !seen.del ==> FirstSemi(s, start, o) == i
  {
    if outside {
      OutsideFound(s, start, i, j, lex1, o, first, seen);
    } else {
      InsideFound(s, start, i, lex, j, lex1, o, first, seen);
    }
  }

  lemma FoundAtEnd(s: string, start: nat, lex: Lex, o: Setting, first: bool, seen: Seen)
    requires Found(s, start, |s|, lex, o, first, seen)
    ensures seen.n == (if first then MarkersBefore(s, start, o) else Markers(s, start, o))
    ensures seen.multi == NotSpaceIn(s, FirstSemi(s, start, o) + 1, |s|) && seen.del == (FirstSemi(s, start, o) < |s|)
  {
    assert End(s, |s|, lex) == |s| && Outside(s, |s|, o) == [];
  }

  // ----- The marker of a return value -----

  /** Is an opening brace the last thing noted behind the block at `i`, given whether it was before? Blanks and
      identifiers of one ASCII character are not noted. */
  predicate BraceAfter(s: string, i: nat, o: Setting, brace: bool)
    requires i < |s| && 1 <= o.skip <= 2
  {
    if s[i] == '{' then true
    else if StartsIdent(s[i]) then brace && !NonAscii(s[i]) && BlockEnd(s, i, o) == i + 1
    else brace && !NotSpace(s[i])
  }

  /** From `i` on, `n` markers having been counted: is there a marker behind such a brace while the 16-bit count is
      zero? */
  predicate Braced(s: string, i: nat, o: Setting, brace: bool, n: nat, first: bool)
    requires i <= |s| && 1 <= o.skip <= 2
    decreases |s| - i
  {
    if i == |s| || (first && s[i] == ';') then false
    else if s[i] == '?' then (brace && Int2(n) == 0) || Braced(s, i + 1, o, false, n + 1, first)
    else Braced(s, BlockEnd(s, i, o), o, BraceAfter(s, i, o, brace), n, first)
  }

  /** What will be noted at the end of the block the scan is in. */
  ghost predicate BraceAtEnd(s: string, i: nat, lex: Lex, bchar: char)
    requires i <= |s| && Proper(s, lex)
  {
    bchar == '{' && (lex == Idle || (lex == Ident && End(s, i, lex) == i))
  }

  /** The flag found so far and what is still to come make up the whole. */
  ghost predicate FoundReturn(s: string, start: nat, i: nat, lex: Lex, o: Setting, first: bool, seen: Seen,
                              bchar: char, proc: bool)
  {
    && start <= i <= |s| && o.skip == 2 && Proper(s, lex) && (bchar == '{' ==> lex == Idle || lex == Ident)
    && Braced(s, start, o, false, 0, first) ==
       (proc || (!(first && seen.del) && Braced(s, End(s, i, lex), o, BraceAtEnd(s, i, lex, bchar), seen.n, first)))
  }

  lemma TurnFoundReturn(s: string, start: nat, i: nat, lex: Lex, j: nat, lex1: Lex, outside: bool, o: Setting,
                        first: bool, seen: Seen, bchar: char, bchar1: char, proc: bool)
    requires FoundReturn(s, start, i, lex, o, first, seen, bchar, proc) && i < j <= |s| && Proper(s, lex1)
    requires first && seen.del ==> !NotSpace(s[i])
    requires if outside then End(s, i, lex) == i && End(s, j, lex1) == BlockEnd(s, i, o)
             else End(s, j, lex1) == End(s, i, lex)
    requires bchar1 == '{' ==> lex1 == Idle || lex1 == Ident
    requires BraceAtEnd(s, j, lex1, bchar1) ==
             if outside then BraceAfter(s, i, o, bchar == '{') else BraceAtEnd(s, i, lex, bchar)
    requires outside ==> lex == Idle || lex == Ident
    ensures FoundReturn(s, start, j, lex1, o, first, SeenAfter(s, i, outside, seen), bchar1,
                        proc || (outside && s[i] == '?' && Int2(seen.n) == 0 && bchar == '{'))
  {
  }

  /** `num_p++` on a 16-bit counter. */
  function Incremented(p: int): int {
    if p == 0x7fff then -0x8000 else p + 1
  }

  lemma IncrementedIs(n: nat)
    ensures Incremented(Int2(n)) == Int2(n + 1)
  {
  }

  /** Both together, with the 16-bit count and the position that is reported. */
  ghost predicate Scanned(s: string, start: nat, i: nat, lex: Lex, o: Setting, first: bool, seen: Seen, bchar: char,
                          proc: bool, numP: int, nextCmd: int)
  {
    && Found(s, start, i, lex, o, first, seen) && FoundReturn(s, start, i, lex, o, first, seen, bchar, proc)
    && numP == Int2(seen.n) && (first ==> !seen.multi)
    && nextCmd == (if first && seen.del then FirstSemi(s, start, o) - start else -1)
  }

  /** What the scan should report. */
  ghost predicate Reports(s: string, start: nat, o: Setting, first: bool, numP: int, multi: bool, nextCmd: int,
                          proc: bool)
    requires start <= |s| && o.skip == 2
  {
    var semi := FirstSemi(s, start, o);
    && numP == Int2(if first then MarkersBefore(s, start, o) else Markers(s, start, o))
    && multi == NotSpaceIn(s, semi + 1, |s|)
    && nextCmd == (if first && semi < |s| then semi - start else -1)
    && proc == Braced(s, start, o, false, 0, first)
  }

  lemma TurnScanned(s: string, start: nat, i: nat, lex: Lex, j: nat, lex1: Lex, outside: bool, o: Setting, first: bool,
                    seen: Seen, bchar: char, bchar1: char, proc: bool, numP: int, nextCmd: int)
    requires Scanned(s, start, i, lex, o, first, seen, bchar, proc, numP, nextCmd) && i < j <= |s| && Proper(s, lex1)
    requires (first && seen.del ==> !NotSpace(s[i])) && (j == i + 1 || NotSpace(s[i]))
    requires if outside then End(s, i, lex) == i && End(s, j, lex1) == BlockEnd(s, i, o)
             else End(s, j, lex1) == End(s, i, lex)
    requires (bchar1 == '{' ==> lex1 == Idle || lex1 == Ident) && (outside ==> lex == Idle || lex == Ident)
    requires BraceAtEnd(s, j, lex1, bchar1) ==
             if outside then BraceAfter(s, i, o, bchar == '{') else BraceAtEnd(s, i, lex, bchar)
    ensures var marker, semi := outside && s[i] == '?', outside && s[i] == ';';
            Scanned(s, start, j, lex1, o, first, SeenAfter(s, i, outside, seen), bchar1,
                    proc || (marker && numP == 0 && bchar == '{'),
                    if marker then Incremented(numP) else numP, if semi && first then i - start else nextCmd)
  {
    TurnFound(s, start, i, lex, j, lex1, outside, o, first, seen);
    TurnFoundReturn(s, start, i, lex, j, lex1, outside, o, first, seen, bchar, bchar1, proc);
    IncrementedIs(seen.n);
  }

  lemma ScannedAtEnd(s: string, start: nat, lex: Lex, o: Setting, first: bool, seen: Seen, bchar: char, proc: bool,
                     numP: int, nextCmd: int)
    requires Scanned(s, start, |s|, lex, o, first, seen, bchar, proc, numP, nextCmd)
    ensures Reports(s, start, o, first, numP, seen.multi, nextCmd, proc)
  {
    FoundAtEnd(s, start, lex, o, first, seen);
  }

  /** The scan for the first command ends where the second one begins. */
  lemma ScannedAtSecond(s: string, start: nat, i: nat, lex: Lex, o: Setting, seen: Seen, bchar: char, proc: bool,
                        numP: int, nextCmd: int)
    requires Scanned(s, start, i, lex, o, true, seen, bchar, proc, numP, nextCmd)
    requires seen.del && i < |s| && NotSpace(s[i])
    ensures Reports(s, start, o, true, numP, true, nextCmd, proc)
  {
  }

  /** One turn behind the check for a further command. */
  method Turn(s: string, i: nat, f: Flags, o: Setting, bchar: char)
    returns (f1: Flags, j: nat, outside: bool, bchar1: char)
    requires i < |s| && s[i] != '\0' && Sound(s, f) && o.skip == 2
    requires bchar == '{' ==> LexOf(f) == Idle || LexOf(f) == Ident
    ensures Sound(s, f1) && i < j <= |s| && (j == i + 1 || NotSpace(s[i]))
    ensures if outside then End(s, i, LexOf(f)) == i && End(s, j, LexOf(f1)) == BlockEnd(s, i, o)
            else End(s, j, LexOf(f1)) == End(s, i, LexOf(f))
    ensures if outside then LexOf(f) == Idle || LexOf(f) == Ident else LexOf(f) != Idle
    ensures bchar1 == '{' ==> LexOf(f1) == Idle || LexOf(f1) == Ident
    ensures BraceAtEnd(s, j, LexOf(f1), bchar1) ==
            if outside then BraceAfter(s, i, o, bchar == '{') else BraceAtEnd(s, i, LexOf(f), bchar)
  {
    if LexOf(f) != Idle { InsideKeepsEnd(s, i, LexOf(f)); }
    if NonAscii(s[i]) {
      bchar1 := s[i];
      outside := !(f.inDquote || f.inLiteral || f.inDollar || f.inEscape || f.inLine || f.commentLevel > 0);
      f1, j := if outside then f.(inIdent := true) else f, i + 1;
      if f.inIdent { outside := false; }
      return;
    }
    var g := f;
    if f.inIdent {
      if IsIdentChar(s[i]) { return f, i + 1, false, s[i]; }
      g := f.(inIdent := false);
    }
    bchar1 := bchar;
    if g.inDollar || g.inLiteral || g.inDquote || g.inLine || g.commentLevel > 0 {
      f1, j := StepInside(s, i, g);
      outside := false;
    } else {
      f1, j := StepOpen(s, i, g, o);
      outside := true;
      if !StartsIdent(s[i]) {
        var tchar := if (s[i] == '-' && At(s, i + 1) == '-') || (s[i] == '/' && At(s, i + 1) == '*') then s[i + 1]
                     else s[i];
        if NotSpace(tchar) { bchar1 := tchar; }
      }
    }
  }

  /** The local variables of the scan. */
  datatype Scan = Scan(i: nat, f: Flags, del: bool, multi: bool, bchar: char, numP: int, nextCmd: int, proc: bool)

  ghost predicate InScan(s: string, start: nat, v: Scan, n: nat, o: Setting, first: bool) {
    Sound(s, v.f) &&
    Scanned(s, start, v.i, LexOf(v.f), o, first, Seen(n, v.del, v.multi), v.bchar, v.proc, v.numP, v.nextCmd)
  }

  /** One turn of the loop, unless it ends the scan. */
  method Advance(s: string, start: nat, v: Scan, o: Setting, first: bool, ghost n: nat)
    returns (v1: Scan, ghost n1: nat)
    requires InScan(s, start, v, n, o, first) && v.i < |s| && s[v.i] != '\0'
    requires first && v.del ==> !NotSpace(s[v.i])
    ensures InScan(s, start, v1, n1, o, first) && v.i < v1.i <= |s|
  {
    var f1, j, outside, bchar1 := Turn(s, v.i, v.f, o, v.bchar);
    ghost var seen := Seen(n, v.del, v.multi);
    TurnScanned(s, start, v.i, LexOf(v.f), j, LexOf(f1), outside, o, first, seen, v.bchar, bchar1, v.proc, v.numP,
                v.nextCmd);
    n1 := SeenAfter(s, v.i, outside, seen).n;
    var marker, semi := outside && s[v.i] == '?', outside && s[v.i] == ';';
    v1 := Scan(j, f1, v.del || semi, v.multi || (v.del && NotSpace(s[v.i])), bchar1,
               if marker then Incremented(v.numP) else v.numP,
               if semi && first then v.i - start else v.nextCmd,
               v.proc || (marker && v.numP == 0 && v.bchar == '{'));
  }

  /** SC_scanQueryAndCountParams on the text from `start` on, which the caller has advanced to; `first` stands for
      a next_cmd argument, which ends the scan at the second command. */
  method ScanQueryAndCountParams(query: string, start: nat, escape: bool, before: char, first: bool)
    returns (numP: int, multi: bool, nextCmd: int, procReturn: bool)
    requires '\0' !in query && start <= |query|
    ensures Reports(query, start, Setting(escape, false, before, 2), first, numP, multi, nextCmd, procReturn)
  {
    var o := Setting(escape, false, before, 2);
    var f := Flags(false, false, false, false, false, false, 0, '\0', 0, 0);
    var v := Scan(start, f, false, false, '\0', 0, -1, false);
    ghost var n := 0;
    while v.i < |query|
      invariant InScan(query, start, v, n, o, first) && v.i <= |query|
      decreases |query| - v.i
    {
      if first && !v.multi && v.del && NotSpace(query[v.i]) {
        ScannedAtSecond(query, start, v.i, LexOf(v.f), o, Seen(n, v.del, v.multi), v.bchar, v.proc, v.numP, v.nextCmd);
        return v.numP, true, v.nextCmd, v.proc;
      }
      v, n := Advance(query, start, v, o, first, n);
    }
    ScannedAtEnd(query, start, LexOf(v.f), o, first, Seen(n, v.del, v.multi), v.bchar, v.proc, v.numP, v.nextCmd);
    return v.numP, v.multi, v.nextCmd, v.proc;
  }
}
