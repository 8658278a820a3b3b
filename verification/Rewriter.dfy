/** convert.c's inner_process_tokens in prepare mode, one character at a time over flags and counters, as
    driven by the loop of prepareParametersNoDesc; it writes what ScanSpec.Rewrite describes. */
module Rewriter {
  import opened Basics
  import opened ScanSpec
  import opened ScanMachine
  import opened CharBuffer
  import QueryBuffer

  datatype Flag = IDENT_KEYWORD | DQUOTE_IDENTIFIER | LITERAL | ESCAPE | DOLLAR_QUOTE | COMMENT_BLOCK | LINE_COMMENT

  function Lower(c: char): char {
    if 'A' <= c <= 'Z' then c - 'A' + 'a' else c
  }

  /** Does "@@identity" stand at `p`, in any case? */
  predicate IdentityAt(s: string, p: nat) {
    p + 10 <= |s| && forall j :: 0 <= j < 10 ==> Lower(s[p + j]) == "@@identity"[j]
  }

  /** The statements in scope: outside all blocks there is no brace and no @@identity. */
  predicate Supported(s: string, o: Setting)
    requires 1 <= o.skip <= 2
  {
    && '\0' !in s
    && forall j :: 0 <= j < |Outside(s, 0, o)| ==>
         var p := Outside(s, 0, o)[j]; s[p] != '{' && s[p] != '}' && !IdentityAt(s, p)
  }

  /** The flags and counters in use, as one state. */
  ghost function StateOf(inStatus: set<Flag>, escapeInLiteral: char, dollarTag: nat, taglen: nat, level: nat): Lex {
    if inStatus == {} then Idle
    else if inStatus == {IDENT_KEYWORD} then Ident
    else if inStatus == {DQUOTE_IDENTIFIER} then DQuote
    else if inStatus == {LITERAL} then Literal(escapeInLiteral == '\\')
    else if inStatus == {LITERAL, ESCAPE} then Escaped
    else if inStatus == {DOLLAR_QUOTE} then Dollar(dollarTag, taglen)
    else if inStatus == {COMMENT_BLOCK} then Comment(level)
    else Line
  }

  class QueryParse {
    const statement: string
    const setting: Setting
    var opos: nat
    var inStatus: set<Flag>
    var escapeInLiteral: char
    var dollarTag: nat
    var taglen: nat
    var commentLevel: nat
    var dollarNumber: nat

    ghost function View(): Lex
      reads this
    {
      StateOf(inStatus, escapeInLiteral, dollarTag, taglen, commentLevel)
    }

    ghost predicate Valid()
      reads this
    {
      && '\0' !in statement && setting.skip == 1 && Proper(statement, View())
      && (View() == Line ==> inStatus == {LINE_COMMENT})
      && (commentLevel > 0 <==> COMMENT_BLOCK in inStatus)
      && (escapeInLiteral == '\\' || escapeInLiteral == '\0')
      && (ESCAPE in inStatus ==> escapeInLiteral == '\\')
    }

    constructor (statement: string, escape: bool, lf: bool, before: char)
      requires '\0' !in statement
      ensures Valid() && opos == 0 && this.statement == statement && setting == Setting(escape, lf, before, 1)
      ensures View() == Idle && dollarNumber == 0
    {
      this.statement := statement;
      setting := Setting(escape, lf, before, 1);
      opos, inStatus, escapeInLiteral, dollarTag, taglen, commentLevel, dollarNumber := 0, {}, '\0', 0, 0, 0, 0;
    }

    /** The flags are tested in the order of the source; `opos` is left on the last character taken. */
    method ProcessInside()
      requires Valid() && opos < |statement| && !NonAscii(statement[opos])
      requires View() != Idle && View() != Ident
      modifies this`opos, this`inStatus, this`commentLevel
      ensures Valid() && (View(), opos + 1) == Inside(statement, old(opos), old(View()))
    {
      var s, oldchar := statement, statement[opos];
      if ESCAPE in inStatus {
        inStatus := inStatus - {ESCAPE};
        assert inStatus == {LITERAL};
      } else if DOLLAR_QUOTE in inStatus {
        if oldchar == '$' && TagAt(s, dollarTag, taglen, opos) {
          opos := opos + (taglen - 1);
          inStatus := inStatus - {DOLLAR_QUOTE};
          assert inStatus == {};
        }
      } else if LITERAL in inStatus {
        if oldchar == '\'' {
          inStatus := inStatus - {LITERAL};
          assert inStatus == {};
        } else if oldchar == escapeInLiteral {
          inStatus := inStatus + {ESCAPE};
          assert inStatus == {LITERAL, ESCAPE};
        }
      } else if DQUOTE_IDENTIFIER in inStatus {
        if oldchar == '"' {
          inStatus := inStatus - {DQUOTE_IDENTIFIER};
          assert inStatus == {};
        }
      } else if COMMENT_BLOCK in inStatus {
        if oldchar == '/' && At(s, opos + 1) == '*' {
          commentLevel := commentLevel + 1;
          opos := opos + 1;
        } else if oldchar == '*' && At(s, opos + 1) == '/' {
          commentLevel := commentLevel - 1;
          if commentLevel <= 0 {
            inStatus := inStatus - {COMMENT_BLOCK};
            assert inStatus == {};
          }
          opos := opos + 1;
        }
      } else {
        if oldchar == '\n' {
          inStatus := inStatus - {LINE_COMMENT};
          assert inStatus == {};
        }
      }
    }

    /** Outside all blocks, a character that may open one. */
    method OpenBlock()
      requires Valid() && opos < |statement| && View() == Idle
      modifies this`opos, this`inStatus, this`escapeInLiteral, this`dollarTag, this`taglen, this`commentLevel
      ensures Valid() && (View(), opos + 1) == Open(statement, old(opos), setting)
    {
      var s, oldchar := statement, statement[opos];
      if oldchar == '$' {
        taglen := TagLength(s, opos);
        if taglen > 0 {
          inStatus := {DOLLAR_QUOTE};
          dollarTag := opos;
          opos := opos + (taglen - 1);
        }
      } else if oldchar == '\'' {
        inStatus := {LITERAL};
        escapeInLiteral := if setting.escape then '\\' else '\0';
        if escapeInLiteral == '\0' {
          if (if opos == 0 then setting.before else s[opos - 1]) == 'E' { escapeInLiteral := '\\'; }
        }
      } else if oldchar == '"' {
        inStatus := {DQUOTE_IDENTIFIER};
      } else if oldchar == '/' && At(s, opos + 1) == '*' {
        commentLevel := commentLevel + 1;
        inStatus := {COMMENT_BLOCK};
      } else if oldchar == '-' && At(s, opos + 1) == '-' {
        inStatus := {LINE_COMMENT};
      } else if StartsIdent(oldchar) {
        inStatus := {IDENT_KEYWORD};
      }
    }

    /** The machine, standing at `i`. */
    ghost function MachineAt(i: nat): Machine
      reads this
    {
      Machine(i, dollarNumber, View())
    }

    /** Outside all blocks. */
    method ProcessIdle() returns (piece: string)
      requires Valid() && opos < |statement| && View() == Idle
      modifies this
      ensures Valid() && (piece, MachineAt(opos + 1)) == NextIdle(statement, old(opos), old(dollarNumber), setting)
    {
      var s, i, oldchar := statement, opos, statement[opos];
      if setting.lf && oldchar == '\r' && opos + 1 < |s| && s[opos + 1] == '\n' { return ""; }
      if oldchar == '?' {
        dollarNumber := dollarNumber + 1;
        return MarkerText(dollarNumber);
      }
      if oldchar == ';' {
        dollarNumber := 0;
        return ";";
      }
      OpenReachesEnd(s, i, setting);
      OpenBlock();
      piece := s[i..opos + 1];
    }

    /** inner_process_tokens: one call per character the loop of prepareParametersNoDesc stops at. */
    method ProcessToken() returns (piece: string)
      requires Valid() && opos < |statement|
      modifies this
      ensures Valid() && (piece, MachineAt(opos + 1)) == Next(statement, old(MachineAt(opos)), setting)
    {
      var s, i, oldchar := statement, opos, statement[opos];
      if inStatus != {} { InsideKeepsEnd(s, i, View()); }
      if NonAscii(oldchar) {
        if inStatus == {} { inStatus := {IDENT_KEYWORD}; }
        return s[i..i + 1];
      }
      if inStatus == {IDENT_KEYWORD} {
        if IsIdentChar(oldchar) { return s[i..i + 1]; }
        inStatus := {};
      }
      if inStatus != {} {
        ProcessInside();
        piece := s[i..opos + 1];
      } else {
        piece := ProcessIdle();
      }
    }

    /** What is still to be written. */
    ghost function ToWrite(): string
      requires Valid() && opos <= |statement|
      reads this
    {
      Todo(statement, MachineAt(opos), setting)
    }

    /** One turn of the loop takes the next piece of what is still to be written. */
    method Turn(ghost sofar: string) returns (piece: string)
      requires Valid() && opos < |statement|
      modifies this
      ensures Valid() && old(opos) < opos <= |statement|
      ensures sofar + piece + ToWrite() == old(sofar + ToWrite())
    {
      ghost var s, m := statement, MachineAt(opos);
      NextWrites(s, m, setting);
      piece := ProcessToken();
      ghost var m1 := MachineAt(opos + 1);
      opos := opos + 1;
      assert MachineAt(opos) == m1;
      Assoc(sofar, piece, Todo(s, m1, setting));
    }
  }

  /** The loop of prepareParametersNoDesc over a buffer: the server receives the statement with its markers
      numbered and nothing else changed. */
  method PrepareStatement(statement: string, escape: bool, lf: bool, before: char) returns (qb: QueryBuffer.QueryBuild)
    requires Supported(statement, Setting(escape, lf, before, 1))
    ensures qb.Valid() && fresh(qb) && fresh(qb.buf) && qb.buf[qb.npos] == '\0'
    ensures qb.Contents() == Rewrite(statement, 0, 0, Setting(escape, lf, before, 1))
  {
    qb := new QueryBuffer.QueryBuild(|statement|);
    var qp := new QueryParse(statement, escape, lf, before);
    RestIdle(statement, 0, 0, qp.setting);
    ghost var all := Rewrite(statement, 0, 0, qp.setting);
    while qp.opos < |statement|
      invariant qp.Valid() && fresh(qp) && qp.opos <= |statement|
      invariant qb.Valid() && fresh(qb) && fresh(qb.buf)
      invariant qb.Contents() + qp.ToWrite() == all
      decreases |statement| - qp.opos
    {
      var piece := qp.Turn(qb.Contents());
      qb.AppendData(piece);
    }
    TodoAtEnd(statement, qp.dollarNumber, qp.View(), qp.setting);
    qb.Terminate();
  }
}
