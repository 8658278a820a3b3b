/** The growing statement buffer of convert.c: QueryBuild's query_statement, str_alsize and npos, with the
    CVT_* macros that write to it. */
module QueryBuffer {
  import opened BigNum
  import opened SqlLiteral
  import opened Bytea
  import opened CharBuffer
  import BinaryWriter

  const INIT_MIN_ALLOC := 4096

  // ----- What the writers write -----

  /** The characters of a parameter that survive: up to a NUL or the given length, and without a
      carriage return that a line feed follows, when line ends are converted. The look at the following
      character is not limited by the length. */
  function Surviving(si: string, i: nat, used: nat, convlf: bool): string
    requires i <= used < |si|
    decreases used - i
  {
    if i == used || si[i] == '\0' then ""
    else if convlf && si[i] == '\r' && si[i + 1] == '\n' then Surviving(si, i + 1, used, convlf)
    else [si[i]] + Surviving(si, i + 1, used, convlf)
  }

  /** Text as written, with the characters special to a literal doubled or not. */
  function Doubling(v: string, doubled: bool, escapes: bool): string {
    if doubled then Escaped(v, escapes) else v
  }

  class QueryBuild {
    var buf: array<char>  // query_statement, with str_alsize == buf.Length
    var npos: nat

    ghost predicate Valid()
      reads this
    {
      npos < buf.Length
    }

    ghost function Contents(): string
      requires Valid()
      reads this, buf
    {
      buf[..npos]
    }

    constructor (size: nat)
      ensures Valid() && fresh(buf) && Contents() == "" && buf.Length > size && buf[0] == '\0'
      ensures buf.Length == INIT_MIN_ALLOC || buf.Length <= 2 * size
    {
      var newsize := INIT_MIN_ALLOC;
      while newsize <= size
        invariant newsize == INIT_MIN_ALLOC || 0 < newsize <= 2 * size
        decreases size - newsize
      {
        newsize := newsize * 2;
      }
      buf := new char[newsize];
      npos := 0;
      new;
      buf[0] := '\0';
    }

    /** enlarge_query_statement: reallocates to the first power-of-two multiple of the minimum above
        `newsize`, which may be smaller than before; what was written is kept. */
    method Enlarge(newsize: nat)
      requires Valid() && npos <= newsize
      modifies this
      ensures Valid() && fresh(buf) && buf.Length > newsize
      ensures buf.Length == INIT_MIN_ALLOC || buf.Length <= 2 * newsize
      ensures npos == old(npos) && Contents() == old(Contents())
    {
      var newalsize := INIT_MIN_ALLOC;
      while newalsize <= newsize
        invariant newalsize == INIT_MIN_ALLOC || 0 < newalsize <= 2 * newsize
        decreases newsize - newalsize
      {
        newalsize := newalsize * 2;
      }
      var was := buf;
      var next := new char[newalsize](i requires 0 <= i reads was => if i < was.Length then was[i] else '\0');
      buf := next;
      assert buf[..npos] == was[..npos];
    }

    /** ENLARGE_NEWSTATEMENT. */
    method Reserve(newpos: nat)
      requires Valid() && npos <= newpos
      modifies this
      ensures Valid() && buf.Length > newpos && (buf == old(buf) || fresh(buf))
      ensures npos == old(npos) && Contents() == old(Contents())
    {
      if newpos >= buf.Length { Enlarge(newpos); }
    }

    /** CVT_APPEND_DATA; the terminator is written too. */
    method AppendData(s: string)
      requires Valid()
      modifies this, buf
      ensures Valid() && (buf == old(buf) || fresh(buf)) && Contents() == old(Contents()) + s
      ensures buf[npos] == '\0'
    {
      var newpos := npos + |s|;
      Reserve(newpos);
      ghost var before := Contents();
      PutText(buf, npos, s);
      npos := newpos;
      buf[newpos] := '\0';
      assert buf[..newpos] == before + s;
    }

    /** CVT_APPEND_CHAR. */
    method AppendChar(c: char)
      requires Valid()
      modifies this, buf
      ensures Valid() && (buf == old(buf) || fresh(buf)) && Contents() == old(Contents()) + [c]
    {
      Reserve(npos + 1);
      ghost var before := Contents();
      buf[npos] := c;
      npos := npos + 1;
      assert buf[..npos] == before + [c];
    }

    /** CVT_APPEND_BINARY: the room reserved is enough for either text form. */
    method AppendBinary(bs: seq<byte>, hex: bool, escape: bool)
      requires Valid()
      modifies this, buf
      ensures Valid() && (buf == old(buf) || fresh(buf))
      ensures Contents() == old(Contents()) + Escaped(ByteaText(bs, hex), escape)
    {
      Reserve(npos + (if hex then 2 * |bs| + 4 else 5 * |bs|));
      npos := BinaryWriter.PutPgBinary(buf, npos, bs, hex, escape);
    }

    /** CVT_TERMINATE. */
    method Terminate()
      requires Valid()
      modifies buf
      ensures Valid() && Contents() == old(Contents()) && buf[npos] == '\0'
    {
      ghost var before := Contents();
      buf[npos] := '\0';
      assert buf[..npos] == before;
    }

    /** One character of convert_special_chars, after making room for three more bytes. */
    method AppendSpecialChar(c: char, doubled: bool, escapes: bool)
      requires Valid()
      modifies this, buf
      ensures Valid() && (buf == old(buf) || fresh(buf))
      ensures Contents() == old(Contents()) + Doubling([c], doubled, escapes)
    {
      if npos + 3 >= buf.Length { Enlarge(npos + 3); }
      ghost var before := Contents();
      DoublingOne(c, doubled, escapes);
      if doubled && (c == '\'' || (escapes && c == '\\')) {
        npos := Put(buf, npos, c);
        assert before + [c, c] == (before + [c]) + [c];
      }
      npos := Put(buf, npos, c);
    }

    /** convert_special_chars: the first reallocation is unconditional. */
    method AppendSpecialChars(si: string, used: nat, convlf: bool, doubled: bool, escapes: bool)
      requires Valid() && used < |si|
      modifies this, buf
      ensures Valid() && fresh(buf)
      ensures Contents() == old(Contents()) + SpecialFrom(si, 0, used, convlf, doubled, escapes)
      ensures buf[npos] == '\0'
    {
      Enlarge(npos + 1);
      var i := 0;
      ghost var sofar := Contents();
      while i < used && si[i] != '\0'
        invariant 0 <= i <= used && Valid() && fresh(buf) && Contents() == sofar
        invariant sofar + SpecialFrom(si, i, used, convlf, doubled, escapes) ==
                  old(Contents()) + SpecialFrom(si, 0, used, convlf, doubled, escapes)
      {
        if !(convlf && si[i] == '\r' && si[i + 1] == '\n') {
          ghost var unit := Doubling([si[i]], doubled, escapes);
          Assoc(sofar, unit, SpecialFrom(si, i + 1, used, convlf, doubled, escapes));
          AppendSpecialChar(si[i], doubled, escapes);
          sofar := sofar + unit;
        }
        i := i + 1;
      }
      Terminate();
    }
  }

  /** What convert_special_chars writes from position `i` on. */
  function SpecialFrom(si: string, i: nat, used: nat, convlf: bool, doubled: bool, escapes: bool): string
    requires i <= used < |si|
    decreases used - i
  {
    if i == used || si[i] == '\0' then ""
    else
      var rest := SpecialFrom(si, i + 1, used, convlf, doubled, escapes);
      if convlf && si[i] == '\r' && si[i + 1] == '\n' then rest else Doubling([si[i]], doubled, escapes) + rest
  }

  lemma DoublingOne(c: char, doubled: bool, escapes: bool)
    ensures Doubling([c], doubled, escapes) ==
            if doubled && (c == '\'' || (escapes && c == '\\')) then [c, c] else [c]
  {
    assert [c][1..] == "" && Escaped([c], escapes) == EscapeChar(c, escapes) + Escaped("", escapes);
    assert EscapeChar(c, escapes) + "" == EscapeChar(c, escapes);
  }

  /** It is the surviving text, written with or without doubling. */
  lemma {:induction false} SpecialFromIs(si: string, i: nat, used: nat, convlf: bool, doubled: bool, escapes: bool)
    requires i <= used < |si|
    ensures SpecialFrom(si, i, used, convlf, doubled, escapes) ==
            Doubling(Surviving(si, i, used, convlf), doubled, escapes)
    decreases used - i
  {
    if i < used && si[i] != '\0' {
      SpecialFromIs(si, i + 1, used, convlf, doubled, escapes);
      DoublingStep(si[i], Surviving(si, i + 1, used, convlf), doubled, escapes);
    }
  }

  lemma DoublingStep(c: char, rest: string, doubled: bool, escapes: bool)
    ensures Doubling([c] + rest, doubled, escapes) == Doubling([c], doubled, escapes) + Doubling(rest, doubled, escapes)
  {
    EscapedConcat([c], rest, escapes);
  }
}
