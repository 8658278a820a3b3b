/** String constants as the PostgreSQL lexer reads them (sections 4.1.2.1 and 4.1.2.2 of its
    documentation), and the one way in which the driver writes them: quotes are doubled, and so
    are backslashes when the constant carries the E prefix. */
module SqlLiteral {
  import opened Basics

  /** Reads up to the closing quote; gives the value and what follows. Backslash escapes other than
      the two for backslash and quote are not part of this model and read as None. */
  function ReadBody(text: string, escapes: bool): Option<(string, string)>
    decreases |text|
  {
    if text == "" then None
    else if text[0] == '\'' then
      if |text| > 1 && text[1] == '\'' then Prepend('\'', ReadBody(text[2..], escapes))
      else Some(("", text[1..]))
    else if escapes && text[0] == '\\' then
      if |text| > 1 && (text[1] == '\\' || text[1] == '\'') then Prepend(text[1], ReadBody(text[2..], escapes))
      else None
    else Prepend(text[0], ReadBody(text[1..], escapes))
  }

  function Prepend(c: char, r: Option<(string, string)>): Option<(string, string)> {
    match r
    case None => None
    case Some((v, rest)) => Some(([c] + v, rest))
  }

  function ReadConstant(text: string): Option<(string, string)> {
    if |text| > 1 && text[0] == 'E' && text[1] == '\'' then ReadBody(text[2..], true)
    else if |text| > 0 && text[0] == '\'' then ReadBody(text[1..], false)
    else None
  }

  function EscapeChar(c: char, escapes: bool): (r: string)
    ensures 1 <= |r| <= 2
  {
    if c == '\'' || (escapes && c == '\\') then [c, c] else [c]
  }

  function Escaped(v: string, escapes: bool): string {
    if v == "" then "" else EscapeChar(v[0], escapes) + Escaped(v[1..], escapes)
  }

  function Constant(v: string, escapes: bool): string {
    (if escapes then "E'" else "'") + Escaped(v, escapes) + "'"
  }

  lemma {:induction false} ReadEscaped(v: string, escapes: bool, rest: string)
    requires rest == "" || rest[0] != '\''
    ensures ReadBody(Escaped(v, escapes) + "'" + rest, escapes) == Some((v, rest))
    decreases |v|
  {
    var text := Escaped(v, escapes) + "'" + rest;
    if v == "" {
      assert text == "'" + rest;
      assert text[1..] == rest;
    } else {
      var tail := Escaped(v[1..], escapes) + "'" + rest;
      var unit := EscapeChar(v[0], escapes);
      assert text == unit + tail;
      assert text[|unit|..] == tail;
      ReadEscaped(v[1..], escapes, rest);
      assert [v[0]] + v[1..] == v;
    }
  }

  /** What the driver writes is one complete constant whose value is the original text. */
  lemma ConstantReadsBack(v: string, escapes: bool)
    ensures ReadConstant(Constant(v, escapes)) == Some((v, ""))
  {
    ReadEscaped(v, escapes, "");
    var text := Constant(v, escapes);
    var body := Escaped(v, escapes) + "'" + "";
    assert body == Escaped(v, escapes) + "'";
    if escapes {
      assert text[2..] == body;
    } else {
      assert text[0] == '\'';
      assert text[1..] == body;
    }
  }

  lemma {:induction false} EscapedConcat(a: string, b: string, escapes: bool)
    ensures Escaped(a + b, escapes) == Escaped(a, escapes) + Escaped(b, escapes)
    decreases |a|
  {
    if a == "" {
      assert a + b == b;
    } else {
      assert (a + b)[1..] == a[1..] + b;
      EscapedConcat(a[1..], b, escapes);
    }
  }
}
