/** info.c's identifierEscape as simpleCatalogEscape calls it: names in catalog queries, doubled into a buffer
    of its own. */
module CatalogName {
  import opened Basics
  import opened SqlLiteral
  import opened CharBuffer

  lemma EscapedStep(src: string, i: nat, escapes: bool)
    requires i < |src|
    ensures Escaped(src[i..], escapes) == EscapeChar(src[i], escapes) + Escaped(src[i + 1..], escapes)
  {
    assert src[i..][0] == src[i] && src[i..][1..] == src[i + 1..];
  }

  lemma EscapedCopied(src: string, i: nat, escapes: bool, done: string)
    requires i < |src|
    ensures (done + EscapeChar(src[i], escapes)) + Escaped(src[i + 1..], escapes) == done + Escaped(src[i..], escapes)
  {
    EscapedStep(src, i, escapes);
    Assoc(done, EscapeChar(src[i], escapes), Escaped(src[i + 1..], escapes));
  }

  /** An empty name gives no text. The result and its terminator fit 2n + 1 bytes, so the loop never stops
      for lack of room. */
  method SimpleCatalogEscape(src: string, escapes: bool) returns (dest: array?<char>, outlen: nat)
    ensures dest == null <==> src == ""
    ensures src == "" ==> outlen == 0
    ensures dest != null ==>
              && outlen < dest.Length == 2 * |src| + 1 && dest[outlen] == '\0'
              && dest[..outlen] == Escaped(src, escapes)
              && ReadBody(dest[..outlen] + "'", escapes) == Some((src, ""))
  {
    outlen := 0;
    if |src| == 0 { return null, 0; }
    var buf := new char[2 * |src| + 1];
    var i := 0;
    assert src[0..] == src;
    while i < |src| && outlen < buf.Length - 1
      invariant 0 <= i <= |src| && outlen <= 2 * i
      invariant buf[..outlen] + Escaped(src[i..], escapes) == Escaped(src, escapes)
    {
      ghost var done := buf[..outlen];
      EscapedCopied(src, i, escapes, done);
      var tchar := src[i];
      if tchar == '\'' || (escapes && tchar == '\\') { outlen := Put(buf, outlen, tchar); }
      outlen := Put(buf, outlen, tchar);
      assert buf[..outlen] == done + EscapeChar(tchar, escapes);
      i := i + 1;
    }
    assert src[i..] == "";
    buf[outlen] := '\0';
    ReadEscaped(src, escapes, "");
    assert Escaped(src, escapes) + "'" + "" == Escaped(src, escapes) + "'";
    dest := buf;
  }
}
