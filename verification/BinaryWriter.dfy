/** convert.c's convert_to_pgbinary: binary parameters written as bytea text, with the escape of the
    surrounding literal. */
module BinaryWriter {
  import opened BigNum
  import opened SqlLiteral
  import opened Bytea
  import opened CharBuffer

  /** The backslash and three digits; the digits are filled in from the last one, the terminator first. */
  method PutOctalUnit(out: array<char>, o: nat, b: byte) returns (m: nat)
    requires !IsPlain(b) && o + 4 < out.Length
    modifies out
    ensures m == o + 4 && out[..m] == old(out[..o]) + OctalUnit(b) && out[m] == '\0'
  {
    ghost var before := out[..o];
    out[o] := '\\';
    m := o + 4;
    out[m] := '\0';
    out[m - 1] := Octal(b % 8);
    out[m - 2] := Octal(b / 8 % 8);
    out[m - 3] := Octal(b / 64);
    assert out[..o] == before && out[o..m] == OctalUnit(b);
    assert out[..m] == out[..o] + out[o..m];
  }

  /** conv_to_octal and conv_to_octal2. */
  method PutOctal(out: array<char>, o: nat, b: byte, escape: bool) returns (m: nat)
    requires !IsPlain(b) && o + 5 < out.Length
    modifies out
    ensures m == o + (if escape then 5 else 4)
    ensures out[..m] == old(out[..o]) + (if escape then "\\" else "") + OctalUnit(b) && out[m] == '\0'
  {
    m := o;
    if escape { m := Put(out, m, '\\'); }
    m := PutOctalUnit(out, m, b);
  }

  /** pg_bin2hex onto a destination apart from its source, terminator included. */
  method PutHex(out: array<char>, o: nat, bs: seq<byte>) returns (m: nat)
    requires o + 2 * |bs| < out.Length
    modifies out
    ensures m == o + 2 * |bs| && out[..m] == old(out[..o]) + HexText(bs) && out[m] == '\0'
  {
    m := o;
    var i := 0;
    ghost var before := out[..o];
    assert bs[0..] == bs;
    while i < |bs|
      invariant 0 <= i <= |bs| && m == o + 2 * i
      invariant out[..m] + HexText(bs[i..]) == before + HexText(bs)
    {
      ghost var done, rest := out[..m], HexText(bs[i + 1..]);
      assert bs[i..][1..] == bs[i + 1..];
      m := Put(out, m, HexDigit(bs[i] / 16));
      m := Put(out, m, HexDigit(bs[i] % 16));
      assert out[..m] == done + HexPair(bs[i]);
      assert (done + HexPair(bs[i])) + rest == done + (HexPair(bs[i]) + rest);
      i := i + 1;
    }
    ghost var result := out[..m];
    out[m] := '\0';
    assert out[..m] == result;
  }

  method PutOctalByte(out: array<char>, o: nat, b: byte, escape: bool) returns (m: nat)
    requires o + 5 < out.Length
    modifies out
    ensures o < m <= o + 5 && out[..m] == old(out[..o]) + Escaped(OctalUnit(b), escape)
  {
    OctalUnitEscaped(b, escape);
    ghost var before := out[..o];
    if IsPlain(b) {
      m := Put(out, o, b as char);
    } else {
      m := PutOctal(out, o, b, escape);
      assert out[..m] == before + ((if escape then "\\" else "") + OctalUnit(b));
    }
  }

  /** What the octal form writes from byte `i` on. */
  function OctalFrom(bs: seq<byte>, i: nat, escape: bool): string
    requires i <= |bs|
    decreases |bs| - i
  {
    if i == |bs| then "" else Escaped(OctalUnit(bs[i]), escape) + OctalFrom(bs, i + 1, escape)
  }

  lemma {:induction false} OctalFromIs(bs: seq<byte>, i: nat, escape: bool)
    requires i <= |bs|
    ensures OctalFrom(bs, i, escape) == Escaped(OctalText(bs[i..]), escape)
    decreases |bs| - i
  {
    if i < |bs| {
      OctalFromIs(bs, i + 1, escape);
      assert bs[i..][1..] == bs[i + 1..];
      EscapedConcat(OctalUnit(bs[i]), OctalText(bs[i + 1..]), escape);
    }
  }

  /** convert_to_pgbinary in its octal form. */
  method PutOctalAll(out: array<char>, o: nat, bs: seq<byte>, escape: bool) returns (m: nat)
    requires o + 5 * |bs| < out.Length
    modifies out
    ensures o <= m <= o + 5 * |bs| && out[..m] == old(out[..o]) + OctalFrom(bs, 0, escape)
  {
    m := o;
    ghost var sofar := out[..o];
    for i := 0 to |bs|
      invariant o <= m <= o + 5 * i && out[..m] == sofar
      invariant sofar + OctalFrom(bs, i, escape) == old(out[..o]) + OctalFrom(bs, 0, escape)
    {
      ghost var unit := Escaped(OctalUnit(bs[i]), escape);
      Assoc(sofar, unit, OctalFrom(bs, i + 1, escape));
      m := PutOctalByte(out, m, bs[i], escape);
      sofar := sofar + unit;
    }
  }

  method PutHexLead(out: array<char>, o: nat, escape: bool) returns (m: nat)
    requires o + 3 <= out.Length
    modifies out
    ensures m == o + (if escape then 3 else 2) && out[..m] == old(out[..o]) + ((if escape then "\\" else "") + "\\x")
  {
    m := o;
    ghost var before := out[..o];
    if escape { m := Put(out, m, '\\'); }
    m := Put(out, m, '\\');
    m := Put(out, m, 'x');
    assert out[..m] == before + ((if escape then "\\" else "") + "\\x");
  }

  /** convert_to_pgbinary. */
  method PutPgBinary(out: array<char>, o: nat, bs: seq<byte>, hex: bool, escape: bool) returns (m: nat)
    requires o + (if hex then 2 * |bs| + 4 else 5 * |bs|) < out.Length
    modifies out
    ensures o <= m < out.Length && out[..m] == old(out[..o]) + Escaped(ByteaText(bs, hex), escape)
    ensures hex ==> out[m] == '\0'
  {
    if hex {
      ghost var before := out[..o];
      m := PutHexLead(out, o, escape);
      m := PutHex(out, m, bs);
      HexEscaped(bs, escape);
      ghost var lead := if escape then "\\" else "";
      assert before + (lead + "\\x") + HexText(bs) == before + (lead + ("\\x" + HexText(bs)));
    } else {
      m := PutOctalAll(out, o, bs, escape);
      OctalFromIs(bs, 0, escape);
      assert bs[0..] == bs;
    }
  }
}
