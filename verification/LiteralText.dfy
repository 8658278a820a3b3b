/** Parameters written into a statement as literals (ResolveOneParam in replace mode), and every way of
    mixing the writers of the buffer. */
module LiteralText {
  import opened Basics
  import opened BigNum
  import opened SqlLiteral
  import opened Bytea
  import opened QueryBuffer

  // ----- Any interleaving of the writers -----

  datatype Piece =
    | Data(s: string)
    | OneChar(c: char)
    | Special(si: string, used: nat, convlf: bool, doubled: bool, escapes: bool)
    | Binary(bs: seq<byte>, hex: bool, escape: bool)

  predicate Readable(p: Piece) {
    p.Special? ==> p.used < |p.si|
  }

  function TextOf(p: Piece): string
    requires Readable(p)
  {
    match p
    case Data(s) => s
    case OneChar(c) => [c]
    case Special(si, used, convlf, doubled, escapes) => Doubling(Surviving(si, 0, used, convlf), doubled, escapes)
    case Binary(bs, hex, escape) => Escaped(ByteaText(bs, hex), escape)
  }

  function TextOfAll(ps: seq<Piece>): string
    requires forall p :: p in ps ==> Readable(p)
  {
    if ps == [] then "" else TextOfAll(ps[..|ps| - 1]) + TextOf(ps[|ps| - 1])
  }

  method AppendPiece(qb: QueryBuild, p: Piece)
    requires qb.Valid() && Readable(p)
    modifies qb, qb.buf
    ensures qb.Valid() && (qb.buf == old(qb.buf) || fresh(qb.buf))
    ensures qb.Contents() == old(qb.Contents()) + TextOf(p)
  {
    match p {
      case Data(s) => qb.AppendData(s);
      case OneChar(c) => qb.AppendChar(c);
      case Special(si, used, convlf, doubled, escapes) =>
        qb.AppendSpecialChars(si, used, convlf, doubled, escapes);
        SpecialFromIs(si, 0, used, convlf, doubled, escapes);
      case Binary(bs, hex, escape) => qb.AppendBinary(bs, hex, escape);
    }
  }

  lemma NextPiece(before: string, ps: seq<Piece>, i: nat)
    requires i < |ps| && forall p :: p in ps ==> Readable(p)
    ensures before + TextOfAll(ps[..i]) + TextOf(ps[i]) == before + TextOfAll(ps[..i + 1])
  {
    assert ps[..i + 1][..i] == ps[..i] && ps[..i + 1][i] == ps[i];
  }

  /** Under every interleaving the contents are the concatenation of all pieces, every write stays inside
      the buffer and room for the terminator is kept. */
  method AppendPieces(qb: QueryBuild, ps: seq<Piece>)
    requires qb.Valid() && forall p :: p in ps ==> Readable(p)
    modifies qb, qb.buf
    ensures qb.Valid() && (qb.buf == old(qb.buf) || fresh(qb.buf))
    ensures qb.Contents() == old(qb.Contents()) + TextOfAll(ps)
  {
    ghost var before := qb.Contents();
    for i := 0 to |ps|
      invariant qb.Valid() && (qb.buf == old(qb.buf) || fresh(qb.buf))
      invariant qb.Contents() == before + TextOfAll(ps[..i])
    {
      AppendPiece(qb, ps[i]);
      NextPiece(before, ps, i);
    }
    assert ps[..|ps|] == ps;
  }

  // ----- Literals -----

  function Opening(escapes: bool): string {
    if escapes then "E'" else "'"
  }

  /** The opening quote; the E prefix goes with backslash escapes. */
  method OpenQuote(qb: QueryBuild, escapes: bool)
    requires qb.Valid()
    modifies qb, qb.buf
    ensures qb.Valid() && (qb.buf == old(qb.buf) || fresh(qb.buf))
    ensures qb.Contents() == old(qb.Contents()) + Opening(escapes)
  {
    ghost var before := qb.Contents();
    if escapes { qb.AppendChar('E'); }
    qb.AppendChar('\'');
    assert qb.Contents() == before + Opening(escapes);
  }

  lemma ConstantPieces(before: string, v: string, escapes: bool)
    ensures before + Opening(escapes) + Escaped(v, escapes) + ['\''] == before + Constant(v, escapes)
  {
    assert Constant(v, escapes) == Opening(escapes) + Escaped(v, escapes) + ['\''];
  }

  /** The quoted text of a character parameter. */
  method AppendLiteral(qb: QueryBuild, si: string, used: nat, convlf: bool, escapes: bool)
    requires qb.Valid() && used < |si|
    modifies qb, qb.buf
    ensures qb.Valid() && (qb.buf == old(qb.buf) || fresh(qb.buf))
    ensures qb.Contents() == old(qb.Contents()) + Constant(Surviving(si, 0, used, convlf), escapes)
  {
    ConstantPieces(qb.Contents(), Surviving(si, 0, used, convlf), escapes);
    OpenQuote(qb, escapes);
    AppendPiece(qb, Special(si, used, convlf, true, escapes));
    qb.AppendChar('\'');
  }

  /** The quoted text of a binary parameter. */
  method AppendBinaryLiteral(qb: QueryBuild, bs: seq<byte>, hex: bool, escapes: bool)
    requires qb.Valid()
    modifies qb, qb.buf
    ensures qb.Valid() && (qb.buf == old(qb.buf) || fresh(qb.buf))
    ensures qb.Contents() == old(qb.Contents()) + Constant(ByteaText(bs, hex), escapes)
  {
    ConstantPieces(qb.Contents(), ByteaText(bs, hex), escapes);
    OpenQuote(qb, escapes);
    qb.AppendBinary(bs, hex, escapes);
    qb.AppendChar('\'');
  }

  /** A text with every CR LF reduced to LF. */
  function Collapsed(v: string): string {
    if v == "" then ""
    else if |v| > 1 && v[0] == '\r' && v[1] == '\n' then Collapsed(v[1..])
    else [v[0]] + Collapsed(v[1..])
  }

  predicate NoNul(v: string) {
    forall i :: 0 <= i < |v| ==> v[i] != '\0'
  }

  /** The look-ahead reaches past the parameter: its last character is a carriage return and the next byte
      in memory happens to be a line feed. */
  predicate LooksPastEnd(si: string, used: nat, convlf: bool)
    requires used < |si|
  {
    convlf && used > 0 && si[used - 1] == '\r' && si[used] == '\n'
  }

  lemma {:induction false} SurvivingText(si: string, i: nat, used: nat, convlf: bool)
    requires i <= used < |si| && NoNul(si[..used])
    ensures !convlf ==> Surviving(si, i, used, convlf) == si[i..used]
    ensures convlf && !LooksPastEnd(si, used, convlf) ==> Surviving(si, i, used, convlf) == Collapsed(si[i..used])
    ensures LooksPastEnd(si, used, convlf) && i < used ==>
              Surviving(si, i, used, convlf) + "\r" == Collapsed(si[i..used])
    decreases used - i
  {
    if i < used {
      var v := si[i..used];
      assert si[..used][i] != '\0';
      assert v[0] == si[i] && v[1..] == si[i + 1..used];
      SurvivingText(si, i + 1, used, convlf);
      assert v == [v[0]] + v[1..];
      if i + 1 == used {
        assert v[1..] == "" && Collapsed(v) == [v[0]] + "";
        assert [v[0]] + "" == [v[0]] && "" + "\r" == "\r";
      } else {
        assert v[1] == si[i + 1];
        var rest := Surviving(si, i + 1, used, convlf);
        assert [si[i]] + (rest + "\r") == ([si[i]] + rest) + "\r";
      }
    }
  }

  /** The literal round trip, exactly when it holds: for every NUL-free parameter the text emitted is one
      complete string constant, and its value is the parameter, with CR LF reduced to LF when line
      ends are converted, if and only if the look-ahead does not reach past the parameter. */
  lemma LiteralComesBackIff(si: string, used: nat, convlf: bool, escapes: bool)
    requires used < |si| && NoNul(si[..used])
    ensures var text := Constant(Surviving(si, 0, used, convlf), escapes);
            var value := if convlf then Collapsed(si[..used]) else si[..used];
            && ReadConstant(text).Some? && ReadConstant(text).value.1 == ""
            && (ReadConstant(text) == Some((value, "")) <==> !LooksPastEnd(si, used, convlf))
  {
    SurvivingText(si, 0, used, convlf);
    assert si[0..used] == si[..used];
    ConstantReadsBack(Surviving(si, 0, used, convlf), escapes);
  }
}
