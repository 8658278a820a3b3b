/** Connection strings as users write them: values with and without braces, tokens without an equals sign, missing
    and superfluous semicolons; and which brace errors are reported. */
module ConnPieces {
  import opened ConnString
  import opened ConnRoundTrip

  /** What stands between two semicolons that separate. */
  datatype Piece =
    | Bracketed(key: string, value: string)
    | Plain(key: string, value: string)
    | Bare(text: string)

  /** A plain value has no semicolon and does not open with a brace; anything without an equals sign is bare. */
  predicate Sound(p: Piece) {
    match p
    case Bracketed(key, value) => ValidKey(key)
    case Plain(key, value) => ValidKey(key) && ';' !in value && (value == "" || value[0] != '{')
    case Bare(text) => ';' !in text && '=' !in text
  }

  function Text(p: Piece): string {
    match p
    case Bracketed(key, value) => key + "=" + Braced(value)
    case Plain(key, value) => key + "=" + value
    case Bare(text) => text
  }

  /** What is to be read from it. */
  function PairOf(p: Piece): seq<(string, string)> {
    match p
    case Bracketed(key, value) => [(key, Braced(value))]
    case Plain(key, value) => [(key, value)]
    case Bare(text) => []
  }

  /** The pieces, separated by semicolons; `closed`: one more stands behind the last. */
  function Joined(ps: seq<Piece>, closed: bool): string {
    if ps == [] then ""
    else Text(ps[0]) + ((if |ps| > 1 || closed then ";" else "") + Joined(ps[1..], closed))
  }

  function Pairs(ps: seq<Piece>): seq<(string, string)> {
    if ps == [] then [] else PairOf(ps[0]) + Pairs(ps[1..])
  }

  // ----- Braces -----

  /** A doubled text is passed over on the way to the closing bracket. */
  lemma {:induction false} EndingBehindDoubled(s: string, i: nat, w: string)
    requires At(s, i, Doubled(w)) && i + |Doubled(w)| < |s|
    ensures FindEnding(s, i) == FindEnding(s, i + |Doubled(w)|)
    decreases |w|
  {
    if w != "" {
      var unit := if w[0] == '}' then "}}" else [w[0]];
      AtSplit(s, i, unit, Doubled(w[1..]));
      AtChar(s, i, unit);
      EndingBehindDoubled(s, i + |unit|, w[1..]);
      if w[0] == '}' {
        assert IndexFrom(s, i, '}') == i;
      } else {
        EndingSkips(s, i);
      }
    }
  }

  /** Behind a key and its equals sign a value stands at `v`. */
  predicate ValueAt(s: string, start: nat, key: string, v: nat) {
    ValidKey(key) && At(s, start, key) && v == start + |key| + 1 <= |s| && s[v - 1] == '='
  }

  lemma KeyFound(s: string, start: nat, key: string, v: nat)
    requires ValueAt(s, start, key, v)
    ensures SkipDelims(s, start) == start && IndexFrom(s, start, '=') == v - 1 && s[start..v - 1] == key
    ensures IndexFrom(s, start, ';') == IndexFrom(s, v, ';')
    ensures OneTurn(s, start) == ValueTurn(s, start, v, IndexFrom(s, v, ';'))
  {
    KeyIsClean(s, start, key);
    AtChar(s, start, key);
    IndexFromIs(s, start, '=', v - 1);
    IndexFromSkips(s, start, ';', v);
  }

  lemma KeyAt(s: string, start: nat, key: string, rest: string)
    requires ValidKey(key) && At(s, start, key + "=" + rest)
    ensures ValueAt(s, start, key, start + |key| + 1) && At(s, start + |key| + 1, rest)
  {
    assert key + "=" + rest == key + ("=" + rest);
    AtSplit(s, start, key, "=" + rest);
    AtSplit(s, start + |key|, "=", rest);
    AtChar(s, start + |key|, "=");
  }

  /** The opening brace and the doubled text are passed over; a bracket behind them closes if the string or a
      semicolon follows. */
  lemma BracketAt(s: string, v: nat, w: string)
    requires At(s, v, "{" + Doubled(w)) && v + 1 + |Doubled(w)| < |s|
    ensures s[v] == '{' && FindEnding(s, v) == FindEnding(s, v + 1 + |Doubled(w)|)
  {
    AtSplit(s, v, "{", Doubled(w));
    AtChar(s, v, "{");
    EndingSkips(s, v);
    EndingBehindDoubled(s, v + 1, w);
  }

  // ----- One piece -----

  /** A text of length `n` at `start` is followed by the end, or by a semicolon behind which reading goes on. */
  predicate Followed(s: string, start: nat, n: nat, next: nat) {
    var e := start + n;
    e <= |s| && if e == |s| then next == e else s[e] == ';' && next == e + 1
  }

  /** Inside the string, the value closes at `c`. */
  predicate ClosesAt(s: string, v: nat, c: nat) {
    v < c < |s| && s[v] == '{' && FindEnding(s, v) == Closed(c) && (c + 1 < |s| ==> s[c + 1] == ';')
  }

  lemma BracketedCloses(s: string, v: nat, value: string, c: nat)
    requires At(s, v, Braced(value)) && c == v + 1 + |Doubled(value)| && (c + 1 < |s| ==> s[c + 1] == ';')
    ensures ClosesAt(s, v, c) && s[v..c + 1] == Braced(value)
  {
    assert Braced(value) == ("{" + Doubled(value)) + "}";
    AtSplit(s, v, "{" + Doubled(value), "}");
    AtChar(s, c, "}");
    BracketAt(s, v, value);
    assert FindEnding(s, c) == Closed(c) by { assert IndexFrom(s, c, '}') == c; }
  }

  lemma ClosedTurn(s: string, start: nat, v: nat, c: nat, next: nat)
    requires start < v && ClosesAt(s, v, c) && next == if c + 1 < |s| then c + 2 else c + 1
    ensures var pair, t := (s[start..v - 1], s[v..c + 1]), ValueTurn(s, start, v, IndexFrom(s, v, ';'));
            t == More([pair], next) || (next + 1 >= |s| && t == Last([pair], true))
  {
    var e := IndexFrom(s, v, ';');
    assert e > v;
    if c + 1 < |s| { IndexFromFirst(s, v, ';', c + 1); }
    if e == |s| {
      assert c + 1 == |s| && s[v..] == s[v..c + 1];
    } else if IndexFrom(s, v, '}') + 1 == e {
      assert FindEnding(s, v) == Closed(e - 1);
    }
  }

  lemma BracketedTurn(s: string, start: nat, key: string, value: string, next: nat)
    requires ValidKey(key) && At(s, start, key + "=" + Braced(value))
    requires Followed(s, start, |key + "=" + Braced(value)|, next)
    ensures var pair, t := (key, Braced(value)), OneTurn(s, start);
            t == More([pair], next) || (next + 1 >= |s| && t == Last([pair], true))
  {
    var v := start + |key| + 1;
    var c := v + 1 + |Doubled(value)|;
    KeyAt(s, start, key, Braced(value));
    KeyFound(s, start, key, v);
    BracketedCloses(s, v, value, c);
    ClosedTurn(s, start, v, c, next);
  }

  lemma NoSemiAt(s: string, i: nat, t: string, next: nat)
    requires At(s, i, t) && ';' !in t && Followed(s, i, |t|, next)
    ensures IndexFrom(s, i, ';') == i + |t|
  {
    forall j | i <= j < i + |t| ensures s[j] != ';' { assert s[j] == s[i..i + |t|][j - i] == t[j - i]; }
    IndexFromIs(s, i, ';', i + |t|);
  }

  lemma PlainTurn(s: string, start: nat, key: string, value: string, next: nat)
    requires Sound(Plain(key, value)) && At(s, start, key + "=" + value)
    requires Followed(s, start, |key + "=" + value|, next)
    ensures OneTurn(s, start) == More([(key, value)], next)
  {
    var v := start + |key| + 1;
    KeyAt(s, start, key, value);
    KeyFound(s, start, key, v);
    NoSemiAt(s, v, value, next);
    if value != "" { AtChar(s, v, value); }
  }

  lemma BareParse(s: string, start: nat, text: string, next: nat)
    requires Sound(Bare(text)) && At(s, start, text) && Followed(s, start, |text|, next)
    ensures Parse(s, start) == Parse(s, next)
  {
    if text == "" {
      if start < |s| { assert OneTurn(s, start) == OneTurn(s, start + 1); }
    } else {
      BareTurn(s, start, text, next);
      TurnParsed(s, start);
      EmitNothing(Parse(s, next));
    }
  }

  lemma BareTurn(s: string, start: nat, text: string, next: nat)
    requires Sound(Bare(text)) && text != "" && At(s, start, text) && Followed(s, start, |text|, next)
    ensures OneTurn(s, start) == More([], next)
  {
    var e := start + |text|;
    AtChar(s, start, text);
    NoSemiAt(s, start, text, next);
    forall j | start <= j < e ensures s[j] != '=' { assert s[j] == s[start..e][j - start] == text[j - start]; }
    IndexFromSkips(s, start, '=', e);
  }

  lemma EmitNothing(o: Outcome)
    ensures Emit([], o) == o
  {
  }

  // ----- All pieces -----

  /** Too short a rest holds no setting. */
  lemma ShortRest(ps: seq<Piece>, closed: bool)
    requires (forall p :: p in ps ==> Sound(p)) && |Joined(ps, closed)| <= 1
    ensures Pairs(ps) == []
    decreases |ps|
  {
    if ps != [] {
      assert Sound(ps[0]);
      ShortRest(ps[1..], closed);
    }
  }

  lemma PartsAt(s: string, start: nat, text: string, semi: string, rest: string, next: nat)
    requires At(s, start, text + (semi + rest)) && next == start + |text| + |semi| && next + |rest| == |s|
    requires semi == ";" || (semi == "" && rest == "")
    ensures At(s, start, text) && Followed(s, start, |text|, next) && At(s, next, rest)
  {
    ThreeParts(s, start, text, semi, rest);
    if semi != "" { AtChar(s, start + |text|, semi); }
  }

  lemma ThreeParts(s: string, start: nat, a: string, b: string, c: string)
    requires At(s, start, a + (b + c))
    ensures At(s, start, a) && At(s, start + |a|, b) && At(s, start + |a| + |b|, c)
  {
    AtSplit(s, start, a, b + c);
    AtSplit(s, start + |a|, b, c);
  }

  lemma PieceParsed(s: string, start: nat, p: Piece, next: nat, rest: Outcome)
    requires Sound(p) && At(s, start, Text(p)) && Followed(s, start, |Text(p)|, next) && rest == Parse(s, next)
    requires p.Bracketed? && next + 1 >= |s| ==> rest == Outcome(true, [])
    ensures Parse(s, start) == Emit(PairOf(p), rest)
  {
    match p
    case Bracketed(key, value) =>
      BracketedTurn(s, start, key, value, next);
      EmitLast((key, Braced(value)));
    case Plain(key, value) => PlainTurn(s, start, key, value, next);
    case Bare(text) =>
      BareParse(s, start, text, next);
      EmitNothing(rest);
  }

  lemma EmitLast(pair: (string, string))
    ensures Emit([pair], Outcome(true, [])) == Outcome(true, [pair])
  {
  }

  lemma {:induction false} PiecesParsedFrom(s: string, start: nat, ps: seq<Piece>, closed: bool)
    requires forall p :: p in ps ==> Sound(p)
    requires At(s, start, Joined(ps, closed)) && start + |Joined(ps, closed)| == |s|
    ensures Parse(s, start) == Outcome(true, Pairs(ps))
    decreases |ps|
  {
    if ps == [] {
      assert OneTurn(s, start) == Last([], true);
    } else {
      var text, semi, rest := Text(ps[0]), if |ps| > 1 || closed then ";" else "", Joined(ps[1..], closed);
      var next := start + |text| + |semi|;
      assert Sound(ps[0]);
      PartsAt(s, start, text, semi, rest, next);
      PiecesParsedFrom(s, next, ps[1..], closed);
      if next + 1 >= |s| { ShortRest(ps[1..], closed); }
      PieceParsed(s, start, ps[0], next, Outcome(true, Pairs(ps[1..])));
    }
  }

  /** Every list of settings, with braces or without, is read as these pairs in order, whatever bare tokens and empty
      ones stand between them, and with or without a last semicolon. */
  lemma PiecesParsed(ps: seq<Piece>, closed: bool)
    requires forall p :: p in ps ==> Sound(p)
    ensures Parse(Joined(ps, closed), 0) == Outcome(true, Pairs(ps))
  {
    var s := Joined(ps, closed);
    assert s[0..|s|] == s;
    PiecesParsedFrom(s, 0, ps, closed);
  }

  // ----- Brace errors -----

  lemma EmitBoth(a: seq<(string, string)>, b: seq<(string, string)>, o: Outcome)
    ensures Emit(a, Emit(b, o)) == Emit(a + b, o)
  {
    assert a + (b + o.pairs) == (a + b) + o.pairs;
  }

  /** Closed pieces in front of anything are read first. */
  lemma {:induction false} PrefixParsed(s: string, start: nat, ps: seq<Piece>, next: nat)
    requires forall p :: p in ps ==> Sound(p)
    requires At(s, start, Joined(ps, true)) && next == start + |Joined(ps, true)| && next + 1 < |s|
    ensures Parse(s, start) == Emit(Pairs(ps), Parse(s, next))
    decreases |ps|
  {
    if ps == [] {
      EmitNothing(Parse(s, next));
    } else {
      var text, rest := Text(ps[0]), Joined(ps[1..], true);
      var e := start + |text|;
      assert Sound(ps[0]);
      AtSplit(s, start, text, ";" + rest);
      AtSplit(s, e, ";", rest);
      AtChar(s, e, ";");
      PrefixParsed(s, e + 1, ps[1..], next);
      PieceParsed(s, start, ps[0], e + 1, Parse(s, e + 1));
      EmitBoth(PairOf(ps[0]), Pairs(ps[1..]), Parse(s, next));
    }
  }

  /** Behind a doubled text: no closing bracket, or one with further text behind it. */
  predicate Unbalanced(z: string) {
    z != "" && ('}' !in z || (z[0] == '}' && |z| > 1 && z[1] != '}' && z[1] != ';'))
  }

  lemma UnbalancedIsBroken(s: string, i: nat, z: string)
    requires Unbalanced(z) && At(s, i, z) && i + |z| == |s|
    ensures FindEnding(s, i) == Broken && IndexFrom(s, i, '}') == if '}' in z then i else |s|
  {
    if '}' in z {
      AtChar(s, i, z);
    } else {
      forall j | i <= j < |s| ensures s[j] != '}' { assert s[j] == s[i..i + |z|][j - i] == z[j - i]; }
      IndexFromIs(s, i, '}', |s|);
    }
  }

  /** The first bracket of a broken value does not stand in front of its first semicolon. */
  lemma BrokenTurn(s: string, start: nat, v: nat)
    requires start < v < |s| && s[v] == '{' && FindEnding(s, v) == Broken
    ensures ValueTurn(s, start, v, IndexFrom(s, v, ';')) ==
            if IndexFrom(s, v, ';') == |s| then Last([(s[start..v - 1], s[v..])], true) else Last([], false)
  {
    var e := IndexFrom(s, v, ';');
    assert e > v;
  }

  lemma SemiInRest(s: string, v: nat)
    requires v <= |s|
    ensures IndexFrom(s, v, ';') < |s| <==> ';' in s[v..]
  {
    if IndexFrom(s, v, ';') < |s| { assert s[v..][IndexFrom(s, v, ';') - v] == ';'; }
    if ';' in s[v..] {
      var j :| 0 <= j < |s[v..]| && s[v..][j] == ';';
      IndexFromFirst(s, v, ';', v + j);
    }
  }

  /** The text of a value that is not closed properly. */
  function Unclosed(w: string, z: string): string {
    ("{" + Doubled(w)) + z
  }

  lemma UnclosedTurn(s: string, start: nat, key: string, w: string, z: string)
    requires ValidKey(key) && Unbalanced(z) && At(s, start, key + "=" + Unclosed(w, z))
    requires start + |key + "=" + Unclosed(w, z)| == |s|
    ensures OneTurn(s, start) ==
            if ';' in Unclosed(w, z) then Last([], false) else Last([(key, Unclosed(w, z))], true)
  {
    var value, v := Unclosed(w, z), start + |key| + 1;
    KeyAt(s, start, key, value);
    KeyFound(s, start, key, v);
    assert s[v..] == value;
    SemiInRest(s, v);
    UnclosedIsBroken(s, v, w, z);
    BrokenTurn(s, start, v);
  }

  lemma UnclosedIsBroken(s: string, v: nat, w: string, z: string)
    requires Unbalanced(z) && At(s, v, Unclosed(w, z)) && v + |Unclosed(w, z)| == |s|
    ensures s[v] == '{' && FindEnding(s, v) == Broken
  {
    var open := "{" + Doubled(w);
    var k := v + |open|;
    AtSplit(s, v, open, z);
    BracketAt(s, v, w);
    UnbalancedIsBroken(s, k, z);
  }

  /** A value that opens with a brace and is not closed, or has text behind its closing bracket, is an error if and
      only if a semicolon follows somewhere; the settings in front of it have been taken. */
  lemma BraceError(ps: seq<Piece>, key: string, w: string, z: string)
    requires (forall p :: p in ps ==> Sound(p)) && ValidKey(key) && Unbalanced(z)
    ensures Parse(Joined(ps, true) + (key + "=" + Unclosed(w, z)), 0) ==
            if ';' in Unclosed(w, z) then Outcome(false, Pairs(ps))
            else Outcome(true, Pairs(ps) + [(key, Unclosed(w, z))])
  {
    var front, last := Joined(ps, true), key + "=" + Unclosed(w, z);
    var s := front + last;
    assert At(s, 0, front + last) by { assert s[0..|s|] == s; }
    AtSplit(s, 0, front, last);
    PrefixParsed(s, 0, ps, |front|);
    UnclosedTurn(s, |front|, key, w, z);
    TurnParsed(s, |front|);
    EmitOnto(Pairs(ps), OneTurn(s, |front|));
  }

  lemma EmitOnto(pairs: seq<(string, string)>, t: Turn)
    requires t.Last?
    ensures Emit(pairs, Outcome(t.ok, t.pairs)) == Outcome(t.ok, pairs + t.pairs)
    ensures t.pairs == [] ==> pairs + t.pairs == pairs
  {
  }

  // ----- One character behind the last value -----

  /** The first closing bracket of a doubled text with a bracket behind it: it is doubled, or it is the one behind. */
  lemma {:induction false} FirstBracket(s: string, i: nat, w: string)
    requires At(s, i, Doubled(w) + "}")
    ensures var p := IndexFrom(s, i, '}');
            if '}' in w then p + 1 < |s| && s[p + 1] == '}' else p == i + |Doubled(w)| == i + |w|
    decreases |w|
  {
    if w == "" {
      assert Doubled(w) + "}" == "}";
      AtChar(s, i, "}");
    } else {
      var unit := if w[0] == '}' then "}}" else [w[0]];
      var rest := Doubled(w[1..]) + "}";
      assert Doubled(w) + "}" == unit + rest;
      AtSplit(s, i, unit, rest);
      AtChar(s, i, unit);
      if w[0] != '}' { FirstBracket(s, i + 1, w[1..]); }
    }
  }

  lemma {:induction false} DoubledNone(w: string)
    requires '}' !in w
    ensures Doubled(w) == w
  {
    if w != "" { DoubledNone(w[1..]); }
  }

  /** A value without brackets stands in the string as it is. */
  lemma PlainInside(s: string, v: nat, value: string, c: nat)
    requires '}' !in value && At(s, v, Braced(value)) && c == v + |Braced(value)| - 1
    ensures c == v + 1 + |value| && s[v] == '{' && s[c] == '}'
    ensures forall j :: 0 <= j < |value| ==> s[v + 1 + j] == value[j]
  {
    DoubledNone(value);
    assert Braced(value) == "{" + (value + "}");
    ThreeParts(s, v, "{", value, "}");
    AtChar(s, v, "{");
    AtChar(s, c, "}");
    forall j | 0 <= j < |value| ensures s[v + 1 + j] == value[j] { assert s[v + 1..c][j] == value[j]; }
  }

  lemma FirstSemicolon(s: string, v: nat, value: string, c: nat)
    requires '}' !in value && At(s, v, Braced(value)) && c == v + |Braced(value)| - 1
    requires c + 1 < |s| && s[c + 1] == ';'
    ensures IndexFrom(s, v, ';') == c + 1 <==> ';' !in value
  {
    PlainInside(s, v, value, c);
    if ';' in value {
      var j :| 0 <= j < |value| && value[j] == ';';
      IndexFromFirst(s, v, ';', v + 1 + j);
    } else {
      forall q | v <= q < c + 1 ensures s[q] != ';' { if v < q < c { assert s[q] == value[q - v - 1]; } }
      IndexFromIs(s, v, ';', c + 1);
    }
  }

  lemma BracketInside(s: string, v: nat, value: string, c: nat)
    requires At(s, v, Braced(value)) && c == v + |Braced(value)| - 1
    ensures var p := IndexFrom(s, v, '}'); if '}' in value then p + 1 < |s| && s[p + 1] == '}' else p == c
  {
    assert Braced(value) == "{" + (Doubled(value) + "}");
    AtSplit(s, v, "{", Doubled(value) + "}");
    AtChar(s, v, "{");
    FirstBracket(s, v + 1, value);
    assert IndexFrom(s, v, '}') == IndexFrom(s, v + 1, '}');
  }

  /** Does the first bracket stand in front of the first semicolon? Only if the value holds neither. */
  lemma FirstBracketIff(s: string, v: nat, value: string, c: nat)
    requires At(s, v, Braced(value)) && c == v + |Braced(value)| - 1 && c + 1 < |s| && s[c + 1] == ';'
    ensures IndexFrom(s, v, '}') + 1 == IndexFrom(s, v, ';') <==> '}' !in value && ';' !in value
  {
    BracketInside(s, v, value, c);
    IndexFromFirst(s, v, ';', c + 1);
    if '}' !in value { FirstSemicolon(s, v, value, c); }
  }

  lemma LoneString(s: string, key: string, value: string, v: nat, c: nat)
    requires ValidKey(key) && s == key + "=" + (Braced(value) + ";=")
    requires v == |key| + 1 && c == v + |Braced(value)| - 1
    ensures ValueAt(s, 0, key, v) && At(s, v, Braced(value))
    ensures c + 3 == |s| && s[c + 1] == ';' && s[c + 2] == '='
  {
    assert At(s, 0, s) by { assert s[0..|s|] == s; }
    KeyAt(s, 0, key, Braced(value) + ";=");
    AtSplit(s, v, Braced(value), ";=");
    AtChar(s, c + 1, ";=");
  }

  /** A single equals sign behind the last value is a setting without key and value, unless the loop has already ended:
      it does so one character early behind a value that holds a semicolon or a closing bracket. */
  lemma LoneEquals(key: string, value: string)
    requires ValidKey(key)
    ensures Parse(key + "=" + (Braced(value) + ";="), 0) ==
            Outcome(true, [(key, Braced(value))] + if '}' in value || ';' in value then [] else [("", "")])
  {
    var s, v := key + "=" + (Braced(value) + ";="), |key| + 1;
    var c := v + |Braced(value)| - 1;
    LoneString(s, key, value, v, c);
    LoneAt(s, key, value, v, c);
  }

  lemma LoneAt(s: string, key: string, value: string, v: nat, c: nat)
    requires ValueAt(s, 0, key, v) && At(s, v, Braced(value)) && c == v + |Braced(value)| - 1
    requires c + 3 == |s| && s[c + 1] == ';' && s[c + 2] == '='
    ensures Parse(s, 0) ==
            Outcome(true, [(key, Braced(value))] + if '}' in value || ';' in value then [] else [("", "")])
  {
    LoneFirst(s, key, value, v, c);
    LastEquals(s, c + 2);
    LoneParsed(s, (key, Braced(value)), '}' in value || ';' in value, c + 2);
  }

  lemma LoneFirst(s: string, key: string, value: string, v: nat, c: nat)
    requires ValueAt(s, 0, key, v) && At(s, v, Braced(value)) && c == v + |Braced(value)| - 1
    requires c + 3 == |s| && s[c + 1] == ';'
    ensures var pair := (key, Braced(value));
            OneTurn(s, 0) == if '}' in value || ';' in value then Last([pair], true) else More([pair], c + 2)
  {
    KeyFound(s, 0, key, v);
    BracketedCloses(s, v, value, c);
    FirstBracketIff(s, v, value, c);
    LoneTurn(s, v, c);
  }

  lemma LoneParsed(s: string, pair: (string, string), last: bool, n: nat)
    requires n <= |s| && OneTurn(s, 0) == (if last then Last([pair], true) else More([pair], n))
    requires Parse(s, n) == Outcome(true, [("", "")])
    ensures Parse(s, 0) == Outcome(true, [pair] + if last then [] else [("", "")])
  {
    TurnParsed(s, 0);
    assert [pair] + [] == [pair];
  }

  lemma TurnParsed(s: string, pos: nat)
    requires pos <= |s|
    ensures var t := OneTurn(s, pos);
            && (t.Last? ==> Parse(s, pos) == Outcome(t.ok, t.pairs))
            && (t.More? ==> Parse(s, pos) == Emit(t.pairs, Parse(s, t.next)))
  {
  }

  lemma LoneTurn(s: string, v: nat, c: nat)
    requires 1 < v && ClosesAt(s, v, c) && c + 3 == |s|
    ensures var pair := (s[0..v - 1], s[v..c + 1]);
            ValueTurn(s, 0, v, IndexFrom(s, v, ';')) ==
            if IndexFrom(s, v, '}') + 1 == IndexFrom(s, v, ';') then More([pair], c + 2) else Last([pair], true)
  {
    var e := IndexFrom(s, v, ';');
    assert e > v;
    IndexFromFirst(s, v, ';', c + 1);
    if IndexFrom(s, v, '}') + 1 == e { assert FindEnding(s, v) == Closed(e - 1); }
  }

  lemma LastEquals(s: string, i: nat)
    requires i + 1 == |s| && s[i] == '='
    ensures Parse(s, i) == Outcome(true, [("", "")])
  {
    assert IndexFrom(s, i, ';') == i + 1 && IndexFrom(s, i, '=') == i;
    assert s[i..i] == "" && s[i + 1..i + 1] == "";
    assert OneTurn(s, i) == More([("", "")], i + 1);
    assert OneTurn(s, i + 1) == Last([], true);
  }
}
