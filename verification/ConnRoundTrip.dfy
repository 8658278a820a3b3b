/** Concatenated bracketed settings are read back item by item, and the braces come off again. */
module ConnRoundTrip {
  import opened ConnString
  import opened CharBuffer

  predicate At(s: string, i: nat, t: string) {
    i + |t| <= |s| && s[i..i + |t|] == t
  }

  lemma AtSplit(s: string, i: nat, a: string, b: string)
    requires At(s, i, a + b)
    ensures At(s, i, a) && At(s, i + |a|, b)
  {
    var t := a + b;
    assert s[i..i + |a|] == s[i..i + |t|][..|a|];
    assert s[i + |a|..i + |t|] == s[i..i + |t|][|a|..];
    assert t[..|a|] == a && t[|a|..] == b;
  }

  lemma AtChar(s: string, i: nat, t: string)
    requires At(s, i, t) && t != ""
    ensures s[i] == t[0] && (|t| > 1 ==> s[i + 1] == t[1])
  {
    assert s[i..i + |t|][0] == t[0];
    if |t| > 1 { assert s[i..i + |t|][1] == t[1]; }
  }

  lemma EndingSkips(s: string, i: nat)
    requires i < |s| && s[i] != '}'
    ensures FindEnding(s, i) == FindEnding(s, i + 1)
  {
    assert IndexFrom(s, i, '}') == IndexFrom(s, i + 1, '}');
  }

  /** From inside a doubled value the parser finds the bracket that closes it, whatever the value
      contains. */
  lemma {:induction false} EndingOfDoubled(s: string, i: nat, w: string)
    requires At(s, i, Doubled(w) + "};")
    ensures FindEnding(s, i) == Closed(i + |Doubled(w)|)
    decreases |w|
  {
    if w == "" {
      assert Doubled(w) + "};" == "};";
      AtChar(s, i, "};");
    } else {
      var unit := if w[0] == '}' then "}}" else [w[0]];
      var rest := Doubled(w[1..]) + "};";
      assert Doubled(w) + "};" == unit + rest;
      AtSplit(s, i, unit, rest);
      AtChar(s, i, unit);
      EndingOfDoubled(s, i + |unit|, w[1..]);
      if w[0] == '}' {
        assert IndexFrom(s, i, '}') == i;
      } else {
        EndingSkips(s, i);
      }
    }
  }

  lemma KeyIsClean(s: string, start: nat, key: string)
    requires ValidKey(key) && At(s, start, key)
    ensures forall j :: start <= j < start + |key| ==> s[j] != ';' && s[j] != '='
  {
    forall j | start <= j < start + |key| ensures s[j] != ';' && s[j] != '=' {
      assert s[j] == s[start..start + |key|][j - start];
    }
  }

  /** The value of a written item: it opens with a brace and ends at the bracket before its `;`. */
  lemma BracedAt(s: string, v: nat, value: string)
    requires At(s, v, Braced(value) + ";")
    ensures At(s, v, Braced(value)) && s[v] == '{' && s[v + |Braced(value)|] == ';'
    ensures FindEnding(s, v) == Closed(v + |Braced(value)| - 1)
  {
    var braced := Braced(value);
    AtSplit(s, v, braced, ";");
    AtChar(s, v, braced);
    AtChar(s, v + |braced|, ";");
    assert braced + ";" == "{" + (Doubled(value) + "};");
    AtSplit(s, v, "{", Doubled(value) + "};");
    EndingOfDoubled(s, v + 1, value);
    EndingSkips(s, v);
  }

  /** The turn yields `pair` and goes on at `end`, or stops there because nothing is left. */
  predicate Yields(t: Turn, pair: (string, string), end: nat, length: nat) {
    t == More([pair], end) || (end == length && t == Last([pair], true))
  }

  lemma ParseAfter(s: string, pos: nat, pair: (string, string), end: nat)
    requires pos <= |s| && end <= |s| && Yields(OneTurn(s, pos), pair, end, |s|)
    ensures Parse(s, pos) == Emit([pair], Parse(s, end))
  {
    assert [pair] + [] == [pair];
    if end == |s| { assert OneTurn(s, end) == Last([], true); }
  }

  lemma WrittenPieces(s: string, start: nat, it: Item)
    requires At(s, start, Written(it))
    ensures var v := start + |it.key| + 1;
            At(s, start, it.key) && At(s, v, Braced(it.value) + ";") && s[v - 1] == '='
  {
    var braced := Braced(it.value) + ";";
    assert Written(it) == it.key + ("=" + braced);
    AtSplit(s, start, it.key, "=" + braced);
    AtSplit(s, start + |it.key|, "=", braced);
    AtChar(s, start + |it.key|, "=");
  }

  lemma BracedTurn(s: string, start: nat, v: nat, value: string, e: nat)
    requires start < v < e <= v + |Braced(value)| && At(s, v, Braced(value) + ";")
    requires s[e] == ';'
    requires |s| != v + |Braced(value)| + 2
    ensures var C := v + |Braced(value)| - 1;
            var pair := (s[start..v - 1], Braced(value));
            Yields(ValueTurn(s, start, v, e), pair, C + 2, |s|)
  {
    BracedAt(s, v, value);
    var C := v + |Braced(value)| - 1;
    if IndexFrom(s, v, '}') + 1 == e {
      assert FindEnding(s, v) == Closed(e - 1);
    }
    assert s[v..C + 1] == Braced(value);
  }

  lemma WrittenMarks(s: string, start: nat, it: Item)
    requires ValidKey(it.key) && At(s, start, Written(it))
    ensures var v := start + |it.key| + 1;
            && SkipDelims(s, start) == start && IndexFrom(s, start, '=') == v - 1 && s[start..v - 1] == it.key
            && v < IndexFrom(s, start, ';') <= v + |Braced(it.value)| < |s| && s[IndexFrom(s, start, ';')] == ';'
            && At(s, v, Braced(it.value) + ";")
  {
    var v := start + |it.key| + 1;
    WrittenPieces(s, start, it);
    BracedAt(s, v, it.value);
    KeyIsClean(s, start, it.key);
    IndexFromIs(s, start, '=', v - 1);
    IndexFromSkips(s, start, ';', v + 1);
    IndexFromFirst(s, v + 1, ';', v + |Braced(it.value)|);
  }

  lemma TurnAt(s: string, start: nat, v: nat, value: string)
    requires start < v < |s| && SkipDelims(s, start) == start && IndexFrom(s, start, '=') == v - 1
    requires v < IndexFrom(s, start, ';') <= v + |Braced(value)| < |s| && s[IndexFrom(s, start, ';')] == ';'
    requires At(s, v, Braced(value) + ";") && |s| != v + |Braced(value)| + 2
    ensures Yields(OneTurn(s, start), (s[start..v - 1], Braced(value)), v + |Braced(value)| + 1, |s|)
  {
    BracedTurn(s, start, v, value, IndexFrom(s, start, ';'));
  }

  lemma WrittenTurn(s: string, start: nat, it: Item)
    requires ValidKey(it.key) && At(s, start, Written(it))
    requires |s| != start + |Written(it)| + 1
    ensures Yields(OneTurn(s, start), (it.key, Braced(it.value)), start + |Written(it)|, |s|)
  {
    WrittenMarks(s, start, it);
    assert |Written(it)| == |it.key| + 1 + |Braced(it.value)| + 1;
    TurnAt(s, start, start + |it.key| + 1, it.value);
  }

  /** One written item is read as its key and its braced value, and reading goes on behind it. */
  lemma ParseWritten(s: string, start: nat, it: Item)
    requires ValidKey(it.key) && At(s, start, Written(it))
    requires |s| != start + |Written(it)| + 1
    ensures Parse(s, start) == Emit([(it.key, Braced(it.value))], Parse(s, start + |Written(it)|))
  {
    WrittenTurn(s, start, it);
    ParseAfter(s, start, (it.key, Braced(it.value)), start + |Written(it)|);
  }

  lemma WrittenAllStep(s: string, start: nat, items: seq<Item>)
    requires items != [] && At(s, start, WrittenAll(items)) && start + |WrittenAll(items)| == |s|
    ensures var next := start + |Written(items[0])|;
            && At(s, start, Written(items[0])) && |s| != next + 1
            && At(s, next, WrittenAll(items[1..])) && next + |WrittenAll(items[1..])| == |s|
  {
    AtSplit(s, start, Written(items[0]), WrittenAll(items[1..]));
    assert items[1..] != [] ==> |WrittenAll(items[1..])| > 1;
  }

  lemma EmitPair(pair: (string, string), o: Outcome, pairs: seq<(string, string)>)
    requires o == Outcome(true, pairs)
    ensures Emit([pair], o) == Outcome(true, [pair] + pairs)
  {
  }

  lemma {:induction false} ParseWrittenFrom(s: string, start: nat, items: seq<Item>)
    requires forall it :: it in items ==> ValidKey(it.key)
    requires At(s, start, WrittenAll(items)) && start + |WrittenAll(items)| == |s|
    ensures Parse(s, start) == Outcome(true, PairsOf(items))
    decreases |items|
  {
    if items == [] {
      assert OneTurn(s, start) == Last([], true);
    } else {
      var it, next := items[0], start + |Written(items[0])|;
      WrittenAllStep(s, start, items);
      ParseWrittenFrom(s, next, items[1..]);
      ParseWritten(s, start, it);
      EmitPair((it.key, Braced(it.value)), Parse(s, next), PairsOf(items[1..]));
    }
  }

  /** Every list of items with sound keys and arbitrary values is read back, in order. */
  lemma ParseWrittenAll(items: seq<Item>)
    requires forall it :: it in items ==> ValidKey(it.key)
    ensures Parse(WrittenAll(items), 0) == Outcome(true, PairsOf(items))
  {
    var s := WrittenAll(items);
    assert s[0..|s|] == s;
    ParseWrittenFrom(s, 0, items);
  }

  // ----- Taking the braces off -----

  /** Halves doubled closing braces. */
  function Undoubled(t: string): string
    decreases |t|
  {
    if t == "" then ""
    else if |t| > 1 && t[0] == '}' && t[1] == '}' then "}" + Undoubled(t[2..])
    else [t[0]] + Undoubled(t[1..])
  }

  lemma {:induction false} UndoubledDoubled(v: string)
    ensures Undoubled(Doubled(v)) == v
    decreases |v|
  {
    if v != "" {
      var rest := Doubled(v[1..]);
      UndoubledDoubled(v[1..]);
      if v[0] == '}' {
        assert Doubled(v)[2..] == rest;
      } else {
        assert Doubled(v)[1..] == rest;
      }
      assert [v[0]] + v[1..] == v;
    }
  }

  predicate Enclosed(text: string) {
    |text| > 1 && text[0] == '{' && text[|text| - 1] == '}'
  }

  /** What the copying from `i` on still yields. */
  function StillInside(text: string, i: nat): string
    requires Enclosed(text) && 1 <= i <= |text|
  {
    if i == |text| then "" else Undoubled(text[i..|text| - 1])
  }

  lemma StillStep(text: string, i: nat)
    requires Enclosed(text) && 1 <= i < |text| - 1
    ensures var j := if text[i] == '}' && text[i + 1] == '}' then i + 1 else i;
            StillInside(text, i) == [text[j]] + StillInside(text, j + 1)
  {
    var rest := text[i..|text| - 1];
    assert rest[1..] == text[i + 1..|text| - 1];
    if |rest| > 1 {
      assert rest[2..] == text[i + 2..|text| - 1];
    } else {
      assert Undoubled(rest) == [rest[0]] + "";
    }
  }

  lemma StillCopied(text: string, i: nat, done: string)
    requires Enclosed(text) && 1 <= i < |text| - 1
    ensures var j := if text[i] == '}' && text[i + 1] == '}' then i + 1 else i;
            (done + [text[j]]) + StillInside(text, j + 1) == done + StillInside(text, i)
  {
    var j := if text[i] == '}' && text[i + 1] == '}' then i + 1 else i;
    StillStep(text, i);
    Assoc(done, [text[j]], StillInside(text, j + 1));
  }

  /** One turn of the copying: of a doubled bracket, the second. */
  method CopyInside(text: string, istr: nat, out: array<char>, n: nat, ghost whole: string)
    returns (istr1: nat, n1: nat)
    requires Enclosed(text) && 1 <= istr < |text| - 1 && n < istr && out.Length == |text|
    requires out[..n] + StillInside(text, istr) == whole
    modifies out
    ensures istr < istr1 <= |text| && n1 == n + 1 && out[..n1] + StillInside(text, istr1) == whole
  {
    StillCopied(text, istr, out[..n]);
    istr1 := if text[istr] == '}' && text[istr + 1] == '}' then istr + 1 else istr;
    n1 := Put(out, n, text[istr1]);
    istr1 := istr1 + 1;
  }

  /** decode_or_remove_braces on an enclosed value, copying into a buffer of the input's length. */
  method RemoveBraces(text: string) returns (out: array<char>, n: nat)
    requires Enclosed(text)
    ensures n < out.Length == |text| && out[n] == '\0'
    ensures out[..n] == Undoubled(text[1..|text| - 1])
  {
    out := new char[|text|];
    n := 0;
    var eptr := |text| - 1;
    var istr := 1;
    while istr < eptr
      invariant 1 <= istr <= eptr + 1 && n < istr
      invariant out[..n] + StillInside(text, istr) == Undoubled(text[1..eptr])
    {
      istr, n := CopyInside(text, istr, out, n, Undoubled(text[1..eptr]));
    }
    out[n] := '\0';
  }

  /** The whole trip of one value: its braced form is enclosed, and the braces come off exactly. */
  lemma BracedComesBack(v: string)
    ensures Enclosed(Braced(v))
    ensures Undoubled(Braced(v)[1..|Braced(v)| - 1]) == v
  {
    assert Braced(v)[1..|Braced(v)| - 1] == Doubled(v);
    UndoubledDoubled(v);
  }
}
