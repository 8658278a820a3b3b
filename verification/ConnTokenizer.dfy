/** The in-place tokenizer of drvconn.c and the writer of dlg_specific.c. The tokenizer cuts a copy of
    the string with terminators, as strtok_r does, and repairs cuts made inside braces; on every
    NUL-free string it yields what ConnString.Parse reads from the unchanged string. */
module ConnTokenizer {
  import opened ConnString
  import opened CharBuffer

  /** `a` is the copy of `s`, unchanged and terminated from `lo` on. */
  ghost predicate Intact(a: array<char>, s: string, lo: int)
    reads a
  {
    a.Length == |s| + 1 && a[|s|] == '\0' && '\0' !in s
    && forall j :: lo <= j < |s| && 0 <= j ==> a[j] == s[j]
  }

  /** The same, but with a terminator at `cut`. */
  ghost predicate CutAt(a: array<char>, s: string, lo: int, cut: int)
    reads a
  {
    a.Length == |s| + 1 && a[|s|] == '\0' && '\0' !in s
    && 0 <= lo <= cut < |s| && a[cut] == '\0'
    && forall j :: lo <= j < |s| && j != cut ==> a[j] == s[j]
  }

  /** strchr: index of the first `c` at or after `i` and before the next terminator, or -1. */
  method StrChr(a: array<char>, i: nat, c: char) returns (r: int)
    requires i < a.Length && a[a.Length - 1] == '\0' && c != '\0'
    ensures -1 <= r < a.Length - 1
    ensures r >= 0 ==> i <= r && a[r] == c && forall j :: i <= j < r ==> a[j] != c && a[j] != '\0'
    ensures r < 0 ==>
              exists k :: i <= k < a.Length && a[k] == '\0' && forall j :: i <= j < k ==> a[j] != c && a[j] != '\0'
  {
    var k := i;
    while a[k] != '\0'
      invariant i <= k < a.Length
      invariant forall j :: i <= j < k ==> a[j] != c && a[j] != '\0'
      decreases a.Length - k
    {
      if a[k] == c { return k; }
      k := k + 1;
    }
    r := -1;
  }

  /** The C string at `i`. */
  method CString(a: array<char>, i: nat, ghost end: nat) returns (t: string)
    requires i <= end < a.Length && a[end] == '\0' && forall j :: i <= j < end ==> a[j] != '\0'
    ensures t == a[i..end]
  {
    var k := i;
    while a[k] != '\0'
      invariant i <= k <= end
      decreases end - k
    {
      k := k + 1;
    }
    t := a[i..k];
  }

  /** strtok_r with the delimiter `;`: skips delimiters, cuts the token and returns its start (or -1)
      and the position to resume at. */
  method StrTok(a: array<char>, s: string, from: nat) returns (start: int, last: nat)
    requires Intact(a, s, from) && from <= |s|
    modifies a
    ensures start < 0 ==> SkipDelims(s, from) == |s|
    ensures start >= 0 ==>
              && start == SkipDelims(s, from) < |s|
              && var e := IndexFrom(s, start, ';');
                 if e < |s| then CutAt(a, s, start, e) && last == e + 1 else Intact(a, s, start) && last == e
  {
    var i := from;
    while i < |s| && a[i] == ';'
      invariant from <= i <= |s|
      invariant SkipDelims(s, from) == SkipDelims(s, i)
    {
      i := i + 1;
    }
    last := i;
    if a[i] == '\0' { return -1, i; }
    start := i;
    while a[i] != '\0' && a[i] != ';'
      invariant start <= i <= |s|
      invariant IndexFrom(s, start, ';') == IndexFrom(s, i, ';')
      decreases |s| - i
    {
      i := i + 1;
    }
    last := i;
    if a[i] != '\0' {
      a[i] := '\0';
      last := i + 1;
    }
  }

  /** What strchr finds in an uncut string is the first occurrence. */
  lemma FoundIntact(a: array<char>, s: string, lo: nat, i: nat, c: char, r: int)
    requires Intact(a, s, lo) && lo <= i <= |s| && c != '\0' && -1 <= r < |s|
    requires r >= 0 ==> i <= r && a[r] == c && forall j :: i <= j < r ==> a[j] != c
    requires r < 0 ==> exists k :: i <= k <= |s| && a[k] == '\0' && forall j :: i <= j < k ==> a[j] != c && a[j] != '\0'
    ensures IndexFrom(s, i, c) == if r < 0 then |s| else r
  {
    if r < 0 {
      var k :| i <= k <= |s| && a[k] == '\0' && forall j :: i <= j < k ==> a[j] != c && a[j] != '\0';
      assert k == |s|;
      IndexFromIs(s, i, c, |s|);
    } else {
      IndexFromIs(s, i, c, r);
    }
  }

  /** In a cut string it is the first occurrence too, or there is none before the cut. */
  lemma FoundCut(a: array<char>, s: string, lo: nat, cut: nat, i: nat, c: char, r: int)
    requires CutAt(a, s, lo, cut) && lo <= i <= cut && c != '\0' && s[cut] != c && -1 <= r < |s|
    requires r >= 0 ==> i <= r && a[r] == c && forall j :: i <= j < r ==> a[j] != c && a[j] != '\0'
    requires r < 0 ==> exists k :: i <= k <= |s| && a[k] == '\0' && forall j :: i <= j < k ==> a[j] != c && a[j] != '\0'
    ensures r >= 0 ==> r < cut && IndexFrom(s, i, c) == r
    ensures r < 0 ==> IndexFrom(s, i, c) == IndexFrom(s, cut + 1, c)
  {
    if r < 0 {
      var k :| i <= k <= |s| && a[k] == '\0' && forall j :: i <= j < k ==> a[j] != c && a[j] != '\0';
      assert k == cut;
      IndexFromSkips(s, i, c, cut + 1);
    } else {
      assert r < cut;
      IndexFromIs(s, i, c, r);
    }
  }

  lemma NoneBehind(a: array<char>, s: string, lo: nat, cut: nat, c: char)
    requires CutAt(a, s, lo, cut) && c != '\0'
    requires exists k :: cut + 1 <= k <= |s| && a[k] == '\0' &&
                         forall j :: cut + 1 <= j < k ==> a[j] != c && a[j] != '\0'
    ensures IndexFrom(s, cut + 1, c) == |s|
  {
    var k :| cut + 1 <= k <= |s| && a[k] == '\0' && forall j :: cut + 1 <= j < k ==> a[j] != c && a[j] != '\0';
    assert k == |s|;
    IndexFromIs(s, cut + 1, c, |s|);
  }

  /** The text from `lo` on is intact, except for a terminator at `delp` if that is not negative. */
  ghost predicate Kept(a: array<char>, s: string, lo: nat, delp: int)
    reads a
  {
    if delp < 0 then Intact(a, s, lo) else CutAt(a, s, lo, delp)
  }

  /** The next closing bracket from `valuen` on; a cut in the way is undone. */
  method NextBracket(a: array<char>, s: string, value: nat, valuen: nat, delp: int) returns (closep: int, delp': int)
    requires Kept(a, s, value, delp) && value <= valuen < |s|
    requires delp < 0 || (valuen < delp && s[delp] == ';')
    modifies a
    ensures delp' == delp || delp' == -1
    ensures closep < 0 ==> IndexFrom(s, valuen, '}') == |s|
    ensures closep >= 0 ==>
              && closep == IndexFrom(s, valuen, '}') < |s| && Kept(a, s, value, delp')
              && (delp' >= 0 ==> closep < delp')
  {
    delp' := delp;
    closep := StrChr(a, valuen, '}');
    if delp < 0 {
      FoundIntact(a, s, value, valuen, '}', closep);
      return;
    }
    FoundCut(a, s, value, delp, valuen, '}', closep);
    if closep >= 0 { return; }
    closep := StrChr(a, delp + 1, '}');
    if closep < 0 {
      NoneBehind(a, s, value, delp, '}');
      return;
    }
    IndexFromIs(s, delp + 1, '}', closep);
    a[delp] := ';';
    delp' := -1;
  }

  /** The repair loop: the value at `value` was cut at `e` although its closing bracket may lie
      further on. */
  method Repair(a: array<char>, s: string, value: nat, e: nat) returns (r: Ending)
    requires CutAt(a, s, value, e) && value < e && s[e] == ';' && forall j :: value <= j < e ==> s[j] != ';'
    modifies a
    ensures r == FindEnding(s, value)
    ensures r.RunsOff? ==> Intact(a, s, value)
    ensures r.Closed? ==> Kept(a, s, value, if r.c + 1 < |s| then r.c + 1 else -1)
  {
    var n := |s|;
    var valuen: nat, delp: int := value, e;
    while valuen < n
      invariant value <= valuen < n
      invariant delp == -1 || (delp == e && valuen < e)
      invariant Kept(a, s, value, delp)
      invariant FindEnding(s, valuen) == FindEnding(s, value)
      decreases n - valuen
    {
      var closep: int;
      closep, delp := NextBracket(a, s, value, valuen, delp);
      if closep < 0 { return Broken; }
      if a[closep + 1] == '}' {
        valuen := closep + 2;
        if valuen >= n { return RunsOff; }
        if valuen == delp {
          a[delp] := ';';
          delp := -1;
        }
      } else if a[closep + 1] == ';' || a[closep + 1] == '\0' || delp == closep + 1 {
        a[closep + 1] := '\0';
        return Closed(closep);
      } else {
        return Broken;
      }
    }
    assert false;
  }

  /** A value that opens with a brace and was cut at a delimiter: finds its real end. */
  method EndOfBraced(a: array<char>, s: string, v: nat, e: nat) returns (r: Ending, repaired: bool)
    requires CutAt(a, s, v, e) && v < e && s[v] == '{' && s[e] == ';' && forall j :: v <= j < e ==> s[j] != ';'
    modifies a
    ensures repaired == (IndexFrom(s, v, '}') + 1 != e)
    ensures r == if repaired then FindEnding(s, v) else Closed(e - 1)
    ensures r.RunsOff? ==> Intact(a, s, v)
    ensures r.Closed? ==> v <= r.c < |s| && Kept(a, s, v, if r.c + 1 < |s| then r.c + 1 else -1)
  {
    var closep := StrChr(a, v, '}');
    FoundCut(a, s, v, e, v, '}', closep);
    if closep >= 0 && a[closep + 1] == '\0' { return Closed(closep), false; }
    r := Repair(a, s, v, e);
    repaired := true;
  }

  /** A value that opens with a brace and was cut at a delimiter. */
  method TakeBraced(a: array<char>, s: string, ghost start: nat, v: nat, e: nat, last: nat)
    returns (ok: bool, text: string, next: nat, eof: bool)
    requires start < v < e < |s| && s[v] == '{' && s[e] == ';' && (forall j :: start <= j < e ==> s[j] != ';')
    requires Kept(a, s, v, e) && last == e + 1
    modifies a
    ensures ValueTurn(s, start, v, e) ==
            if !ok then Last([], false)
            else if eof then Last([(s[start..v - 1], text)], true)
            else More([(s[start..v - 1], text)], next)
    ensures ok && !eof ==> Intact(a, s, next)
  {
    ok, text, next, eof := true, "", last, false;
    var r, repaired := EndOfBraced(a, s, v, e);
    match r {
      case Broken => ok := false;
      case RunsOff =>
        text := CString(a, v, |s|);
        assert text == s[v..];
      case Closed(c) =>
        text := CString(a, v, c + 1);
        assert text == s[v..c + 1];
        if repaired {
          next := c + 2;
          eof := next + 1 >= |s|;
        }
    }
  }

  /** Takes the value at `v` of the token [start, e); `next` is where strtok goes on, `eof` that it
      does not. */
  method TakeValue(a: array<char>, s: string, ghost start: nat, v: nat, e: nat, last: nat)
    returns (ok: bool, text: string, next: nat, eof: bool)
    requires start < v <= e <= |s| && (e < |s| ==> s[e] == ';') && (forall j :: start <= j < e ==> s[j] != ';')
    requires Kept(a, s, v, if e < |s| then e else -1) && last == (if e < |s| then e + 1 else e)
    modifies a
    ensures ValueTurn(s, start, v, e) ==
            if !ok then Last([], false)
            else if eof then Last([(s[start..v - 1], text)], true)
            else More([(s[start..v - 1], text)], next)
    ensures ok && !eof ==> Intact(a, s, next)
  {
    ok, text, next, eof := true, "", last, false;
    if a[v] != '{' {
      text := CString(a, v, e);
      assert text == s[v..e];
    } else if e >= |s| {
      text := CString(a, v, |s|);
      assert text == s[v..];
      eof := true;
    } else {
      ok, text, next, eof := TakeBraced(a, s, start, v, e, last);
    }
  }

  /** The end of the C string at `i`. */
  method StrEnd(a: array<char>, i: nat) returns (k: nat)
    requires i < a.Length && a[a.Length - 1] == '\0'
    ensures i <= k < a.Length && a[k] == '\0' && forall j :: i <= j < k ==> a[j] != '\0'
  {
    k := i;
    while a[k] != '\0'
      invariant i <= k < a.Length
      invariant forall j :: i <= j < k ==> a[j] != '\0'
      decreases a.Length - k
    {
      k := k + 1;
    }
  }

  lemma EqualsFound(a: array<char>, s: string, start: nat, e: nat, r: int)
    requires Kept(a, s, start, if e < |s| then e else -1) && start <= e <= |s| && (e < |s| ==> s[e] == ';')
    requires -1 <= r < |s|
    requires r >= 0 ==> start <= r && a[r] == '=' && forall j :: start <= j < r ==> a[j] != '=' && a[j] != '\0'
    requires r < 0 ==>
               exists k :: start <= k <= |s| && a[k] == '\0' &&
                           forall j :: start <= j < k ==> a[j] != '=' && a[j] != '\0'
    ensures if r >= 0 then r == IndexFrom(s, start, '=') < e else IndexFrom(s, start, '=') >= e
  {
    if e < |s| { FoundCut(a, s, start, e, start, '=', r); } else { FoundIntact(a, s, start, start, '=', r); }
  }

  lemma EndFound(a: array<char>, s: string, lo: nat, e: nat, k: nat)
    requires Kept(a, s, lo, if e < |s| then e else -1) && lo <= e <= |s|
    requires lo <= k <= |s| && a[k] == '\0' && forall j :: lo <= j < k ==> a[j] != '\0'
    ensures k == e
  {
  }

  /** One turn of the loop of dconn_get_attributes. The position it goes on at is either the restart
      argument left by the repair or the position strtok_r has saved. */
  method TakeTurn(a: array<char>, s: string, from: nat) returns (t: Turn)
    requires Intact(a, s, from) && from <= |s|
    modifies a
    ensures t == OneTurn(s, from)
    ensures t.More? ==> Intact(a, s, t.next)
  {
    var start, last := StrTok(a, s, from);
    if start < 0 { return Last([], true); }
    ghost var cut := IndexFrom(s, start, ';');
    var equals := StrChr(a, start, '=');
    EqualsFound(a, s, start, cut, equals);
    if equals < 0 { return More([], last); }
    IndexFromNoneBefore(s, start, ';');
    t := TakePair(a, s, start, equals, cut, last);
  }

  /** The token [start, cut) has an equals sign. */
  method TakePair(a: array<char>, s: string, start: nat, equals: nat, ghost cut: nat, last: nat) returns (t: Turn)
    requires start <= equals < cut <= |s| && (cut < |s| ==> s[cut] == ';')
    requires forall j :: start <= j < cut ==> s[j] != ';'
    requires Kept(a, s, start, if cut < |s| then cut else -1) && last == (if cut < |s| then cut + 1 else cut)
    modifies a
    ensures t == ValueTurn(s, start, equals + 1, cut)
    ensures t.More? ==> Intact(a, s, t.next)
  {
    a[equals] := '\0';
    var attribute := CString(a, start, equals);
    assert attribute == s[start..equals];
    assert Kept(a, s, equals + 1, if cut < |s| then cut else -1);
    var e := StrEnd(a, equals + 1);
    EndFound(a, s, equals + 1, cut, e);
    var ok, text, next, eof := TakeValue(a, s, start, equals + 1, e, last);
    t := if !ok then Last([], false)
         else if eof then Last([(attribute, text)], true)
         else More([(attribute, text)], next);
  }

  lemma TurnTaken(s: string, pos: nat, pairs: seq<(string, string)>, t: Turn, whole: Outcome)
    requires pos <= |s| && t == OneTurn(s, pos) && Emit(pairs, Parse(s, pos)) == whole
    ensures t.Last? ==> Outcome(t.ok, pairs + t.pairs) == whole
    ensures t.More? ==> pos < t.next <= |s| && Emit(pairs + t.pairs, Parse(s, t.next)) == whole
  {
    if t.More? { assert pairs + (t.pairs + Parse(s, t.next).pairs) == pairs + t.pairs + Parse(s, t.next).pairs; }
  }

  /** dconn_get_attributes: `ok` is its result, `pairs` the attribute-value calls it makes. */
  method GetAttributes(connect: string) returns (ok: bool, pairs: seq<(string, string)>)
    requires '\0' !in connect
    ensures Outcome(ok, pairs) == Parse(connect, 0)
  {
    var n := |connect|;
    var a := new char[n + 1](i requires 0 <= i => if i < n then connect[i] else '\0');
    ok, pairs := true, [];
    var pos, more := 0, true;
    while more
      invariant 0 <= pos <= n
      invariant more ==> ok && Intact(a, connect, pos) && Emit(pairs, Parse(connect, pos)) == Parse(connect, 0)
      invariant !more ==> Outcome(ok, pairs) == Parse(connect, 0)
      decreases more, n - pos
    {
      var t := TakeTurn(a, connect, pos);
      TurnTaken(connect, pos, pairs, t, Parse(connect, 0));
      pairs := pairs + t.pairs;
      if t.Last? {
        ok, more := t.ok, false;
      } else {
        pos := t.next;
      }
    }
  }

  lemma {:induction false} DoubledAppend(v: string, c: char)
    ensures Doubled(v + [c]) == Doubled(v) + (if c == '}' then "}}" else [c])
    decreases |v|
  {
    if v == "" {
      assert v + [c] == [c] && [c][1..] == "";
    } else {
      assert (v + [c])[1..] == v[1..] + [c];
      DoubledAppend(v[1..], c);
    }
  }

  lemma DoubledPrefix(v: string, i: nat)
    requires i < |v|
    ensures Doubled(v[..i + 1]) == Doubled(v[..i]) + (if v[i] == '}' then "}}" else [v[i]])
  {
    assert v[..i + 1] == v[..i] + [v[i]];
    DoubledAppend(v[..i], v[i]);
  }

  /** Copies a string into the buffer. */
  method PutAll(buf: array<char>, n: nat, t: string) returns (m: nat)
    requires n + |t| <= buf.Length
    modifies buf
    ensures m == n + |t| && buf[..m] == old(buf[..n]) + t
  {
    m := n;
    var i := 0;
    ghost var before := buf[..n];
    while i < |t|
      invariant 0 <= i <= |t| && m == n + i
      invariant buf[..m] == before + t[..i]
    {
      assert t[..i + 1] == t[..i] + [t[i]];
      m := Put(buf, m, t[i]);
      i := i + 1;
    }
    assert t[..i] == t;
  }

  lemma {:induction false} DoubledGrows(v: string, i: nat)
    requires i <= |v|
    ensures |Doubled(v[..i])| <= |Doubled(v)|
    decreases |v| - i
  {
    if i == |v| {
      assert v[..i] == v;
    } else {
      DoubledPrefix(v, i);
      DoubledGrows(v, i + 1);
    }
  }

  /** The first pass: how long the doubled value will be. */
  method CountDoubled(v: string) returns (len: nat)
    ensures len == |Doubled(v)|
  {
    len := 0;
    var i := 0;
    while i < |v|
      invariant 0 <= i <= |v| && len == |Doubled(v[..i])|
    {
      DoubledPrefix(v, i);
      if v[i] == '}' { len := len + 1; }
      len := len + 1;
      i := i + 1;
    }
    assert v[..|v|] == v;
  }

  /** The second pass. */
  method PutDoubled(buf: array<char>, n: nat, v: string) returns (m: nat)
    requires n + |Doubled(v)| <= buf.Length
    modifies buf
    ensures m == n + |Doubled(v)| && buf[..m] == old(buf[..n]) + Doubled(v)
  {
    m := n;
    var i := 0;
    ghost var before := buf[..n];
    while i < |v|
      invariant 0 <= i <= |v| && m == n + |Doubled(v[..i])| <= buf.Length
      invariant buf[..m] == before + Doubled(v[..i])
    {
      DoubledPrefix(v, i);
      DoubledGrows(v, i + 1);
      if v[i] == '}' { m := Put(buf, m, '}'); }
      m := Put(buf, m, v[i]);
      assert buf[..m] == before + Doubled(v[..i + 1]);
      i := i + 1;
    }
    assert v[..|v|] == v;
  }

  /** makeBracketConnectString: 30 bytes are reserved for the keyword and the punctuation, which the
      driver's keywords never exceed. */
  method MakeBracketConnectString(it: Item) returns (buf: array<char>, n: nat)
    requires |it.key| <= 25
    ensures n < buf.Length && buf[..n] == Written(it) && buf[n] == '\0'
  {
    var len := CountDoubled(it.value);
    buf := new char[len + 30];
    n := PutAll(buf, 0, it.key);
    n := PutAll(buf, n, "={");
    n := PutDoubled(buf, n, it.value);
    n := PutAll(buf, n, "};");
    assert it.key + "={" + Doubled(it.value) + "};" == Written(it);
    buf[n] := '\0';
  }
}
