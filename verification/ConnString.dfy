/** Reading connection strings: what drvconn.c's dconn_get_attributes makes of a string, as a parser
    over the unchanged string. The in-place tokenizer is in ConnTokenizer.dfy. */
module ConnString {

  /** Index of the first `c` at or after `i`, or the length of `s`. */
  function IndexFrom(s: string, i: nat, c: char): (r: nat)
    requires i <= |s|
    ensures i <= r <= |s|
    ensures r < |s| ==> s[r] == c
    decreases |s| - i
  {
    if i == |s| || s[i] == c then i else IndexFrom(s, i + 1, c)
  }

  lemma {:induction false} IndexFromIs(s: string, i: nat, c: char, r: nat)
    requires i <= r <= |s| && (r < |s| ==> s[r] == c) && (forall j :: i <= j < r ==> s[j] != c)
    ensures IndexFrom(s, i, c) == r
    decreases r - i
  {
    if i < r { IndexFromIs(s, i + 1, c, r); }
  }

  lemma {:induction false} IndexFromSkips(s: string, i: nat, c: char, k: nat)
    requires i <= k <= |s| && (forall j :: i <= j < k ==> s[j] != c)
    ensures IndexFrom(s, i, c) == IndexFrom(s, k, c)
    decreases k - i
  {
    if i < k { IndexFromSkips(s, i + 1, c, k); }
  }

  lemma {:induction false} IndexFromNoneBefore(s: string, i: nat, c: char)
    requires i <= |s|
    ensures forall j :: i <= j < IndexFrom(s, i, c) ==> s[j] != c
    decreases |s| - i
  {
    if i < |s| && s[i] != c { IndexFromNoneBefore(s, i + 1, c); }
  }

  lemma {:induction false} IndexFromFirst(s: string, i: nat, c: char, j: nat)
    requires i <= j < |s| && s[j] == c
    ensures IndexFrom(s, i, c) <= j
    decreases j - i
  {
    if i < j { IndexFromFirst(s, i + 1, c, j); }
  }

  /** Index of the first character at or after `i` that is not a delimiter. */
  function SkipDelims(s: string, i: nat): (r: nat)
    requires i <= |s|
    ensures i <= r <= |s|
    ensures r < |s| ==> s[r] != ';'
    decreases |s| - i
  {
    if i == |s| || s[i] != ';' then i else SkipDelims(s, i + 1)
  }

  datatype Outcome = Outcome(ok: bool, pairs: seq<(string, string)>)

  function Emit(pairs: seq<(string, string)>, o: Outcome): Outcome {
    Outcome(o.ok, pairs + o.pairs)
  }

  /** Where a value that opens with a brace ends. `Closed(c)`: at the bracket at `c`; `RunsOff`: the
      string ends with a doubled bracket; `Broken`: no closing bracket, or text after it. */
  datatype Ending = Closed(c: nat) | RunsOff | Broken

  function FindEnding(s: string, i: nat): (r: Ending)
    requires i <= |s|
    ensures r.Closed? ==> i <= r.c < |s| && s[r.c] == '}'
    decreases |s| - i
  {
    var c := IndexFrom(s, i, '}');
    if c == |s| then Broken
    else if c + 1 == |s| || s[c + 1] == ';' then Closed(c)
    else if s[c + 1] != '}' then Broken
    else if c + 2 == |s| then RunsOff
    else FindEnding(s, c + 2)
  }

  /** One turn of the tokenizer loop: the pairs it yields (at most one), and whether the loop goes on
      at a later position or ends, soundly or not. */
  datatype Turn = More(pairs: seq<(string, string)>, next: nat) | Last(pairs: seq<(string, string)>, ok: bool)

  /** The token [start, e) holds `attribute=value` with the value starting at `v`. */
  function ValueTurn(s: string, start: nat, v: nat, e: nat): (t: Turn)
    requires start < v <= e <= |s| && (e < |s| ==> s[e] == ';')
    ensures t.More? ==> start < t.next <= |s|
  {
    var attribute := s[start..v - 1];
    var next := if e < |s| then e + 1 else e;
    if v == e || s[v] != '{' then More([(attribute, s[v..e])], next)
    else if e == |s| then Last([(attribute, s[v..])], true)
    else if IndexFrom(s, v, '}') + 1 == e then More([(attribute, s[v..e])], next)
    else match FindEnding(s, v)
      case Broken => Last([], false)
      case RunsOff => More([(attribute, s[v..])], next)
      case Closed(c) =>
        var pair := (attribute, s[v..c + 1]);
        if c + 3 >= |s| then Last([pair], true) else More([pair], c + 2)
  }

  function OneTurn(s: string, pos: nat): (t: Turn)
    requires pos <= |s|
    ensures t.More? ==> pos < t.next <= |s|
  {
    var start := SkipDelims(s, pos);
    if start == |s| then Last([], true)
    else
      var e, eq := IndexFrom(s, start, ';'), IndexFrom(s, start, '=');
      if eq >= e then More([], if e < |s| then e + 1 else e)
      else ValueTurn(s, start, eq + 1, e)
  }

  /** The attribute-value pairs found from position `pos` on; braces are left on the values. */
  function Parse(s: string, pos: nat): Outcome
    requires pos <= |s|
    decreases |s| - pos
  {
    match OneTurn(s, pos)
    case Last(pairs, ok) => Outcome(ok, pairs)
    case More(pairs, next) => Emit(pairs, Parse(s, next))
  }

  // ----- Writing -----

  /** A value with every closing brace doubled. */
  function Doubled(v: string): string {
    if v == "" then "" else (if v[0] == '}' then "}}" else [v[0]]) + Doubled(v[1..])
  }

  function Braced(v: string): string {
    "{" + Doubled(v) + "}"
  }

  datatype Item = Item(key: string, value: string)

  function Written(it: Item): string {
    it.key + "=" + Braced(it.value) + ";"
  }

  function WrittenAll(items: seq<Item>): string {
    if items == [] then "" else Written(items[0]) + WrittenAll(items[1..])
  }

  /** The reader's view of a list of items. */
  function PairsOf(items: seq<Item>): seq<(string, string)> {
    if items == [] then [] else [(items[0].key, Braced(items[0].value))] + PairsOf(items[1..])
  }

  predicate ValidKey(k: string) {
    k != "" && (forall i :: 0 <= i < |k| ==> k[i] != ';' && k[i] != '=')
  }
}
