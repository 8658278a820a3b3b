/** Connection strings from settings to text and back: written item by item, tokenized in place, and unbraced. */
module ConnWhole {
  import opened ConnString
  import opened ConnTokenizer
  import opened ConnRoundTrip

  /** What the driver writes: keywords that are sound and fit the room reserved for them, no NUL anywhere. */
  predicate Writable(it: Item) {
    ValidKey(it.key) && |it.key| <= 25 && '\0' !in it.key && '\0' !in it.value
  }

  lemma {:induction false} DoubledNoNul(v: string)
    requires '\0' !in v
    ensures '\0' !in Doubled(v)
  {
    if v != "" { DoubledNoNul(v[1..]); }
  }

  lemma {:induction false} WrittenAllSnoc(items: seq<Item>, it: Item)
    ensures WrittenAll(items + [it]) == WrittenAll(items) + Written(it)
  {
    if items == [] {
      assert items + [it] == [it] && [it][1..] == [];
    } else {
      assert (items + [it])[1..] == items[1..] + [it];
      WrittenAllSnoc(items[1..], it);
    }
  }

  /** The settings written one behind the other. */
  method WriteAll(items: seq<Item>) returns (text: string)
    requires forall it :: it in items ==> Writable(it)
    ensures text == WrittenAll(items) && '\0' !in text
  {
    text := "";
    for i := 0 to |items|
      invariant text == WrittenAll(items[..i]) && '\0' !in text
    {
      assert Writable(items[i]);
      var buf, n := MakeBracketConnectString(items[i]);
      DoubledNoNul(items[i].value);
      WrittenAllSnoc(items[..i], items[i]);
      assert items[..i + 1] == items[..i] + [items[i]];
      text := text + buf[..n];
    }
    assert items[..|items|] == items;
  }

  lemma {:induction false} PairAt(items: seq<Item>, i: nat)
    requires i < |items|
    ensures |PairsOf(items)| == |items| && PairsOf(items)[i] == (items[i].key, Braced(items[i].value))
    decreases |items|
  {
    if |items| > 1 { PairAt(items[1..], if i > 0 then i - 1 else 0); }
  }

  lemma PairsLength(items: seq<Item>)
    ensures |PairsOf(items)| == |items|
  {
    if items != [] { PairAt(items, 0); }
  }

  /** One pair as read, with the braces taken off. */
  method Unbrace(pair: (string, string), ghost it: Item) returns (item: Item)
    requires pair == (it.key, Braced(it.value))
    ensures item == it
  {
    BracedComesBack(it.value);
    var out, n := RemoveBraces(pair.1);
    item := Item(pair.0, out[..n]);
  }

  method UnbraceAll(pairs: seq<(string, string)>, ghost items: seq<Item>) returns (back: seq<Item>)
    requires pairs == PairsOf(items)
    ensures back == items
  {
    PairsLength(items);
    back := [];
    for i := 0 to |pairs|
      invariant |pairs| == |items| && back == items[..i]
    {
      PairAt(items, i);
      var item := Unbrace(pairs[i], items[i]);
      back := back + [item];
    }
  }

  /** Every list of settings survives the trip through the connection string, in order. */
  method ThereAndBack(items: seq<Item>) returns (back: seq<Item>)
    requires forall it :: it in items ==> Writable(it)
    ensures back == items
  {
    var text := WriteAll(items);
    var ok, pairs := GetAttributes(text);
    ParseWrittenAll(items);
    back := UnbraceAll(pairs, items);
  }
}
