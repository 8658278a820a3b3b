/** convert.c's def_bin2hex: expanding bytes to hexadecimal characters of width 1 or 2, source and
    destination lying anywhere in one memory. */
module HexExpand {
  import opened BigNum
  import opened Bytea

  /** Size of `n` characters of width `w`. */
  function Size(w: nat, n: int): int {
    if w == 1 then n else 2 * n
  }

  /** The (little-endian) character of width `w` at `pos`. */
  predicate Holds(m: seq<byte>, pos: nat, w: nat, c: char)
    requires w >= 1 && pos + w <= |m|
  {
    m[pos] == c as int && (w == 2 ==> m[pos + 1] == 0)
  }

  /** The two digits of byte `b` stand at index `k` of the destination. */
  predicate PairAt(m: seq<byte>, dst: nat, w: nat, k: nat, b: byte)
    requires dst + Size(w, 2 * k + 2) <= |m| && (w == 1 || w == 2)
  {
    && Holds(m, dst + Size(w, 2 * k), w, HexDigit(b / 16))
    && Holds(m, dst + Size(w, 2 * k + 1), w, HexDigit(b % 16))
  }

  method Store(mem: array<byte>, pos: nat, w: nat, c: char)
    requires pos + w <= mem.Length && (w == 1 || w == 2) && c as int < 256
    modifies mem
    ensures Holds(mem[..], pos, w, c)
    ensures forall p :: 0 <= p < mem.Length && !(pos <= p < pos + w) ==> mem[p] == old(mem[p])
  {
    mem[pos] := c as int;
    if w == 2 { mem[pos + 1] := 0; }
  }

  /** Source and destination lie so that expanding from the left would overtake the source. */
  predicate Refused(src: nat, dst: nat, length: nat, w: nat) {
    dst < src && dst + Size(w, 2 * (length - 1)) > src + length - 1
  }

  /** Expanding from the left, the digits of byte `i` would land on a source byte not yet read. */
  ghost predicate OvertakesAt(src: nat, dst: nat, length: nat, w: nat, i: nat) {
    exists p :: Unread(src, length, i, p) && WrittenBy(dst, w, i, p)
  }

  predicate Unread(src: nat, length: nat, i: nat, p: int) {
    src + i < p < src + length
  }

  predicate WrittenBy(dst: nat, w: nat, i: nat, p: int) {
    dst + Size(w, 2 * i) <= p < dst + Size(w, 2 * i + 2)
  }

  lemma {:induction false} FindsOvertaken(src: nat, dst: nat, length: nat, w: nat, n: nat) returns (i: nat)
    requires (w == 1 || w == 2) && dst < src && 1 <= n < length && dst + Size(w, 2 * n) > src + n
    ensures i < length && OvertakesAt(src, dst, length, w, i)
  {
    if dst + Size(w, 2 * (n - 1)) <= src + n {
      i := n - 1;
      assert Unread(src, length, i, src + n) && WrittenBy(dst, w, i, src + n);
    } else {
      i := FindsOvertaken(src, dst, length, w, n - 1);
    }
  }

  /** The call is refused if and only if expanding from the left would overtake the source. */
  lemma RefusedIff(src: nat, dst: nat, length: nat, w: nat)
    requires w == 1 || w == 2
    ensures Refused(src, dst, length, w) <==>
            dst < src && exists i :: 0 <= i < length && OvertakesAt(src, dst, length, w, i)
  {
    if Refused(src, dst, length, w) {
      var i := FindsOvertaken(src, dst, length, w, length - 1);
    }
    forall i: nat | i < length && OvertakesAt(src, dst, length, w, i) && dst < src
      ensures Refused(src, dst, length, w)
    {
      var p :| Unread(src, length, i, p) && WrittenBy(dst, w, i, p);
    }
  }

  predicate Fits(mem: array<byte>, src: nat, dst: nat, length: nat, w: nat) {
    (w == 1 || w == 2) && src + length <= mem.Length && dst + Size(w, 2 * length + 1) <= mem.Length
  }

  method StorePair(mem: array<byte>, dst: nat, w: nat, k: nat, b: byte)
    requires (w == 1 || w == 2) && dst + Size(w, 2 * k + 2) <= mem.Length
    modifies mem
    ensures PairAt(mem[..], dst, w, k, b)
    ensures forall p :: 0 <= p < mem.Length && !(dst + Size(w, 2 * k) <= p < dst + Size(w, 2 * k + 2)) ==>
              mem[p] == old(mem[p])
  {
    Store(mem, dst + Size(w, 2 * k + 1), w, HexDigit(b % 16));
    Store(mem, dst + Size(w, 2 * k), w, HexDigit(b / 16));
  }

  /** The digits of `bytes[lo..hi]` stand in their places. */
  predicate Expanded(m: seq<byte>, dst: nat, w: nat, bytes: seq<byte>, lo: nat, hi: nat)
    requires (w == 1 || w == 2) && lo <= hi <= |bytes| && dst + Size(w, 2 * |bytes|) <= |m|
  {
    forall k :: lo <= k < hi ==> PairAt(m, dst, w, k, bytes[k])
  }

  lemma ExpandedKept(m: seq<byte>, m1: seq<byte>, dst: nat, w: nat, bytes: seq<byte>, lo: nat, hi: nat)
    requires (w == 1 || w == 2) && lo <= hi <= |bytes| && dst + Size(w, 2 * |bytes|) <= |m| == |m1|
    requires Expanded(m, dst, w, bytes, lo, hi)
    requires forall p :: dst + Size(w, 2 * lo) <= p < dst + Size(w, 2 * hi) ==> m1[p] == m[p]
    ensures Expanded(m1, dst, w, bytes, lo, hi)
  {
    forall k | lo <= k < hi ensures PairAt(m1, dst, w, k, bytes[k]) {
      assert PairAt(m, dst, w, k, bytes[k]);
    }
  }

  method ExpandBackwards(mem: array<byte>, src: nat, dst: nat, length: nat, w: nat)
    requires Fits(mem, src, dst, length, w) && src <= dst
    modifies mem
    ensures Expanded(mem[..], dst, w, old(mem[src..src + length]), 0, length)
    ensures forall p :: 0 <= p < mem.Length && !(dst <= p < dst + Size(w, 2 * length)) ==> mem[p] == old(mem[p])
  {
    ghost var bytes := mem[src..src + length];
    var j := length;
    while j > 0
      invariant 0 <= j <= length
      invariant forall p :: 0 <= p < dst + Size(w, 2 * j) ==> mem[p] == old(mem[p])
      invariant forall p :: dst + Size(w, 2 * length) <= p < mem.Length ==> mem[p] == old(mem[p])
      invariant Expanded(mem[..], dst, w, bytes, j, length)
    {
      ghost var m := mem[..];
      j := j - 1;
      var chr := mem[src + j];
      assert chr == bytes[j];
      StorePair(mem, dst, w, j, chr);
      ExpandedKept(m, mem[..], dst, w, bytes, j + 1, length);
    }
  }

  method ExpandForwards(mem: array<byte>, src: nat, dst: nat, length: nat, w: nat)
    requires Fits(mem, src, dst, length, w)
    requires src + length <= dst || (dst < src && !Refused(src, dst, length, w))
    modifies mem
    ensures Expanded(mem[..], dst, w, old(mem[src..src + length]), 0, length)
    ensures forall p :: 0 <= p < mem.Length && !(dst <= p < dst + Size(w, 2 * length)) ==> mem[p] == old(mem[p])
  {
    ghost var bytes := mem[src..src + length];
    var i := 0;
    while i < length
      invariant 0 <= i <= length
      invariant forall p :: 0 <= p < dst ==> mem[p] == old(mem[p])
      invariant forall p :: dst + Size(w, 2 * i) <= p < mem.Length ==> mem[p] == old(mem[p])
      invariant Expanded(mem[..], dst, w, bytes, 0, i)
    {
      ghost var m := mem[..];
      var chr := mem[src + i];
      assert chr == bytes[i];
      StorePair(mem, dst, w, i, chr);
      ExpandedKept(m, mem[..], dst, w, bytes, 0, i);
      i := i + 1;
    }
  }

  /** pg_bin2hex (w == 1) and pg_bin2whex (w == 2). For every placement the destination receives the
      digits of the original source bytes and a terminator, and nothing else changes; or, exactly when
      expanding from the left would overtake the source, the call is refused and memory untouched. */
  method Bin2Hex(mem: array<byte>, src: nat, dst: nat, length: nat, w: nat) returns (r: int)
    requires Fits(mem, src, dst, length, w)
    modifies mem
    ensures r == (if Refused(src, dst, length, w) then -1 else Size(w, 2 * length))
    ensures r == -1 ==> mem[..] == old(mem[..])
    ensures r >= 0 ==>
              && Expanded(mem[..], dst, w, old(mem[src..src + length]), 0, length)
              && Holds(mem[..], dst + Size(w, 2 * length), w, '\0')
              && forall p :: 0 <= p < mem.Length && !(dst <= p < dst + Size(w, 2 * length + 1)) ==>
                   mem[p] == old(mem[p])
  {
    var backwards := false;
    if dst < src {
      if dst + Size(w, 2 * (length - 1)) > src + length - 1 { return -1; }
    } else if dst < src + length {
      backwards := true;
    }
    ghost var bytes := mem[src..src + length];
    if backwards {
      ExpandBackwards(mem, src, dst, length, w);
    } else {
      ExpandForwards(mem, src, dst, length, w);
    }
    ghost var m := mem[..];
    Store(mem, dst + Size(w, 2 * length), w, '\0');
    ExpandedKept(m, mem[..], dst, w, bytes, 0, length);
    return Size(w, 2 * length);
  }

  lemma {:induction false} HexTextAt(bytes: seq<byte>, k: nat)
    requires k < |bytes|
    ensures HexText(bytes)[2 * k] == HexDigit(bytes[k] / 16) && HexText(bytes)[2 * k + 1] == HexDigit(bytes[k] % 16)
    decreases k
  {
    if k > 0 {
      HexTextAt(bytes[1..], k - 1);
      assert HexText(bytes)[2 * k] == HexText(bytes[1..])[2 * (k - 1)];
      assert HexText(bytes)[2 * k + 1] == HexText(bytes[1..])[2 * (k - 1) + 1];
    }
  }

  /** With characters of one byte the expanded text is the hexadecimal form of the bytes. */
  lemma ExpandedIsHexText(m: seq<byte>, dst: nat, bytes: seq<byte>, k: nat)
    requires dst + 2 * |bytes| <= |m| && Expanded(m, dst, 1, bytes, 0, |bytes|) && k < |bytes|
    ensures m[dst + 2 * k] == HexText(bytes)[2 * k] as int
    ensures m[dst + 2 * k + 1] == HexText(bytes)[2 * k + 1] as int
  {
    HexTextAt(bytes, k);
    assert PairAt(m, dst, 1, k, bytes[k]);
  }

  lemma WidePair(m: seq<byte>, dst: nat, k: nat, b: byte, p: nat)
    requires p == dst + 4 * k && p + 4 <= |m| && PairAt(m, dst, 2, k, b)
    ensures m[p] == HexDigit(b / 16) as int && m[p + 1] == 0 && m[p + 2] == HexDigit(b % 16) as int && m[p + 3] == 0
  {
  }

  /** With characters of two bytes each digit is followed by a zero byte, and so is the terminator. */
  lemma ExpandedIsWideText(m: seq<byte>, dst: nat, bytes: seq<byte>, k: nat, p: nat)
    requires dst + 4 * |bytes| + 2 <= |m| && Expanded(m, dst, 2, bytes, 0, |bytes|) && k < |bytes| && p == dst + 4 * k
    ensures m[p] == HexText(bytes)[2 * k] as int && m[p + 1] == 0
    ensures m[p + 2] == HexText(bytes)[2 * k + 1] as int && m[p + 3] == 0
  {
    HexTextAt(bytes, k);
    WidePair(m, dst, k, bytes[k], p);
  }

  lemma TerminatorIs(m: seq<byte>, pos: nat, w: nat)
    requires (w == 1 || w == 2) && pos + w <= |m|
    ensures Holds(m, pos, w, '\0') <==> forall p :: pos <= p < pos + w ==> m[p] == 0
  {
  }
}
