/** convert.c's convert_from_pgbinary and pg_hex2bin, writing into the caller's buffer or, without one,
    only counting. */
module ByteaReader {
  import opened BigNum
  import opened Bytea

  lemma {:induction false} FromHexLength(t: string)
    ensures |FromHex(t)| == |t| / 2
    decreases |t|
  {
    if |t| >= 2 { FromHexLength(t[2..]); }
  }

  lemma {:induction false} FromByteaLength(t: string)
    requires WellFormed(t)
    ensures |FromBytea(t)| <= |t|
    decreases |t|
  {
    if t != "" {
      if t[0] != '\\' { FromByteaLength(t[1..]); }
      else if t[1] == '\\' { FromByteaLength(t[2..]); }
      else if t[1] == 'x' { FromHexLength(t[2..]); }
      else { FromByteaLength(t[4..]); }
    }
  }

  lemma {:induction false} FromHexAt(t: string, k: nat)
    requires k < |t| / 2
    ensures |FromHex(t)| == |t| / 2
    ensures FromHex(t)[k] == (HexValue(t[2 * k]) * 16 + HexValue(t[2 * k + 1])) % 256
    decreases k
  {
    FromHexLength(t);
    if k > 0 {
      FromHexAt(t[2..], k - 1);
      assert t[2..][2 * (k - 1)] == t[2 * k] && t[2..][2 * (k - 1) + 1] == t[2 * k + 1];
    }
  }

  lemma HalvesAdd(x: int, y: int)
    ensures (x * 16 % 256 + y) % 256 == (x * 16 + y) % 256
  {
  }

  /** pg_hex2bin: the high half is stored first, the low half added to it. */
  method Hex2Bin(src: string, dst: array<byte>, o: nat)
    requires o + |src| / 2 < dst.Length
    modifies dst
    ensures forall m :: 0 <= m < o ==> dst[m] == old(dst[m])
    ensures |FromHex(src)| == |src| / 2
    ensures forall m :: 0 <= m < |src| / 2 ==> dst[o + m] == FromHex(src)[m]
    ensures dst[o + |src| / 2] == 0
  {
    var i, w := 0, o;
    var high := true;
    ghost var k := 0;
    FromHexLength(src);
    while i < |src|
      invariant 0 <= i <= |src| && w == o + k && i == (if high then 2 * k else 2 * k + 1)
      invariant forall m :: 0 <= m < o ==> dst[m] == old(dst[m])
      invariant forall m :: 0 <= m < k ==> dst[o + m] == FromHex(src)[m]
      invariant !high ==> dst[w] == HexValue(src[2 * k]) * 16 % 256
    {
      var v := HexValue(src[i]);
      if high {
        dst[w] := v * 16 % 256;
      } else {
        FromHexAt(src, k);
        HalvesAdd(HexValue(src[2 * k]), v);
        dst[w] := (dst[w] + v) % 256;
        w := w + 1;
        k := k + 1;
      }
      high := !high;
      i := i + 1;
    }
    dst[w] := 0;
  }

  /** Where the reader stands: `o` bytes of the result done, the rest is what the text from `i` on reads as. */
  ghost predicate Reached(value: string, i: nat, o: nat)
    requires WellFormed(value)
  {
    && i <= |value| && o <= i && WellFormed(value[i..])
    && o <= |FromBytea(value)| && FromBytea(value)[o..] == FromBytea(value[i..])
  }

  /** One unit of the text other than the hexadecimal form. */
  lemma UnitRead(value: string, i: nat, o: nat)
    requires WellFormed(value) && Reached(value, i, o) && i < |value|
    requires value[i] == '\\' ==> value[i..][1] != 'x'
    ensures o < |FromBytea(value)|
    ensures value[i] != '\\' ==> FromBytea(value)[o] == value[i] as int % 256 && Reached(value, i + 1, o + 1)
    ensures value[i] == '\\' && value[i..][1] == '\\' ==>
              FromBytea(value)[o] == '\\' as int && Reached(value, i + 2, o + 1)
    ensures value[i] == '\\' && value[i..][1] != '\\' ==>
              |value[i..]| >= 4 && FromBytea(value)[o] == OctalValue(value[i..]) && Reached(value, i + 4, o + 1)
  {
    var here := value[i..];
    var k := if value[i] != '\\' then 1 else if here[1] == '\\' then 2 else 4;
    assert here[k..] == value[i + k..];
    assert FromBytea(value)[o..][1..] == FromBytea(value)[o + 1..];
    assert FromBytea(value)[o] == FromBytea(value)[o..][0];
  }

  /** The hexadecimal form: the rest of the text is digits. */
  method HexRest(value: string, i: nat, dst: array?<byte>, o: nat) returns (n: nat)
    requires WellFormed(value) && Reached(value, i, o) && (dst != null ==> dst.Length > |value|)
    requires i + 1 < |value| && value[i] == '\\' && value[i + 1] == 'x'
    requires dst != null ==> forall m :: 0 <= m < o ==> dst[m] == FromBytea(value)[m]
    modifies dst
    ensures n == |FromBytea(value)|
    ensures dst != null ==> dst.Length > n && dst[..n] == FromBytea(value)
  {
    ghost var all, hex := FromBytea(value), value[i + 2..];
    assert value[i..][2..] == hex;
    FromHexLength(hex);
    assert all[o..] == FromHex(hex);
    n := o;
    if i + 2 < |value| {
      if dst != null { Hex2Bin(value[i + 2..], dst, o); }
      n := n + (|value| - (i + 2)) / 2;
    }
    if dst != null {
      forall m | o <= m < n ensures dst[m] == all[m] {
        assert dst[o + (m - o)] == FromHex(hex)[m - o] && all[o..][m - o] == all[m];
      }
      assert dst[..n] == all;
    }
  }

  method Store(dst: array?<byte>, o: nat, b: byte, ghost all: seq<byte>) returns (n: nat)
    requires o < |all| && all[o] == b
    requires dst != null ==> o < dst.Length && forall m :: 0 <= m < o ==> dst[m] == all[m]
    modifies dst
    ensures n == o + 1
    ensures dst != null ==> forall m :: 0 <= m < n ==> dst[m] == all[m]
  {
    if dst != null { dst[o] := b; }
    n := o + 1;
  }

  /** The terminator behind the bytes. */
  method Terminate(dst: array?<byte>, o: nat, ghost all: seq<byte>)
    requires dst != null ==> o < dst.Length && o == |all| && forall m :: 0 <= m < o ==> dst[m] == all[m]
    modifies dst
    ensures dst != null ==> dst[..o] == all && dst[o] == 0
  {
    if dst != null { dst[o] := 0; }
  }

  method ConvertFromPgBinary(value: string, dst: array?<byte>) returns (o: nat)
    requires WellFormed(value) && (dst != null ==> dst.Length > |value|)
    modifies dst
    ensures o == |FromBytea(value)|
    ensures dst != null ==> dst.Length > o && dst[..o] == FromBytea(value) && dst[o] == 0
  {
    o := 0;
    var i := 0;
    ghost var all := FromBytea(value);
    assert value[0..] == value && all[0..] == all;
    while i < |value|
      invariant Reached(value, i, o)
      invariant dst != null ==> forall m :: 0 <= m < o ==> dst[m] == all[m]
      decreases |value| - i
    {
      if value[i] == '\\' && value[i + 1] == 'x' {
        o := HexRest(value, i, dst, o);
        Terminate(dst, o, all);
        return;
      }
      UnitRead(value, i, o);
      if value[i] != '\\' {
        o := Store(dst, o, value[i] as int % 256, all);
        i := i + 1;
      } else if value[i + 1] == '\\' {
        o := Store(dst, o, '\\' as int, all);
        i := i + 2;
      } else {
        o := Store(dst, o, OctalValue(value[i..]), all);
        i := i + 4;
      }
    }
    assert all[o..] == [];
    Terminate(dst, o, all);
  }
}
