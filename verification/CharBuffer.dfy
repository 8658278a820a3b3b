/** Writing text from the left into a character array, as the C code does with `buf[n++] = c`. */
module CharBuffer {

  method Put(buf: array<char>, n: nat, c: char) returns (m: nat)
    requires n < buf.Length
    modifies buf
    ensures m == n + 1 && buf[..m] == old(buf[..n]) + [c]
    ensures buf[m..] == old(buf[n + 1..])
  {
    buf[n] := c;
    m := n + 1;
  }

  /** memcpy of a text. */
  method PutText(buf: array<char>, n: nat, s: string)
    requires n + |s| <= buf.Length
    modifies buf
    ensures buf[..n + |s|] == old(buf[..n]) + s
  {
    ghost var before := buf[..n];
    forall i | 0 <= i < |s| { buf[n + i] := s[i]; }
    forall i | 0 <= i < n + |s| ensures buf[i] == (before + s)[i] {
      if i >= n { assert buf[n + (i - n)] == s[i - n]; } else { assert buf[i] == before[i]; }
    }
  }

  lemma Assoc(a: string, b: string, c: string)
    ensures (a + b) + c == a + (b + c)
  {
  }
}
