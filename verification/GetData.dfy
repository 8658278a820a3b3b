/** convert.c's SQLGetData path for character data of text columns: convert_linefeeds, setup_getdataclass,
    convert_text_field_to_sql_c and the data_left handling of copy_and_convert_field. */
module GetData {
  import opened Basics
  import opened GetDataSpec
  import opened CharBuffer

  /** The character in front of position `i`. */
  function Before(si: string, i: nat): char
    requires i <= |si|
  {
    if i == 0 then '\0' else si[i - 1]
  }

  function Still(si: string, i: nat, convlf: bool): string
    requires i <= |si|
  {
    Returned(si[i..], convlf, Before(si, i))
  }

  lemma {:induction false} ReturnedGrows(v: string, convlf: bool, before: char)
    ensures |Returned(v, convlf, before)| >= |v|
  {
    if v != "" { ReturnedGrows(v[1..], convlf, v[0]); }
  }

  lemma StillStep(si: string, i: nat, convlf: bool)
    requires i < |si|
    ensures Still(si, i, convlf) ==
            (if convlf && si[i] == '\n' && Before(si, i) != '\r' then "\r\n" else [si[i]]) + Still(si, i + 1, convlf)
    ensures |Still(si, i, convlf)| >= |si| - i
  {
    assert si[i..][1..] == si[i + 1..];
    ReturnedGrows(si[i..], convlf, Before(si, i));
  }

  lemma StillEnd(si: string, convlf: bool)
    ensures Still(si, |si|, convlf) == "" && Still(si, 0, convlf) == Converted(si, convlf)
  {
    assert si[|si|..] == "" && si[0..] == si;
  }

  /** convert_linefeeds without a destination: length and whether a carriage return is added. */
  method EstimateLinefeeds(si: string, convlf: bool) returns (out: nat, changed: bool)
    requires |Converted(si, convlf)| < 0xffff_fffe
    ensures out == |Converted(si, convlf)| && changed == (Converted(si, convlf) != si)
  {
    out, changed := 0, false;
    var i := 0;
    StillEnd(si, convlf);
    while i < |si| && out < 0xffff_fffe
      invariant i <= |si| && out + |Still(si, i, convlf)| == |Converted(si, convlf)|
      invariant if changed then out > i else out == i && Converted(si, convlf) == si[..i] + Still(si, i, convlf)
    {
      StillStep(si, i, convlf);
      if convlf && si[i] == '\n' && !(i > 0 && si[i - 1] == '\r') {
        changed := true;
        out := out + 2;
      } else {
        out := out + 1;
        assert si[..i] + ([si[i]] + Still(si, i + 1, convlf)) == si[..i + 1] + Still(si, i + 1, convlf);
      }
      i := i + 1;
    }
    if !changed { assert si[..i] + "" == si; }
  }

  /** convert_linefeeds into a buffer that has room. */
  method ConvertLinefeeds(si: string, dst: array<char>, max: nat, convlf: bool) returns (out: nat)
    requires |Converted(si, convlf)| < max <= dst.Length
    modifies dst
    ensures out == |Converted(si, convlf)| && dst[..out] == Converted(si, convlf) && dst[out] == '\0'
  {
    out := 0;
    var i := 0;
    StillEnd(si, convlf);
    while i < |si| && out < max - 1
      invariant i <= |si| && out <= |Converted(si, convlf)|
      invariant dst[..out] + Still(si, i, convlf) == Converted(si, convlf)
    {
      StillStep(si, i, convlf);
      ghost var done, rest := dst[..out], Still(si, i + 1, convlf);
      if convlf && si[i] == '\n' && !(i > 0 && si[i - 1] == '\r') {
        Assoc(done, "\r\n", rest);
        assert |done + "\r\n"| <= |Converted(si, convlf)|;
        out := Put(dst, out, '\r');
        out := Put(dst, out, '\n');
        assert dst[..out] == done + "\r\n";
      } else {
        Assoc(done, [si[i]], rest);
        assert |done + [si[i]]| <= |Converted(si, convlf)|;
        out := Put(dst, out, si[i]);
      }
      i := i + 1;
    }
    if i < |si| { StillStep(si, i, convlf); }
    dst[out] := '\0';
  }

  /** The copy into the application's buffer, cut off to leave room for the terminator. */
  method CopyOut(rgb: array<char>, ptr: string) returns (copied: nat)
    requires rgb.Length > 0
    modifies rgb
    ensures copied == Min(|ptr|, rgb.Length - 1)
    ensures rgb[..copied] == ptr[..copied] && rgb[copied] == '\0'
  {
    copied := if |ptr| + 1 > rgb.Length then rgb.Length - 1 else |ptr|;
    forall i | 0 <= i < copied { rgb[i] := ptr[i]; }
    rgb[copied] := '\0';
  }

  /** The application's buffer holds the next `copied` characters, `len` being what was left, and a
      terminator. */
  ghost predicate Delivered(w: string, len: nat, copied: nat, rgb: array<char>)
    reads rgb
  {
    && copied <= len <= |w| && copied <= rgb.Length
    && rgb[..copied] == w[|w| - len..|w| - len + copied]
    && (rgb.Length > 0 ==> copied < rgb.Length && rgb[copied] == '\0')
  }

  class GetDataClass {
    var ttlbuf: array?<char>
    var ttlbuflen: nat
    var ttlbufused: nat
    var dataLeft: int

    /** `w` is the value of the column as the application reads it. */
    ghost predicate Valid(w: string)
      reads this, ttlbuf
    {
      && (ttlbuf != null ==> ttlbuflen <= ttlbuf.Length)
      && -2 <= dataLeft && (dataLeft == -2 ==> ttlbuf == null)
      && (dataLeft > 0 ==> ttlbuf != null && Saved(w) && dataLeft <= |w|)
    }

    ghost predicate Saved(w: string)
      requires ttlbuf != null && ttlbuflen <= ttlbuf.Length
      reads this, ttlbuf
    {
      ttlbufused == |w| < ttlbuflen && ttlbuf[..|w|] == w
    }

    ghost function View(): Cursor
      reads this
    {
      if dataLeft == -1 then Fresh(if ttlbuf == null then 0 else ttlbuflen)
      else if dataLeft == 0 then Ended
      else if dataLeft > 0 && ttlbufused <= ttlbuflen then Reading(dataLeft, ttlbuflen - ttlbufused)
      else Over
    }

    constructor ()
      ensures View() == Fresh(0) && forall w :: Valid(w)
    {
      ttlbuf, ttlbuflen, ttlbufused, dataLeft := null, 0, 0, -1;
    }

    /** GETDATA_RESET, on every fetch: the buffer stays. */
    method Reset(ghost w: string)
      requires Valid(w)
      modifies this`dataLeft
      ensures forall w1 :: Valid(w1)
      ensures View() == Fresh(if ttlbuf == null then 0 else ttlbuflen)
    {
      dataLeft := -1;
    }

    /** setup_getdataclass behind the estimate, for a buffer that is not empty: the converted text is
        saved unless the value can be handed out as it is. */
    method Setup(value: string, convlf: bool, len: nat, changed: bool, size: nat) returns (ptr: string)
      requires size > 0 && (ttlbuf != null ==> ttlbuflen <= ttlbuf.Length)
      requires len == |Converted(value, convlf)| && changed == (Converted(value, convlf) != value)
      modifies this`ttlbuf, this`ttlbuflen, this`ttlbufused, ttlbuf
      ensures ttlbuf != null ==> ttlbuflen <= ttlbuf.Length
      ensures ttlbuf == old(ttlbuf) || ttlbuf == null || fresh(ttlbuf)
      ensures ptr == Converted(value, convlf)
      ensures len + 1 > size ==> ttlbuf != null && Saved(ptr)
      ensures len + 1 > size ==> var stale := if old(ttlbuf) == null then 0 else old(ttlbuflen);
                                 ttlbuflen == if stale > len + 1 then stale else len + 1
    {
      if ttlbuf == null { ttlbuflen := 0; }
      var needbuflen := len + 1;
      if changed || needbuflen > size {
        if needbuflen > ttlbuflen {
          ttlbuf := new char[needbuflen];
          ttlbuflen := needbuflen;
        }
        var n := ConvertLinefeeds(value, ttlbuf, ttlbuflen, convlf);
        ptr := ttlbuf[..n];
        ttlbufused := len;
      } else {
        ttlbuf := null;
        ptr := value;
      }
    }
 
    /** convert_text_field_to_sql_c; `rgb` is the application's buffer. */
    method ConvertTextField(value: string, convlf: bool, rgb: array<char>)
      returns (status: Status, len: nat, copied: nat)
      requires Valid(Converted(value, convlf)) && dataLeft != 0 && dataLeft != -2
      requires |Converted(value, convlf)| < 0x7fff_ffff && rgb != ttlbuf
      modifies this, ttlbuf, rgb
      ensures ttlbuf == old(ttlbuf) || ttlbuf == null || fresh(ttlbuf)
      ensures if status == COPY_OK then ttlbuf == null else Valid(Converted(value, convlf))
      ensures Outcome(status, len, copied, if status == COPY_OK then Ended else View())
              == Call(old(View()), |Converted(value, convlf)|, rgb.Length)
      ensures Delivered(Converted(value, convlf), len, copied, rgb)
    {
      status, copied := COPY_OK, 0;
      var size := rgb.Length;
      var ptr: string;
      var needbuflen: int;
      if dataLeft < 0 {
        var changed;
        len, changed := EstimateLinefeeds(value, convlf);
        if size == 0 {
          status := COPY_RESULT_TRUNCATED;
          return;
        }
        ptr := Setup(value, convlf, len, changed, size);
        needbuflen := len + 1;
        dataLeft := len;
      } else {
        ptr := ttlbuf[ttlbufused - dataLeft..ttlbufused];
        len := dataLeft;
        needbuflen := len + (ttlbuflen - ttlbufused);
      }
      if size > 0 {
        copied := CopyOut(rgb, ptr);
        dataLeft := dataLeft - copied;
      }
      if size > 0 && needbuflen > size {
        status := COPY_RESULT_TRUNCATED;
      } else {
        ttlbuf := null;
      }
    }
 
    /** copy_and_convert_field for SQLGetData: one call of a reading. */
    method CopyAndConvertField(value: string, convlf: bool, rgb: array<char>)
      returns (status: Status, len: nat, copied: nat)
      requires Valid(Converted(value, convlf)) && |Converted(value, convlf)| < 0x7fff_ffff && rgb != ttlbuf
      modifies this, ttlbuf, rgb
      ensures Valid(Converted(value, convlf)) && (ttlbuf == old(ttlbuf) || ttlbuf == null || fresh(ttlbuf))
      ensures Outcome(status, len, copied, View()) == Call(old(View()), |Converted(value, convlf)|, rgb.Length)
      ensures if status == COPY_NO_DATA_FOUND then rgb[..] == old(rgb[..])
              else Delivered(Converted(value, convlf), len, copied, rgb)
    {
      if dataLeft == -2 { dataLeft := if rgb.Length > 0 then 0 else -1; }
      if dataLeft == 0 {
        if ttlbuf != null {
          ttlbuf := null;
          ttlbuflen := 0;
        }
        dataLeft := -2;
        return COPY_NO_DATA_FOUND, 0, 0;
      }
      status, len, copied := ConvertTextField(value, convlf, rgb);
      if status == COPY_OK { dataLeft := 0; }
    }
  }

  /** An application's reading of a column with buffers of the given sizes. */
  method ReadColumn(g: GetDataClass, value: string, convlf: bool, sizes: seq<nat>) returns (text: string)
    requires g.Valid(Converted(value, convlf)) && |Converted(value, convlf)| < 0x7fff_ffff
    modifies g, g.ttlbuf
    ensures g.Valid(Converted(value, convlf)) && Fits(old(g.View()), |Converted(value, convlf)|)
    ensures g.View() == After(old(g.View()), |Converted(value, convlf)|, sizes)
    ensures text == Collected(old(g.View()), Converted(value, convlf), sizes)
  {
    text := "";
    ghost var w := Converted(value, convlf);
    for i := 0 to |sizes|
      invariant g.Valid(w) && Fits(g.View(), |w|) && (g.ttlbuf == old(g.ttlbuf) || g.ttlbuf == null || fresh(g.ttlbuf))
      invariant After(g.View(), |w|, sizes[i..]) == After(old(g.View()), |w|, sizes)
      invariant text + Collected(g.View(), w, sizes[i..]) == Collected(old(g.View()), w, sizes)
    {
      text := OneRead(g, value, convlf, sizes[i..], text);
    }
  }

  /** The next call of the reading. */
  method OneRead(g: GetDataClass, value: string, convlf: bool, sizes: seq<nat>, text: string) returns (longer: string)
    requires g.Valid(Converted(value, convlf)) && |Converted(value, convlf)| < 0x7fff_ffff && sizes != []
    modifies g, g.ttlbuf
    ensures var w := Converted(value, convlf);
            && g.Valid(w) && Fits(g.View(), |w|) && Fits(old(g.View()), |w|)
            && After(g.View(), |w|, sizes[1..]) == After(old(g.View()), |w|, sizes)
            && longer + Collected(g.View(), w, sizes[1..]) == text + Collected(old(g.View()), w, sizes)
    ensures g.ttlbuf == old(g.ttlbuf) || g.ttlbuf == null || fresh(g.ttlbuf)
  {
    ghost var w, c := Converted(value, convlf), g.View();
    CallFits(c, |w|, sizes[0]);
    var rgb := new char[sizes[0]];
    var status, len, copied := g.CopyAndConvertField(value, convlf, rgb);
    longer := text + (if status == COPY_NO_DATA_FOUND then "" else rgb[..copied]);
    ghost var chunk := Chunk(w, Call(c, |w|, sizes[0]));
    assert longer == text + chunk;
    Assoc(text, chunk, Collected(g.View(), w, sizes[1..]));
  }
}
