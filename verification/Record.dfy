/** Records in memory, and how they are written to and read from a stream. */
module RecordClass {
  import opened Bytes
  import opened Common
  import opened RecordSpec
  import opened Layout

  /** A file opened for writing at its end and reading from `pos`. */
  class Stream {
    var bytes: seq<byte>
    var pos: nat

    ghost predicate Valid()
      reads this
    {
      pos <= |bytes|
    }

    constructor ()
      ensures Valid() && bytes == [] && pos == 0
    {
      bytes, pos := [], 0;
    }

    method Put(s: seq<byte>)
      requires Valid()
      modifies this`bytes
      ensures Valid() && bytes == old(bytes) + s
    {
      bytes := bytes + s;
    }

    /** `fread` of `n` bytes: all of them, or what is left. */
    method Get(n: nat) returns (s: seq<byte>)
      requires Valid()
      modifies this`pos
      ensures Valid()
      ensures var left := bytes[old(pos)..];
              && s == (if n <= |left| then left[..n] else left)
              && pos == old(pos) + |s|
    {
      var end := if pos + n <= |bytes| then pos + n else |bytes|;
      s := bytes[pos..end];
      pos := end;
    }
  }

  type bits15 = x: int | 0 <= x < 0x8000

  class Record {
    var kind: bits15
    var footer: bit
    var length: word16
    var payload: array?<byte>
    var uuid: word32

    ghost predicate Valid()
      reads this
    {
      length > 0 ==> payload != null && payload.Length >= length
    }

    ghost function View(): (r: Rec)
      requires Valid()
      reads this, payload
      ensures r.WellFormed() && |r.payload| == length
    {
      Rec(kind, if length > 0 then payload[..length] else [], Footer())
    }

    /** The footer, as the accessors show it. */
    function Footer(): Option<word32>
      reads this
    {
      if footer == 1 then Some(uuid) else None
    }

    /** `record_init`. */
    constructor ()
      ensures Valid() && View() == Rec(0, [], None)
    {
      kind, footer, length, payload := 0, 0, 0, null;
    }

    /** `record_free`. */
    method Free()
      modifies this`length, this`payload
      ensures Valid() && View() == Rec(kind, [], Footer())
    {
      if length != 0 {
        length := 0;
        payload := null;
      }
    }

    /** Only 15 bits of `t` are kept. */
    method SetType(t: int)
      requires Valid()
      modifies this`kind
      ensures Valid() && View() == old(View()).(kind := t % 0x8000)
    {
      kind := t % 0x8000;
    }

    /** No buffer or no bytes removes the payload. The length field keeps 16 bits
        of `n`, so that only the first `n` modulo 65536 bytes count. */
    method SetPayload(buf: Option<seq<byte>>, n: nat) returns (code: int)
      requires buf.Some? ==> n <= |buf.value|
      modifies this`length, this`payload
      ensures code == 0 && Valid()
      ensures View() == Rec(kind, if buf.None? || n == 0 then [] else buf.value[..n % 0x1_0000], Footer())
      ensures buf.Some? && n > 0 ==> fresh(payload) && payload[..] == buf.value[..n]
    {
      if buf.None? || n == 0 {
        Free();
        return 0;
      }
      var p := new byte[n](i requires 0 <= i < n => buf.value[i]);
      payload := p;
      length := n % 0x1_0000;
      assert p[..] == buf.value[..n];
      code := 0;
    }

    method DeleteFooter()
      requires Valid()
      modifies this`footer, this`uuid
      ensures Valid() && View() == old(View()).(uuid := None)
    {
      if footer != 0 {
        footer := 0;
        uuid := 0;
      }
    }

    method SetUuid(u: word32)
      requires Valid()
      modifies this`footer, this`uuid
      ensures Valid() && View() == old(View()).(uuid := Some(u))
    {
      footer := 1;
      uuid := u;
    }

    method GetUuid() returns (u: word32)
      requires Valid()
      ensures u == match View().uuid { case None => 0 case Some(x) => x }
    {
      if footer == 0 {
        return 0;
      }
      u := uuid;
    }

    /** `record_write`: the image goes to the end of the stream. */
    method Write(f: Stream) returns (count: int)
      requires Valid() && f.Valid()
      modifies f`bytes
      ensures f.Valid() && f.bytes == old(f.bytes) + Image(View()) && count == |Image(View())|
      ensures |old(f.bytes)| <= |f.bytes| && RecordAt(View(), f.bytes[|old(f.bytes)|..])
      ensures Valid() && View() == old(View())
    {
      hide Memory16, Memory32, Swap16, RecordAt;
      var start := f.bytes;
      f.Put(Memory16(kind + 0x8000 * footer));
      count := 2;
      f.Put(Memory16(Swap16(length)));
      count := count + 2;
      if length != 0 {
        f.Put(payload[..length]);
        count := count + length;
      }
      if footer == 1 {
        f.Put(Memory32(uuid));
        count := count + 4;
      }
      assert f.bytes == start + Image(View());
      hide Image;
      assert f.bytes[|start|..] == Image(View());
      ImageIffLayout(View(), Image(View()));
    }

    /** The two words of the header. A word that is cut off uses up the stream and
        leaves its variable unset: `y0` and `y1` are what these happen to hold. */
    method ReadHeader(f: Stream, y0: word16, y1: word16) returns (count: nat)
      requires f.Valid()
      modifies this`kind, this`footer, this`length, f`pos
      ensures f.Valid()
      ensures var s := f.bytes[old(f.pos)..];
              && f.pos == (if |s| >= 4 then old(f.pos) + 4 else |f.bytes|)
              && count == (if |s| >= 4 then 4 else if |s| >= 2 then 2 else 0)
              && kind + 0x8000 * footer == (if |s| >= 2 then Load16(s, 0) else y0)
              && length == Swap16(if |s| >= 4 then Load16(s, 2) else y1)
    {
      hide Load16, Swap16;
      ghost var s := f.bytes[f.pos..];
      count := 0;
      var flags, size := y0, y1;
      var y := f.Get(2);
      if |y| == 2 {
        assert y == s[0..2];
        LoadSlice16(s, 0);
        flags := Load16(y, 0);
        count := count + 2;
      }
      kind, footer := flags % 0x8000, flags / 0x8000;
      y := f.Get(2);
      if |y| == 2 {
        assert y == s[2..4];
        LoadSlice16(s, 2);
        size := Load16(y, 0);
        count := count + 2;
      }
      length := Swap16(size);
    }

    method ReadPayload(f: Stream) returns (whole: bool)
      requires f.Valid() && length != 0
      modifies this`length, this`payload, f`pos
      ensures f.Valid() && length == old(length)
      ensures var left := f.bytes[old(f.pos)..];
              && whole == (length <= |left|)
              && (whole ==> Valid() && View() == Rec(kind, left[..length], Footer()) && f.pos == old(f.pos) + length)
              && (!whole ==> f.pos == |f.bytes|)
    {
      var n := length;
      var buf := f.Get(n);
      whole := |buf| == n;
      if whole {
        var code := SetPayload(Some(buf), n);
        assert buf[..n] == buf;
      }
    }

    method ReadFooter(f: Stream) returns (whole: bool)
      requires Valid() && f.Valid() && footer == 1
      modifies this`uuid, f`pos
      ensures f.Valid() && Valid()
      ensures var left := f.bytes[old(f.pos)..];
              && whole == (4 <= |left|)
              && (whole ==> uuid == Load32(left, 0) && f.pos == old(f.pos) + 4)
              && (!whole ==> f.pos == |f.bytes|)
    {
      hide Load32;
      ghost var left := f.bytes[f.pos..];
      var u := f.Get(4);
      whole := |u| == 4;
      if whole {
        LoadSlice32(left, 0);
        assert u == left[0..4];
        uuid := Load32(u, 0);
      }
    }

    /** `record_read`: a payload or a footer that is cut off gives -1 and uses up the
        stream. A header that is cut off is not noticed: what follows depends on the
        words `y0` and `y1` that stand in the unset variables, and a stream that is
        used up gives the bytes that were left if these ask for nothing more. */
    method Read(f: Stream, y0: word16, y1: word16) returns (count: int)
      requires Valid() && f.Valid()
      modifies this, f`pos
      ensures f.Valid()
      ensures var s := f.bytes[old(f.pos)..];
              |s| >= 4 ==>
                match Parse(s)
                case Done(r, n) => Valid() && View() == r && count == n && f.pos == old(f.pos) + n
                case Short => count == -1 && f.pos == |f.bytes|
      ensures var s := f.bytes[old(f.pos)..];
              |s| < 4 ==>
                var flags := if |s| >= 2 then Load16(s, 0) else y0;
                && f.pos == |f.bytes|
                && count == (if Swap16(y1) != 0 || flags >= 0x8000 then -1 else if |s| >= 2 then 2 else 0)
                && (count != -1 ==> Valid() && View() == Rec(flags, [], None))
    {
      hide Load16, Load32, Swap16;
      ghost var s := f.bytes[f.pos..];
      count := ReadHeader(f, y0, y1);
      if length != 0 {
        assert f.bytes[f.pos..] == if |s| >= 4 then s[4..] else [];
        var whole := ReadPayload(f);
        if !whole {
          return -1;
        }
        assert s[4..][..length] == s[4..4 + length];
        count := count + length;
      }
      if footer == 1 {
        if |s| >= 4 {
          assert f.bytes[f.pos..] == s[4 + length..];
          FooterAt(s, 4 + length);
        } else {
          assert f.bytes[f.pos..] == [];
        }
        var whole := ReadFooter(f);
        if !whole {
          return -1;
        }
        count := count + 4;
      }
    }
  }

  lemma FooterAt(s: seq<byte>, i: nat)
    requires i <= |s|
    ensures i + 4 <= |s| ==> Load32(s[i..], 0) == Load32(s, i)
  {
  }
}
