/** The packet structure, its accessors, and its encoding and decoding in place. */
module PacketClass {
  import opened Bytes
  import opened Common
  import opened Crc
  import opened PacketSpec
  import opened Interface
  import opened Layout

  type bits2 = x: int | 0 <= x < 4
  type bits5 = x: int | 0 <= x < 32

  /** `memcpy`: the bytes of `s` go to `buf` from `at` on. */
  method CopyInto(buf: array<byte>, at: nat, s: seq<byte>)
    requires at + |s| <= buf.Length
    modifies buf
    ensures buf[..at] == old(buf[..at]) && buf[at..at + |s|] == s && buf[at + |s|..] == old(buf[at + |s|..])
  {
    var i := 0;
    while i < |s|
      invariant i <= |s|
      invariant forall k :: 0 <= k < i ==> buf[at + k] == s[k]
      invariant forall k :: 0 <= k < buf.Length && !(at <= k < at + i) ==> buf[k] == old(buf[k])
    {
      buf[at + i] := s[i];
      i := i + 1;
    }
  }

  /** LENGTH, CRC1 and CRC2 are kept in network order. `released` are the payloads
      that this packet has given back to the allocator. */
  class Packet {
    var window: bits5
    var tr: bit
    var kind: bits2
    var seqnum: byte
    var length: word16
    var timestamp: word32
    var crc1: word32
    var crc2: word32
    var payload: array?<byte>
    ghost var released: set<array<byte>>

    /** The packet owns the payload that it declares. */
    ghost predicate Valid()
      reads this
    {
      Swap16(length) <= MAX_PAYLOAD_SIZE && (GetLength() > 0 ==> payload != null && payload.Length >= GetLength())
    }

    ghost function View(): (p: Pkt)
      requires Valid()
      reads this, payload
      ensures p.WellFormed() && p.Length() == GetLength()
    {
      Pkt(kind, tr, window, seqnum, Swap16(length), timestamp, if GetLength() > 0 then payload[..GetLength()] else [])
    }

    constructor ()
      ensures Valid() && View() == Pkt(PTYPE_DATA, 0, 0, seqnum, 0, 0, []) && payload == null && released == {}
    {
      payload := null;
      released := {};
      kind, tr, window, length, timestamp, crc1 := 1, 0, 0, 0, 0, 0;
    }

    function GetLength(): nat
      reads this
    {
      if tr == 0 then Swap16(length) else 0
    }

    function GetCrc1(): word32
      reads this
    {
      Swap32(crc1)
    }

    function GetCrc2(): word32
      reads this
    {
      if tr == 0 && GetLength() != 0 then Swap32(crc2) else 0
    }

    function GetPayload(): array?<byte>
      reads this
    {
      if GetLength() == 0 then null else payload
    }

    method SetType(t: int) returns (status: Status)
      modifies this`kind
      ensures status == (if 1 <= t <= 3 then PktOk else EType)
      ensures kind == if 1 <= t <= 3 then t else old(kind)
    {
      if t == PTYPE_DATA || t == PTYPE_ACK || t == PTYPE_NACK {
        kind := t;
        return PktOk;
      }
      return EType;
    }

    method SetWindow(w: byte) returns (status: Status)
      modifies this`window
      ensures status == (if w <= 31 then PktOk else EWindow)
      ensures window == if w <= 31 then w else old(window)
    {
      if w > MAX_WINDOW_SIZE {
        return EWindow;
      }
      window := w;
      return PktOk;
    }

    method SetLength(n: word16) returns (status: Status)
      modifies this`length
      ensures status == (if n <= 512 then PktOk else ELength)
      ensures n <= 512 ==> Swap16(length) == n && Memory16(length) == [n / 256, n % 256]
      ensures n > 512 ==> length == old(length)
    {
      if n > MAX_PAYLOAD_SIZE {
        return ELength;
      }
      length := Swap16(n);
      Swap16Twice(n);
      return PktOk;
    }

    /** Takes fresh storage and copies. The old payload is given back if the packet
        has none to show once the length is set: if TR is set or the length is 0,
        even if a copy of the packet still points to it. */
    method SetPayload(data: seq<byte>, n: word16) returns (status: Status)
      requires |data| >= n
      modifies this`length, this`payload, this`released
      ensures status == (if n <= MAX_PAYLOAD_SIZE then PktOk else ELength)
      ensures n <= MAX_PAYLOAD_SIZE ==>
                && Swap16(length) == n
                && payload != null && fresh(payload) && payload.Length == n && payload[..] == data[..n]
      ensures n > MAX_PAYLOAD_SIZE ==> length == old(length) && payload == old(payload)
      ensures released == old(released) + if GetLength() == 0 && old(payload) != null then {old(payload)} else {}
    {
      status := SetLength(n);
      if GetPayload() == null && payload != null {
        released := released + {payload};
      }
      if status == PktOk {
        var p := new byte[n];
        CopyInto(p, 0, data[..n]);
        payload := p;
      }
    }

    /** Copies every field, so that both packets share one payload. */
    method CopyTo(dest: Packet)
      modifies dest
      ensures dest.released == old(dest.released)
      ensures dest.window == old(window) && dest.tr == old(tr) && dest.kind == old(kind) && dest.seqnum == old(seqnum)
      ensures dest.length == old(length) && dest.timestamp == old(timestamp) && dest.payload == old(payload)
      ensures dest.crc1 == old(crc1) && dest.crc2 == old(crc2)
    {
      dest.window, dest.tr, dest.kind, dest.seqnum := window, tr, kind, seqnum;
      dest.length, dest.timestamp, dest.payload := length, timestamp, payload;
      dest.crc1, dest.crc2 := crc1, crc2;
    }

    /** The structure's own eight bytes and their checksum. */
    method EncodeHeader(buf: array<byte>)
      requires Valid() && buf != payload && buf.Length >= PAYLOAD_AT
      modifies this`crc1, buf
      ensures Valid() && View() == old(View()) && GetCrc1() == Crc32(Header(View()))
      ensures buf[..8] == Header(View()) && buf[8..12] == Network32(Crc32(Header(View())))
      ensures buf[12..] == old(buf[12..])
    {
      hide Crc32, Network32, Memory32, Memory16, Swap32, Swap16;
      ghost var p := View();
      var header := [window + 32 * tr + 64 * kind, seqnum] + Memory16(length) + Memory32(timestamp);
      assert header == Header(p) by { Swap16Twice(length); }
      CopyInto(buf, 0, header);
      assert buf[..8] == header;
      var sum := Crc32(buf[..8]);
      CopyInto(buf, 8, Network32(sum));
      crc1 := Swap32(sum);
      Swap32Twice(sum);
    }

    /** The payload, copied byte by byte. */
    method EncodePayload(buf: array<byte>)
      requires Valid() && buf != payload && buf.Length >= PAYLOAD_AT + GetLength()
      modifies buf
      ensures buf[..12] == old(buf[..12]) && buf[12..12 + GetLength()] == View().payload
      ensures buf[12 + GetLength()..] == old(buf[12 + GetLength()..])
    {
      var n := GetLength();
      var i := 0;
      while i < n
        invariant 0 <= i <= n
        invariant forall k :: 0 <= k < 12 ==> buf[k] == old(buf[k])
        invariant forall k :: 0 <= k < i ==> buf[12 + k] == payload[k]
        invariant forall k :: 12 + n <= k < buf.Length ==> buf[k] == old(buf[k])
        invariant i > 0 ==> payload[..n] == old(payload[..n])
      {
        buf[12 + i] := payload[i];
        i := i + 1;
      }
    }

    /** The bytes that encoding writes: with TR 0 a second checksum even behind an
        empty payload. */
    function Footprint(): nat
      reads this
    {
      PAYLOAD_AT + GetLength() + if tr == 0 then 4 else 0
    }

    /** The checksum behind the payload. */
    method EncodeChecksum(buf: array<byte>)
      requires Valid() && buf != payload && tr == 0 && buf.Length >= PAYLOAD_AT + GetLength() + 4
      modifies this`crc2, buf
      ensures Valid() && View() == old(View())
      ensures var n, sum := GetLength(), Crc32(View().payload);
              && buf[..12 + n] == old(buf[..12 + n]) && buf[12 + n..16 + n] == Network32(sum)
              && buf[16 + n..] == old(buf[16 + n..]) && GetCrc2() == if n > 0 then sum else 0
    {
      hide Crc32, Network32, Swap32, Swap16;
      var n := GetLength();
      var sum := Crc32(if n > 0 then payload[..n] else []);
      CopyInto(buf, 12 + n, Network32(sum));
      crc2 := Swap32(sum);
      Swap32Twice(sum);
    }

    /** `pkt_encode`. It never looks at `room`, the number of bytes that the caller
        says are free, so that it returns what the interface says exactly if they
        suffice. */
    method EncodeInto(buf: array<byte>, room: nat, now: word32) returns (status: Status, len: nat)
      requires Valid() && buf != payload
      requires buf.Length >= Footprint()
      modifies this`timestamp, this`crc1, this`crc2, buf
      ensures status == PktOk
      ensures Valid() && View() == old(View()).(timestamp := now)
      ensures len == |Encode(View())| && buf[..len] == Encode(View()) && PacketAt(View(), buf[..len])
      ensures buf[Footprint()..] == old(buf[Footprint()..])
      ensures status == DocumentedStatus(View(), room) <==> len <= room
      ensures GetCrc1() == Crc32(Header(View()))
      ensures GetCrc2() == if GetLength() > 0 then Crc32(View().payload) else 0
    {
      hide Crc32, Network32, Swap32, Swap16, Header, PacketAt;
      timestamp := now;
      EncodeHeader(buf);
      ghost var p := View();
      var n := GetLength();
      assert buf[12 + n..] == buf[12..][n..] && old(buf[12 + n..]) == old(buf[12..])[n..];
      EncodePayload(buf);
      ghost var front, behind := buf[..12 + n], buf[12 + n..];
      assert front == Header(p) + Network32(Crc32(Header(p))) + p.payload by {
        assert front == front[..12][..8] + front[..12][8..] + front[12..];
      }
      if tr == 0 {
        EncodeChecksum(buf);
        assert buf[16 + n..] == behind[4..];
      }
      len := 12 + n + if tr == 0 && n > 0 then 4 else 0;
      assert buf[..len] == front + if n > 0 then buf[12 + n..16 + n] else [];
      EncodeIffLayout(p, buf[..len]);
      status := PktOk;
    }

    /** The payload and, with TR 0, its checksum. */
    method DecodePayload(data: array<byte>, n: nat) returns (status: Status)
      requires 0 < n <= MAX_PAYLOAD_SIZE && data.Length >= PAYLOAD_AT + n + if tr == 0 then 4 else 0
      modifies this`length, this`payload, this`released, this`crc2
      ensures Swap16(length) == n && fresh(payload) && payload.Length == n && payload[..] == data[12..12 + n]
      ensures released == old(released) + if tr == 1 && old(payload) != null then {old(payload)} else {}
      ensures status == if tr == 1 || LoadNetwork32(data[..], 12 + n) == Crc32(data[12..12 + n]) then PktOk else ECrc
      ensures status == PktOk && tr == 0 ==> GetCrc2() == Crc32(data[12..12 + n])
    {
      hide Crc32, Swap32, Swap16, LoadNetwork32;
      ghost var bytes := data[..];
      status := SetPayload(data[12..], n);
      assert data[12..][..n] == bytes[12..12 + n];
      if tr == 0 {
        var sum := LoadNetwork32(data[..], 12 + n);
        assert payload[..n] == bytes[12..12 + n];
        if sum != Crc32(payload[..n]) {
          return ECrc;
        }
        crc2 := Swap32(sum);
        Swap32Twice(sum);
      }
    }

    /** The structure's own eight bytes, and their checksum. */
    method DecodeHeader(data: array<byte>) returns (status: Status)
      requires Readable(data[..], 4)
      modifies this`window, this`tr, this`kind, this`seqnum, this`length, this`timestamp, this`crc1
      ensures data.Length >= 4
      ensures status ==
              if Swap16(Load16(data[..], 2)) > MAX_PAYLOAD_SIZE then ELength
              else if LoadNetwork32(data[..], 8) != Crc32(data[..8]) then ECrc
              else PktOk
      ensures status == PktOk ==>
                && window == data[0] % 32 && tr == data[0] / 32 % 2 && kind == data[0] / 64 && seqnum == data[1]
                && Swap16(length) == Swap16(Load16(data[..], 2)) && timestamp == Load32(data[..], 4)
                && GetCrc1() == Crc32(data[..8])
    {
      hide Crc32, Swap32, Load32, Swap16, Load16, LoadNetwork32;
      window, tr, kind := data[0] % 32, data[0] / 32 % 2, data[0] / 64;
      seqnum := data[1];
      status := SetLength(Swap16(Load16(data[..], 2)));
      if status != PktOk {
        return;
      }
      timestamp := Load32(data[..], 4);
      var sum1 := LoadNetwork32(data[..], 8);
      assert data[..8] == data[..][..8];
      if sum1 != Crc32(data[..8]) {
        return ECrc;
      }
      crc1 := Swap32(sum1);
      Swap32Twice(sum1);
    }

    /** `pkt_decode`. After a failure the packet may be half filled in and must
        not be used. */
    method DecodeFrom(data: array<byte>, len: nat) returns (status: Status)
      requires Readable(data[..], len)
      modifies this
      ensures var d := Decode(data[..], len);
              if d.Packet? then
                && status == PktOk && Valid() && View() == d.pkt
                && GetCrc1() == Crc32(Header(d.pkt))
                && GetCrc2() == if GetLength() > 0 then Crc32(d.pkt.payload) else 0
              else
                status == d.status
      ensures var d := Decode(data[..], len);
              released == old(released) +
                          if d.Packet? && d.pkt.tr == 1 && d.pkt.length > 0 && old(payload) != null then {old(payload)}
                          else {}
      ensures if TakesPayload(data[..], len) then fresh(payload) else payload == old(payload)
      ensures status == PktOk && GetLength() > 0 ==> fresh(payload)
      ensures status == StatusOf(data[..], len)
    {
      hide Crc32, Swap32, Load32, Swap16, Load16, LoadNetwork32, Header, StatusOf;
      ghost var bytes := data[..];
      DecodeStatus(bytes, len);
      if len == 0 {
        return EUnconsistent;
      }
      if len < 4 {
        return ENoHeader;
      }
      status := DecodeHeader(data);
      if status != PktOk {
        return;
      }
      assert data[..8] == bytes[..8];
      var n := Swap16(Load16(data[..], 2));
      if n > 0 {
        status := DecodePayload(data, n);
        if status != PktOk {
          return;
        }
      }
      assert View() == Decode(bytes, len).pkt;
      HeaderFields(View(), bytes);
    }
  }
}
