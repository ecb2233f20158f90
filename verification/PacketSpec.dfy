/** The packet format: what the getters of a packet show, the bytes it is sent
    as, and when bytes are accepted as a packet. */
module PacketSpec {
  import opened Bytes
  import opened Common
  import opened Crc

  const PTYPE_DATA := 1
  const PTYPE_ACK := 2
  const PTYPE_NACK := 3
  const HEADER_SIZE := 8
  const PAYLOAD_AT := 12
  /** The largest encoded packet; every caller's buffer has this size. */
  const DATAGRAM_SIZE := 528

  datatype Status = PktOk | EType | ETr | ELength | ECrc | EWindow | ESeqnum | ENomem | ENoHeader | EUnconsistent

  /** The fields of a packet. `length` is the field itself; the getter shows it
      only when TR is 0. */
  datatype Pkt = Pkt(kind: int, tr: int, window: int, seqnum: byte, length: nat, timestamp: word32, payload: seq<byte>)
  {
    function Length(): nat {
      if tr == 0 then length else 0
    }

    predicate WellFormed() {
      0 <= kind < 4 && 0 <= tr < 2 && 0 <= window < 32 && length <= MAX_PAYLOAD_SIZE && |payload| == Length()
    }
  }

  datatype Decoded = Packet(pkt: Pkt) | Refused(status: Status)

  /** The packed structure of a packet as it lies in memory: the bit fields
      WINDOW, TR and TYPE from the low end of the first byte, and LENGTH kept in
      network order. */
  function Header(p: Pkt): (r: seq<byte>)
    requires p.WellFormed()
    ensures |r| == HEADER_SIZE
  {
    [p.window + 32 * p.tr + 64 * p.kind, p.seqnum] + Memory16(Swap16(p.length)) + Memory32(p.timestamp)
  }

  function Encode(p: Pkt): (r: seq<byte>)
    requires p.WellFormed()
    ensures |r| == PAYLOAD_AT + p.Length() + if p.Length() > 0 then 4 else 0
  {
    Header(p) + Network32(Crc32(Header(p))) + p.payload +
    if p.Length() > 0 then Network32(Crc32(p.payload)) else []
  }

  /** `buf` is as long as `pkt_decode` reads: the declared length decides how far
      that is, not `len`. */
  predicate Readable(buf: seq<byte>, len: nat): (r: bool)
    ensures |buf| >= DATAGRAM_SIZE ==> r
  {
    len < 4 ||
    (|buf| >= 4 &&
     var length := Swap16(Load16(buf, 2));
     length > MAX_PAYLOAD_SIZE ||
     (|buf| >= PAYLOAD_AT &&
      (LoadNetwork32(buf, 8) != Crc32(buf[..HEADER_SIZE]) ||
       |buf| >= PAYLOAD_AT + length + if length > 0 && buf[0] / 32 % 2 == 0 then 4 else 0)))
  }

  /** `pkt_decode` on the first `len` bytes of the receive buffer `buf`. */
  function Decode(buf: seq<byte>, len: nat): (r: Decoded)
    requires Readable(buf, len)
  {
    if len == 0 then Refused(EUnconsistent)
    else if len < 4 then Refused(ENoHeader)
    else
      var length := Swap16(Load16(buf, 2));
      if length > MAX_PAYLOAD_SIZE then Refused(ELength)
      else if LoadNetwork32(buf, 8) != Crc32(buf[..HEADER_SIZE]) then Refused(ECrc)
      else
        var tr := buf[0] / 32 % 2;
        var visible := if tr == 0 then length else 0;
        var payload := buf[PAYLOAD_AT..PAYLOAD_AT + visible];
        if visible > 0 && LoadNetwork32(buf, PAYLOAD_AT + visible) != Crc32(payload) then Refused(ECrc)
        else
          Packet(Pkt(buf[0] / 64, tr, buf[0] % 32, buf[1], length, Load32(buf, 4), payload))
  }

  /** The header is accepted and declares a length: `pkt_decode` sets the payload,
      whatever comes of the second checksum. */
  predicate TakesPayload(buf: seq<byte>, len: nat)
    requires Readable(buf, len)
  {
    && len >= 4 && 0 < Swap16(Load16(buf, 2)) <= MAX_PAYLOAD_SIZE
    && LoadNetwork32(buf, 8) == Crc32(buf[..HEADER_SIZE])
  }

  /** The first eight bytes determine the fields, and the other way round. */
  lemma HeaderFields(p: Pkt, buf: seq<byte>)
    requires p.WellFormed() && |buf| >= HEADER_SIZE
    ensures buf[..HEADER_SIZE] == Header(p) <==>
            && buf[0] % 32 == p.window && buf[0] / 32 % 2 == p.tr && buf[0] / 64 == p.kind
            && buf[1] == p.seqnum && Swap16(Load16(buf, 2)) == p.length && Load32(buf, 4) == p.timestamp
  {
    var h := buf[..HEADER_SIZE];
    Swap16Twice(p.length);
    Swap16Twice(Load16(buf, 2));
    LoadMemorySlice16(buf, 2, Swap16(p.length));
    LoadMemorySlice32(buf, 4, p.timestamp);
    assert h == [h[0], h[1]] + h[2..4] + h[4..8];
    assert h[2..4] == buf[2..4] && h[4..8] == buf[4..8];
    assert Header(p)[2..4] == Memory16(Swap16(p.length)) && Header(p)[4..8] == Memory32(p.timestamp);
  }

  /** The four parts of an encoded packet with `n` payload bytes. */
  datatype Zones = Zones(header: seq<byte>, crc1: seq<byte>, payload: seq<byte>, crc2: seq<byte>)

  function Cut(s: seq<byte>, n: nat): Zones
    requires |s| >= 12 + n
  {
    Zones(s[..8], s[8..12], s[12..12 + n], s[12 + n..])
  }

  lemma CutInjective(s: seq<byte>, t: seq<byte>, n: nat)
    requires |s| >= 12 + n && |t| >= 12 + n && Cut(s, n) == Cut(t, n)
    ensures s == t
  {
    assert forall u: seq<byte> :: |u| >= 12 + n ==> u == u[..8] + u[8..12] + u[12..12 + n] + u[12 + n..];
  }

  /** Every checksum stands behind what it covers. */
  predicate Consistent(z: Zones) {
    z.crc1 == Network32(Crc32(z.header)) && (z.payload != [] ==> z.crc2 == Network32(Crc32(z.payload)))
  }

  lemma EncodeZones(p: Pkt)
    requires p.WellFormed()
    ensures Cut(Encode(p), p.Length()).header == Header(p) && Cut(Encode(p), p.Length()).payload == p.payload
    ensures Consistent(Cut(Encode(p), p.Length()))
  {
    hide Header, Crc32, Network32;
  }

  /** The converse: zones with consistent checksums are the encoding. */
  lemma ZonesEncode(p: Pkt, s: seq<byte>)
    requires p.WellFormed() && |s| == |Encode(p)|
    requires Cut(s, p.Length()).header == Header(p) && Cut(s, p.Length()).payload == p.payload
    requires Consistent(Cut(s, p.Length()))
    ensures s == Encode(p)
  {
    EncodeZones(p);
    CutInjective(s, Encode(p), p.Length());
  }

  /** What `Decode` tests, field by field. */
  lemma DecodeByFields(buf: seq<byte>, len: nat, p: Pkt)
    requires Readable(buf, len) && len >= 4 && p.WellFormed() && |buf| >= |Encode(p)|
    ensures Decode(buf, len) == Packet(p) <==>
            && buf[0] % 32 == p.window && buf[0] / 32 % 2 == p.tr && buf[0] / 64 == p.kind
            && buf[1] == p.seqnum && Swap16(Load16(buf, 2)) == p.length && Load32(buf, 4) == p.timestamp
            && LoadNetwork32(buf, 8) == Crc32(buf[..8])
            && buf[12..12 + p.Length()] == p.payload
            && (p.Length() > 0 ==> LoadNetwork32(buf, 12 + p.Length()) == Crc32(p.payload))
  {
    hide LoadNetwork32, Crc32, Load32, Load16, Swap16;
  }

  lemma DecodedIsWellFormed(buf: seq<byte>, len: nat)
    requires Readable(buf, len) && Decode(buf, len).Packet?
    ensures len >= 4 && Decode(buf, len).pkt.WellFormed() && |buf| >= |Encode(Decode(buf, len).pkt)|
  {
  }

  lemma RefusedHasStatus(buf: seq<byte>, len: nat)
    requires Readable(buf, len)
    ensures Decode(buf, len).Refused? ==> Decode(buf, len).status != PktOk
  {
  }

  /** Decoding accepts a buffer as the packet `p` exactly when the buffer begins
      with the encoding of `p`. */
  lemma DecodeIffEncoding(buf: seq<byte>, len: nat, p: Pkt)
    requires Readable(buf, len)
    ensures Decode(buf, len) == Packet(p) <==> len >= 4 && p.WellFormed() && Encode(p) <= buf
  {
    hide Encode, Decode, Readable, Header, Network32, LoadNetwork32, Crc32;
    if len >= 4 && p.WellFormed() && |buf| >= |Encode(p)| {
      var n := p.Length();
      var s := buf[..|Encode(p)|];
      DecodeByFields(buf, len, p);
      HeaderFields(p, buf);
      NetworkSlice32(buf, 8, Crc32(Header(p)));
      if n > 0 {
        NetworkSlice32(buf, 12 + n, Crc32(p.payload));
      }
      EncodeZones(p);
      assert Cut(s, n) == Zones(buf[..8], buf[8..12], buf[12..12 + n], buf[12 + n..|s|]);
      if Decode(buf, len) == Packet(p) {
        ZonesEncode(p, s);
      }
    } else if Decode(buf, len) == Packet(p) {
      DecodedIsWellFormed(buf, len);
      assert false;
    }
  }

  /** With TR set the declared length is skipped over all the same. */
  lemma EncodingIsReadable(p: Pkt, buf: seq<byte>, len: nat)
    requires p.WellFormed() && Encode(p) <= buf && (p.tr == 1 ==> |buf| >= PAYLOAD_AT + p.length)
    ensures Readable(buf, len)
  {
    hide Header, Crc32, Network32, LoadNetwork32;
    assert buf[..HEADER_SIZE] == Encode(p)[..HEADER_SIZE] == Header(p);
    HeaderFields(p, buf);
  }

  /** Encoding and then decoding gives the packet back, whatever bytes an
      earlier datagram left behind it in the buffer. */
  lemma RoundTrip(p: Pkt, rest: seq<byte>)
    requires p.WellFormed() && (p.tr == 1 ==> |rest| >= p.length)
    ensures Readable(Encode(p) + rest, |Encode(p)|)
    ensures Decode(Encode(p) + rest, |Encode(p)|) == Packet(p)
  {
    hide Encode, Decode, Readable;
    EncodingIsReadable(p, Encode(p) + rest, |Encode(p)|);
    DecodeIffEncoding(Encode(p) + rest, |Encode(p)|, p);
  }
}
