/** What `packet_interface.h` promises of decoding and encoding, and when the code
    keeps to it. */
module Interface {
  import opened Bytes
  import opened Crc
  import opened PacketSpec

  /** A header with its TR bit taken as 0. */
  function Cleared(h: seq<byte>): (r: seq<byte>)
    requires |h| == HEADER_SIZE
    ensures |r| == HEADER_SIZE
  {
    [h[0] - 32 * (h[0] / 32 % 2)] + h[1..]
  }

  /** The bytes of a packet as the interface describes them: the first checksum is
      that of the cleared header. */
  function DocumentedEncoding(p: Pkt): (r: seq<byte>)
    requires p.WellFormed()
    ensures |r| == PAYLOAD_AT + p.Length() + if p.Length() > 0 then 4 else 0
  {
    Header(p) + Network32(Crc32(Cleared(Header(p)))) + p.payload +
    if p.Length() > 0 then Network32(Crc32(p.payload)) else []
  }

  /** The bytes received pass every test that the interface names: both checksums,
      one of the three types, and a length that agrees with their number. */
  ghost predicate Acceptable(received: seq<byte>) {
    exists p: Pkt :: p.WellFormed() && p.kind != 0 && received == DocumentedEncoding(p)
  }

  lemma ClearBit(b: byte)
    ensures b - 32 * (b / 32 % 2) == b <==> b / 32 % 2 == 0
  {
  }

  lemma ClearedDiffers(p: Pkt)
    requires p.WellFormed()
    ensures Cleared(Header(p)) == Header(p) <==> p.tr == 0
    ensures Crc32(Cleared(Header(p))) == Crc32(Header(p)) <==> p.tr == 0
  {
    var h := Header(p);
    assert h[..HEADER_SIZE] == h;
    HeaderFields(p, h);
    hide Header, Crc32;
    ClearBit(h[0]);
    assert h == [h[0]] + h[1..] && Cleared(h)[0] == h[0] - 32 * (h[0] / 32 % 2) && Cleared(h)[1..] == h[1..];
    assert Cleared(h)[4..] == h[1..][3..] == h[4..];
    assert Burst(h, Cleared(h), 0);
    BurstChangesCrc(h, Cleared(h), 0);
  }

  lemma EncodingsAgree(p: Pkt)
    requires p.WellFormed()
    ensures DocumentedEncoding(p) == Encode(p) <==> p.tr == 0
  {
    ClearedDiffers(p);
    assert DocumentedEncoding(p)[8..12] == Network32(Crc32(Cleared(Header(p))));
    assert Encode(p)[8..12] == Network32(Crc32(Header(p)));
    hide Header, Crc32, Network32;
    if DocumentedEncoding(p) == Encode(p) {
      NetworkInjective32(Crc32(Cleared(Header(p))), Crc32(Header(p)));
    }
  }

  /** An encoding with TR set never passes the documented test. */
  lemma SetNeverAcceptable(p: Pkt, q: Pkt, buf: seq<byte>, len: nat)
    requires p.WellFormed() && q.WellFormed() && len <= |buf|
    requires Encode(p) <= buf && buf[..len] == DocumentedEncoding(q)
    ensures q.tr == 0
  {
    assert buf[..12] == Encode(p)[..12] == DocumentedEncoding(q)[..12] by {
      assert buf[..len][..12] == buf[..12];
    }
    assert Encode(p)[..12] == Header(p) + Network32(Crc32(Header(p)));
    assert DocumentedEncoding(q)[..12] == Header(q) + Network32(Crc32(Cleared(Header(q))));
    hide Crc32, Network32, Header, Encode, DocumentedEncoding;
    assert Header(p) == buf[..12][..8] == Header(q) && buf[..12][8..] == Network32(Crc32(Header(p)));
    NetworkInjective32(Crc32(Cleared(Header(q))), Crc32(Header(q)));
    ClearedDiffers(q);
  }

  /** A packet is accepted although the interface refuses it exactly if its TR is
      set, its type is none of the three, or its length does not agree with the
      number of bytes received; and the only packets refused although the interface
      accepts them have TR set. */
  lemma DecodeAgainstInterface(buf: seq<byte>, len: nat)
    requires Readable(buf, len) && len <= |buf|
    ensures match Decode(buf, len)
            case Packet(p) =>
              p.WellFormed() && (Acceptable(buf[..len]) <==> p.tr == 0 && p.kind != 0 && len == |Encode(p)|)
            case Refused(_) => Acceptable(buf[..len]) ==> buf[0] / 32 % 2 == 1
  {
    hide Encode, Decode, Readable, DocumentedEncoding;
    if Acceptable(buf[..len]) {
      var q: Pkt :| q.WellFormed() && q.kind != 0 && buf[..len] == DocumentedEncoding(q);
      assert len >= 12;
      EncodingsAgree(q);
      if q.tr == 0 {
        DecodeIffEncoding(buf, len, q);
      } else {
        TrBit(q, buf, len);
      }
      if Decode(buf, len).Packet? {
        DecodedIsWellFormed(buf, len);
        DecodeIffEncoding(buf, len, Decode(buf, len).pkt);
        SetNeverAcceptable(Decode(buf, len).pkt, q, buf, len);
      }
    } else if Decode(buf, len).Packet? {
      var p := Decode(buf, len).pkt;
      DecodedIsWellFormed(buf, len);
      DecodeIffEncoding(buf, len, p);
      EncodingsAgree(p);
    }
  }

  lemma TrBit(q: Pkt, buf: seq<byte>, len: nat)
    requires q.WellFormed() && q.tr == 1 && len <= |buf| && buf[..len] == DocumentedEncoding(q)
    ensures buf[0] / 32 % 2 == 1
  {
    assert buf[..8] == buf[..len][..8] == Header(q);
    HeaderFields(q, buf);
  }

  /** Inputs that are accepted against the interface: any packet without a type or
      with TR set, and any packet at all of which four bytes have arrived in a
      buffer that holds the rest from before. */
  lemma AcceptedAgainstInterface(p: Pkt, rest: seq<byte>)
    requires p.WellFormed() && (p.tr == 1 ==> |rest| >= p.length)
    ensures var buf, n := Encode(p) + rest, |Encode(p)|;
            && Readable(buf, n) && Decode(buf, n) == Packet(p) && (p.kind == 0 || p.tr == 1 ==> !Acceptable(buf[..n]))
            && Readable(buf, 4) && Decode(buf, 4) == Packet(p) && !Acceptable(buf[..4])
  {
    hide Encode, Decode, Readable, Acceptable;
    var buf, n := Encode(p) + rest, |Encode(p)|;
    RoundTrip(p, rest);
    EncodingIsReadable(p, buf, 4);
    DecodeIffEncoding(buf, 4, p);
    DecodeAgainstInterface(buf, n);
    DecodeAgainstInterface(buf, 4);
  }

  /** Inputs that are refused against the interface: any packet of the three types
      with TR set, sent as the interface describes it. */
  lemma RefusedAgainstInterface(p: Pkt, rest: seq<byte>)
    requires p.WellFormed() && p.kind != 0 && p.tr == 1
    ensures var buf, n := DocumentedEncoding(p) + rest, |DocumentedEncoding(p)|;
            Readable(buf, n) && Decode(buf, n) == Refused(ECrc) && Acceptable(buf[..n])
  {
    var buf, n := DocumentedEncoding(p) + rest, |DocumentedEncoding(p)|;
    assert buf[..8] == Header(p) && buf[8..12] == Network32(Crc32(Cleared(Header(p))));
    hide DocumentedEncoding, Header, Crc32, Network32, LoadNetwork32, Cleared;
    assert buf[..n] == DocumentedEncoding(p);
    HeaderFields(p, buf);
    NetworkSlice32(buf, 8, Crc32(Cleared(Header(p))));
    ClearedDiffers(p);
  }

  /** What `pkt_encode` should return when `room` bytes are free. */
  function DocumentedStatus(p: Pkt, room: nat): Status
    requires p.WellFormed()
  {
    if room < |Encode(p)| then ENomem else PktOk
  }
}
