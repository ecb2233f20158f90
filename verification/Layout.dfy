/** The bytes of packets and records in plain arithmetic, and the status that decoding
    gives to every buffer. */
module Layout {
  import opened Bytes
  import opened Common
  import opened Crc
  import opened CrcBoundary
  import opened PacketSpec
  import opened Damage
  import opened RecordSpec

  /** Two and four bytes as a number, high byte first as on the network, or low byte
      first as in the memory of the machine. */
  function High2(s: seq<byte>, i: nat): int
    requires i + 2 <= |s|
  {
    var b0: int, b1: int := s[i], s[i + 1];
    256 * b0 + b1
  }

  function High4(s: seq<byte>, i: nat): int
    requires i + 4 <= |s|
  {
    var b0: int, b1: int, b2: int, b3: int := s[i], s[i + 1], s[i + 2], s[i + 3];
    256 * (256 * (256 * b0 + b1) + b2) + b3
  }

  function Low2(s: seq<byte>, i: nat): int
    requires i + 2 <= |s|
  {
    var b0: int, b1: int := s[i], s[i + 1];
    b0 + 256 * b1
  }

  function Low4(s: seq<byte>, i: nat): int
    requires i + 4 <= |s|
  {
    var b0: int, b1: int, b2: int, b3: int := s[i], s[i + 1], s[i + 2], s[i + 3];
    b0 + 256 * (b1 + 256 * (b2 + 256 * b3))
  }

  lemma WordsInMemory(s: seq<byte>, i: nat)
    requires i + 4 <= |s|
    ensures Load16(s, i) == Low2(s, i) && Swap16(Load16(s, i)) == High2(s, i)
    ensures Load32(s, i) == Low4(s, i) && LoadNetwork32(s, i) == High4(s, i)
  {
    var m := s[i..i + 4];
    LoadSlice32(s, i);
    MemoryLoad32(m);
    assert m == [s[i], s[i + 1], s[i + 2], s[i + 3]];
    assert Memory16(Load16(s, i)) == [s[i], s[i + 1]] by {
      LoadMemorySlice16(s, i, Load16(s, i));
      assert s[i..i + 2] == [s[i], s[i + 1]];
    }
    hide Memory16, Memory32;
  }

  /** The bytes in front of `s` are those of packet `p`: type, TR and window in one
      byte, the number, the length high byte first, the clock low byte first, and the
      checksums high byte first behind what they cover. */
  predicate PacketAt(p: Pkt, s: seq<byte>) {
    var n := if p.tr == 0 then p.length else 0;
    && |s| >= 12 + n + (if n > 0 then 4 else 0) && |p.payload| == n
    && s[0] == 64 * p.kind + 32 * p.tr + p.window && s[1] == p.seqnum
    && High2(s, 2) == p.length && Low4(s, 4) == p.timestamp && High4(s, 8) == Crc32(s[..8])
    && s[12..12 + n] == p.payload && (n > 0 ==> High4(s, 12 + n) == Crc32(s[12..12 + n]))
  }

  lemma HeaderByte(p: Pkt, b: byte)
    requires p.WellFormed()
    ensures b == 64 * p.kind + 32 * p.tr + p.window <==>
            b % 32 == p.window && b / 32 % 2 == p.tr && b / 64 == p.kind
  {
  }

  /** The eight bytes of the header. */
  lemma HeaderIffLayout(p: Pkt, s: seq<byte>)
    requires p.WellFormed() && |s| >= 8
    ensures s[..8] == Header(p) <==>
            && s[0] == 64 * p.kind + 32 * p.tr + p.window && s[1] == p.seqnum
            && High2(s, 2) == p.length && Low4(s, 4) == p.timestamp
  {
    hide Header, Load16, Load32, LoadNetwork32, Swap16, Low4, High4, High2;
    HeaderFields(p, s);
    HeaderByte(p, s[0]);
    WordsInMemory(s, 2);
    WordsInMemory(s, 4);
  }

  lemma ChecksumIffLayout(s: seq<byte>, i: nat, x: word32)
    requires i + 4 <= |s|
    ensures s[i..i + 4] == Network32(x) <==> High4(s, i) == x
  {
    hide Network32, LoadNetwork32, High4;
    WordsInMemory(s, i);
    NetworkSlice32(s, i, x);
  }

  /** What is sent for a packet is exactly what stands in the layout. */
  lemma EncodeIffLayout(p: Pkt, s: seq<byte>)
    requires p.WellFormed()
    ensures Encode(p) <= s <==> PacketAt(p, s)
  {
    hide Crc32, Encode, Header, Network32, Low4, High4, High2;
    var n := p.Length();
    if |s| >= |Encode(p)| {
      var e := s[..|Encode(p)|];
      HeaderIffLayout(p, s);
      ChecksumIffLayout(s, 8, Crc32(s[..8]));
      if n > 0 {
        ChecksumIffLayout(s, 12 + n, Crc32(s[12..12 + n]));
      }
      EncodeZones(p);
      assert Cut(e, n) == Zones(s[..8], s[8..12], s[12..12 + n], s[12 + n..|e|]);
      if PacketAt(p, s) {
        assert Consistent(Cut(e, n));
        ZonesEncode(p, e);
      }
      if Encode(p) <= s {
        assert e == Encode(p);
        assert PacketAt(p, s);
      }
    }
  }

  /** The receive buffers hold the largest packet, and not a byte more. */
  lemma LargestPacket(p: Pkt)
    requires p.WellFormed()
    ensures |Encode(p)| <= DATAGRAM_SIZE
    ensures |Encode(p)| == DATAGRAM_SIZE <==> p.tr == 0 && p.length == 512
  {
    hide Crc32, Header, Network32;
  }

  /** A packet is accepted exactly if it stands in that layout. */
  lemma DecodeIffLayout(buf: seq<byte>, len: nat, p: Pkt)
    requires Readable(buf, len)
    ensures Decode(buf, len) == Packet(p) <==> len >= 4 && p.WellFormed() && PacketAt(p, buf)
  {
    hide Encode, Decode, Readable, PacketAt;
    DecodeIffEncoding(buf, len, p);
    if p.WellFormed() {
      EncodeIffLayout(p, buf);
    }
  }

  /** Some packet stands in front. */
  ghost predicate HasPacket(buf: seq<byte>) {
    exists p: Pkt :: p.WellFormed() && PacketAt(p, buf)
  }

  /** What the status says: nothing was received, less than four bytes, a declared
      length of more than 512 bytes, or a wrong checksum in every other case in which
      no packet stands in front. */
  ghost function StatusOf(buf: seq<byte>, len: nat): Status
    requires len >= 4 ==> |buf| >= 4
  {
    if len == 0 then EUnconsistent
    else if len < 4 then ENoHeader
    else if High2(buf, 2) > 512 then ELength
    else if HasPacket(buf) then PktOk
    else ECrc
  }

  /** Decoding gives exactly this status. */
  lemma DecodeStatus(buf: seq<byte>, len: nat)
    requires Readable(buf, len)
    ensures len >= 4 ==> |buf| >= 4
    ensures var d := Decode(buf, len); StatusOf(buf, len) == if d.Packet? then PktOk else d.status
  {
    hide PacketAt, Crc32, Load32, LoadNetwork32;
    if len >= 4 {
      DeclaredLength(buf);
      if Decode(buf, len).Packet? {
        DecodedIsWellFormed(buf, len);
        DecodeIffLayout(buf, len, Decode(buf, len).pkt);
      }
      forall p: Pkt | p.WellFormed() && PacketAt(p, buf)
        ensures Decode(buf, len) == Packet(p)
      {
        DecodeIffLayout(buf, len, p);
      }
    }
  }

  /** Decoding takes a payload exactly if a length from 1 to 512 is declared and the
      checksum of the header is right. */
  lemma TakesPayloadIff(buf: seq<byte>, len: nat)
    requires Readable(buf, len)
    ensures TakesPayload(buf, len) <==>
            && len >= 4 && |buf| >= 4 && 0 < High2(buf, 2) <= 512
            && |buf| >= 12 && High4(buf, 8) == Crc32(buf[..8])
  {
    hide Crc32, LoadNetwork32, Swap16, High2, High4;
    if len >= 4 {
      DeclaredLength(buf);
      if |buf| >= 12 {
        WordsInMemory(buf, 8);
      }
    }
  }

  lemma DeclaredLength(buf: seq<byte>)
    requires |buf| >= 4
    ensures Swap16(Load16(buf, 2)) == High2(buf, 2)
  {
    WordsInMemory([buf[2], buf[3], 0, 0], 0);
  }

  /** After a burst that is noticed, the refusal says that the length is too large
      if that is what the burst made of it, and that a checksum is wrong otherwise. */
  lemma NoticedStatus(p: Pkt, d: seq<byte>, at: nat, rest: seq<byte>, len: nat)
    requires p.WellFormed() && Burst(Encode(p), d, at) && Readable(d + rest, len) && len >= 4
    requires d != Encode(p) && !Overlooked(p, d)
    ensures |d| >= 12 && Decode(d + rest, len) == Refused(if High2(d, 2) > 512 then ELength else ECrc)
    ensures at >= 4 ==> High2(d, 2) <= 512
  {
    hide Encode, Decode, Readable, Overlooked, HasPacket, PacketAt, Burst;
    DamageIsNoticed(p, d, at, rest, len);
    DecodeStatus(d + rest, len);
    RefusedHasStatus(d + rest, len);
    EncodedIsLong(p);
    BurstLength(Encode(p), d, at);
    assert (d + rest)[2] == d[2] && (d + rest)[3] == d[3];
    if at >= 4 {
      LengthBefore(p, d, at);
    }
  }

  lemma LengthBefore(p: Pkt, d: seq<byte>, at: nat)
    requires p.WellFormed() && Burst(Encode(p), d, at) && at >= 4 && |d| == |Encode(p)| >= 12
    ensures High2(d, 2) == p.length
  {
    hide Encode, Low4, High4;
    var e, lo := Encode(p), Min(at, |d|);
    EncodeIffLayout(p, e);
    assert d[2] == d[..lo][2] == e[2] && d[3] == d[..lo][3] == e[3];
  }

  lemma EncodedIsLong(p: Pkt)
    requires p.WellFormed()
    ensures |Encode(p)| >= 12
  {
  }

  /** A record: its type and the flag of its footer in one word low byte first, the
      length high byte first, the payload, and the footer low byte first. */
  predicate RecordAt(r: Rec, s: seq<byte>) {
    var n := |r.payload|;
    && |s| >= 4 + n + (if r.uuid.Some? then 4 else 0)
    && Low2(s, 0) == r.kind + (if r.uuid.Some? then 32768 else 0) && High2(s, 2) == n
    && s[4..4 + n] == r.payload && (r.uuid.Some? ==> Low4(s, 4 + n) == r.uuid.value)
  }

  /** What is written for a record is exactly what stands in the layout. */
  lemma ImageIffLayout(r: Rec, s: seq<byte>)
    requires r.WellFormed()
    ensures Image(r) <= s <==> RecordAt(r, s)
  {
    hide Image, Load16, Load32, Swap16, Memory16, Memory32, Low4;
    var n, first := |r.payload|, r.kind + if r.uuid.Some? then 0x8000 else 0;
    if |s| >= |Image(r)| {
      ImageParts(r, s);
      WordsInMemory(s[..4] + [0, 0], 0);
      WordsInMemory(s[..4] + [0, 0], 2);
      var t := s[..4] + [0, 0];
      LoadMemorySlice16(t, 0, first);
      LoadMemorySlice16(t, 2, Swap16(n));
      Swap16Twice(n);
      Swap16Twice(Load16(t, 2));
      assert t[0..2] == s[0..2] && t[2..4] == s[2..4];
      if r.uuid.Some? {
        WordsInMemory(s, 4 + n);
        LoadMemorySlice32(s, 4 + n, r.uuid.value);
      }
    }
  }

  /** A read returns a record exactly if it stands in that layout, and moves on by its
      size. */
  lemma ParseIffLayout(s: seq<byte>, r: Rec, k: nat)
    requires |s| >= 4
    ensures Parse(s) == Done(r, k) <==>
            r.WellFormed() && RecordAt(r, s) && k == 4 + |r.payload| + if r.uuid.Some? then 4 else 0
  {
    hide Image, Parse, RecordAt;
    ParseIffImage(s, r);
    if r.WellFormed() {
      ImageIffLayout(r, s);
    }
  }
}
