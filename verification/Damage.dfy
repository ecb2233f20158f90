/** Which damage to a datagram its two checksums notice: every burst of at most
    four bytes except one pattern at the end of what a checksum covers. */
module Damage {
  import opened Bytes
  import opened Crc
  import opened CrcBoundary
  import opened PacketSpec

  /** The header with its checksum, and the payload with its own. */
  lemma EncodedSeals(p: Pkt)
    requires p.WellFormed()
    ensures Encode(p)[..12] == Sealed(Header(p))
    ensures p.Length() > 0 ==> Encode(p)[12..] == Sealed(p.payload)
    ensures p.Length() == 0 ==> |Encode(p)| == 12
  {
    hide Header, Crc32, Network32;
  }

  lemma BurstParts(e: seq<byte>, d: seq<byte>, at: nat)
    requires Burst(e, d, at) && |e| >= 12
    ensures Burst(e[..12], d[..12], at)
    ensures Burst(e[12..], d[12..], if at < 12 then 0 else at - 12)
    ensures at + 4 <= 12 ==> e[12..] == d[12..]
  {
    var lo, hi := Min(at, |e|), Min(at + 4, |e|);
    assert forall k :: 0 <= k < lo ==> e[k] == e[..lo][k] && d[k] == d[..lo][k];
    assert forall k :: hi <= k < |e| ==> e[k] == e[hi..][k - hi] && d[k] == d[hi..][k - hi];
  }

  lemma MissedIsBurst(e: seq<byte>, d: seq<byte>, b: nat)
    requires Missed(e, d, b)
    ensures Burst(e, d, b - 2)
  {
    hide DiffersBy;
  }

  /** A miss in the front part leaves the back part alone, and the other way
      round. */
  lemma MissedFront(e: seq<byte>, d: seq<byte>, b: nat, m: nat)
    requires m <= |e| == |d| && b + 2 <= m
    ensures Missed(e, d, b) <==> Missed(e[..m], d[..m], b) && e[m..] == d[m..]
  {
    hide DiffersBy;
    var x, y := e[b + 2..], d[b + 2..];
    assert x == e[..m][b + 2..] + e[m..] && y == d[..m][b + 2..] + d[m..];
    assert x[m - b - 2..] == e[m..] && y[m - b - 2..] == d[m..];
    assert x[..m - b - 2] == e[..m][b + 2..] && y[..m - b - 2] == d[..m][b + 2..];
    if 2 <= b {
      assert e[..m][..b - 2] == e[..b - 2] && d[..m][..b - 2] == d[..b - 2];
    }
  }

  lemma MissedBack(e: seq<byte>, d: seq<byte>, b: nat, m: nat)
    requires m + 2 <= b && b + 2 <= |e| == |d|
    ensures Missed(e, d, b) <==> Missed(e[m..], d[m..], b - m) && e[..m] == d[..m]
  {
    hide DiffersBy;
    var x, y := e[..b - 2], d[..b - 2];
    assert x == e[..m] + e[m..][..b - m - 2] && y == d[..m] + d[m..][..b - m - 2];
    assert x[..m] == e[..m] && y[..m] == d[..m];
    assert x[m..] == e[m..][..b - m - 2] && y[m..] == d[m..][..b - m - 2];
    assert e[m..][b - m + 2..] == e[b + 2..] && d[m..][b - m + 2..] == d[b + 2..];
  }

  lemma FrontSealed(p: Pkt, d: seq<byte>, at: nat)
    requires p.WellFormed() && Burst(Encode(p), d, at)
    ensures d[8..12] == Network32(Crc32(d[..8])) <==>
            d[..12] == Encode(p)[..12] || Missed(Encode(p)[..12], d[..12], 8)
  {
    EncodedSeals(p);
    hide Header, Crc32, Network32, Encode, Missed;
    BurstParts(Encode(p), d, at);
    var x, y := Encode(p)[..12], d[..12];
    assert y[8..] == d[8..12] && y[..8] == d[..8] && x[..8] == Header(p);
    SealedBurstAt(x, y, 8, at);
  }

  lemma BackSealed(p: Pkt, d: seq<byte>, at: nat)
    requires p.WellFormed() && Burst(Encode(p), d, at) && p.Length() > 0
    ensures var n := p.Length();
            d[12 + n..] == Network32(Crc32(d[12..12 + n])) <==>
            d[12..] == Encode(p)[12..] || Missed(Encode(p)[12..], d[12..], n)
  {
    EncodedSeals(p);
    hide Header, Crc32, Network32, Encode, Missed;
    BurstParts(Encode(p), d, at);
    var n, x, y := p.Length(), Encode(p)[12..], d[12..];
    assert y[n..] == d[12 + n..] && y[..n] == d[12..12 + n] && x[..n] == p.payload;
    SealedBurstAt(x, y, n, if at < 12 then 0 else at - 12);
  }

  /** The bursts that are not noticed: the pattern at the end of the header, or at
      the end of the payload. */
  predicate Overlooked(p: Pkt, d: seq<byte>)
    requires p.WellFormed()
  {
    Missed(Encode(p), d, 8) || (p.Length() >= 2 && Missed(Encode(p), d, 12 + p.Length()))
  }

  /** If the checksum of the header is right, its first six bytes are too. */
  lemma SameLength(p: Pkt, d: seq<byte>, q: Pkt, rest: seq<byte>)
    requires p.WellFormed() && q.WellFormed() && |d| == |Encode(p)| && Encode(q) <= d + rest
    requires d[..12] == Encode(p)[..12] || Missed(Encode(p)[..12], d[..12], 8)
    ensures q.tr == p.tr && q.length == p.length && d == Encode(q)
  {
    var e := Encode(p);
    assert e[..8] == Header(p) && Encode(q)[..8] == Header(q);
    hide Header, Encode, DiffersBy;
    assert d[..6] == e[..6] by {
      assert d[..12][..6] == d[..6] && e[..12][..6] == e[..6];
    }
    assert (d + rest)[..8] == Encode(q)[..8] && d[..8] == (d + rest)[..8];
    HeaderFields(p, e);
    HeaderFields(q, d);
    SameStart(e, d);
    assert |Encode(q)| == |Encode(p)|;
  }

  lemma SameStart(e: seq<byte>, d: seq<byte>)
    requires |e| >= 12 && |d| >= 12 && d[..6] == e[..6]
    ensures d[0] == e[0] && Load16(d, 2) == Load16(e, 2)
  {
    assert d[0] == d[..6][0] && d[2] == d[..6][2] && d[3] == d[..6][3];
  }

  lemma SealedInFront(q: Pkt, buf: seq<byte>)
    requires q.WellFormed() && Encode(q) <= buf
    ensures buf[..12][8..] == Network32(Crc32(buf[..12][..8]))
  {
    EncodedSeals(q);
    hide Encode, Header, Network32, Crc32;
    assert buf[..12] == Encode(q)[..12] == Sealed(Header(q));
  }

  lemma BackOf(q: Pkt, d: seq<byte>)
    requires q.WellFormed() && q.Length() > 0 && d == Encode(q)
    ensures var n := q.Length(); d[12..12 + n] == q.payload && d[12 + n..] == Network32(Crc32(d[12..12 + n]))
  {
    EncodedSeals(q);
    hide Encode, Header, Network32, Crc32;
    var n := q.Length();
    assert d[12..12 + n] == d[12..][..n] && d[12 + n..] == d[12..][n..];
  }

  /** One burst is missed by at most one of the checksums. */
  lemma WhichHalf(e: seq<byte>, d: seq<byte>, at: nat, n: nat)
    requires Burst(e, d, at) && |e| == 16 + n && n > 0
    requires d[..12] == e[..12] || Missed(e[..12], d[..12], 8)
    requires d[12..] == e[12..] || Missed(e[12..], d[12..], n)
    ensures d == e || Missed(e, d, 8) || (n >= 2 && Missed(e, d, 12 + n))
  {
    hide DiffersBy;
    BurstParts(e, d, at);
    assert e == e[..12] + e[12..] && d == d[..12] + d[12..];
    MissedFront(e, d, 8, 12);
    if n >= 2 {
      MissedBack(e, d, 12 + n, 12);
    }
    if d[..12] != e[..12] {
      MissedPlace(e[..12], d[..12], 8, at);
    }
  }

  lemma FrontCase(p: Pkt, d: seq<byte>, at: nat, rest: seq<byte>, q: Pkt)
    requires p.WellFormed() && q.WellFormed() && Burst(Encode(p), d, at) && Encode(q) <= d + rest
    ensures d[..12] == Encode(p)[..12] || Missed(Encode(p)[..12], d[..12], 8)
    ensures d == Encode(q) && q.Length() == p.Length()
  {
    hide Header, Encode, Crc32, Network32, Missed;
    SealedInFront(q, d + rest);
    assert (d + rest)[..12] == d[..12] && d[..12][..8] == d[..8] && d[..12][8..] == d[8..12];
    FrontSealed(p, d, at);
    SameLength(p, d, q, rest);
  }

  lemma BackCase(p: Pkt, d: seq<byte>, at: nat, q: Pkt)
    requires p.WellFormed() && q.WellFormed() && Burst(Encode(p), d, at)
    requires d == Encode(q) && q.Length() == p.Length() > 0
    ensures d[12..] == Encode(p)[12..] || Missed(Encode(p)[12..], d[12..], p.Length())
  {
    hide Header, Encode, Crc32, Network32, Missed;
    BackOf(q, d);
    BackSealed(p, d, at);
  }

  lemma AcceptedIsOverlooked(p: Pkt, d: seq<byte>, at: nat, rest: seq<byte>, q: Pkt)
    requires p.WellFormed() && q.WellFormed() && Burst(Encode(p), d, at) && Encode(q) <= d + rest
    ensures d == Encode(p) || Overlooked(p, d)
  {
    hide Header, Encode, Missed;
    FrontCase(p, d, at, rest, q);
    if p.Length() > 0 {
      BackCase(p, d, at, q);
      WhichHalf(Encode(p), d, at, p.Length());
    } else {
      assert Encode(p)[..12] == Encode(p) && d[..12] == d;
    }
  }

  /** The packet that an overlooked burst is taken for: its timestamp or its
      payload has changed. */
  function TakenFor(p: Pkt, d: seq<byte>): (q: Pkt)
    requires p.WellFormed() && |d| == |Encode(p)|
    ensures q.WellFormed()
  {
    hide Encode, Missed, Load32;
    var n := p.Length();
    if Missed(Encode(p), d, 8) then p.(timestamp := Load32(d, 4)) else p.(payload := d[12..12 + n])
  }

  /** Only the timestamp lies in the last two bytes of the header. */
  lemma Restamped(p: Pkt, e: seq<byte>, d: seq<byte>)
    requires p.WellFormed() && |e| == |d| >= 12 && e[..8] == Header(p) && Missed(e, d, 8)
    ensures var q := p.(timestamp := Load32(d, 4)); d[..8] == Header(q) && q != p
  {
    var q := p.(timestamp := Load32(d, 4));
    hide Header, DiffersBy;
    SameStart(e, d);
    assert d[1] == d[..6][1] == e[..6][1];
    HeaderFields(p, e);
    HeaderFields(q, d);
    MissedDiffers(e, d, 8);
    assert d[6] == d[..8][6] && e[6] == e[..8][6];
  }

  lemma OverlookedHeader(p: Pkt, d: seq<byte>)
    requires p.WellFormed() && Missed(Encode(p), d, 8)
    ensures Encode(TakenFor(p, d)) == d && TakenFor(p, d) != p
  {
    hide Encode, Header, Crc32, Network32, DiffersBy;
    var e, n, q := Encode(p), p.Length(), p.(timestamp := Load32(d, 4));
    EncodeZones(p);
    Restamped(p, e, d);
    MissedIsBurst(e, d, 8);
    MissedFront(e, d, 8, 12);
    FrontSealed(p, d, 6);
    assert d[12..12 + n] == d[12..][..n] && e[12..12 + n] == e[12..][..n];
    assert d[12 + n..] == d[12..][n..] && e[12 + n..] == e[12..][n..];
    hide Missed;
    ZonesEncode(q, d);
  }

  lemma HeaderOnly(p: Pkt, payload: seq<byte>)
    requires p.WellFormed() && |payload| == |p.payload|
    ensures Header(p.(payload := payload)) == Header(p)
  {
  }

  lemma OverlookedPayload(p: Pkt, d: seq<byte>)
    requires p.WellFormed() && p.Length() >= 2 && Missed(Encode(p), d, 12 + p.Length()) && !Missed(Encode(p), d, 8)
    ensures Encode(TakenFor(p, d)) == d && TakenFor(p, d) != p
  {
    hide Encode, Header, Crc32, Network32, DiffersBy;
    var e, n := Encode(p), p.Length();
    var q := p.(payload := d[12..12 + n]);
    EncodeZones(p);
    MissedIsBurst(e, d, 12 + n);
    MissedBack(e, d, 12 + n, 12);
    MissedDiffers(e, d, 12 + n);
    BackSealed(p, d, 10 + n);
    hide Missed;
    HeaderOnly(p, q.payload);
    assert d[..8] == d[..12][..8] && e[..8] == e[..12][..8] && d[8..12] == d[..12][8..] && e[8..12] == e[..12][8..];
    assert d[10 + n] == d[12..12 + n][n - 2] && e[10 + n] == e[12..12 + n][n - 2];
    ZonesEncode(q, d);
  }

  /** Replace any four consecutive bytes of an encoded packet: it is accepted if
      and only if they are what they were, or the change is one of the two
      patterns. */
  lemma DamageIsNoticed(p: Pkt, d: seq<byte>, at: nat, rest: seq<byte>, len: nat)
    requires p.WellFormed() && Burst(Encode(p), d, at) && Readable(d + rest, len) && len >= 4
    ensures Decode(d + rest, len).Packet? <==> d == Encode(p) || Overlooked(p, d)
    ensures Overlooked(p, d) ==> Decode(d + rest, len) == Packet(TakenFor(p, d)) && TakenFor(p, d) != p
  {
    hide Decode, Encode, Readable, Missed;
    var buf := d + rest;
    if Decode(buf, len).Packet? {
      DecodedIsWellFormed(buf, len);
      DecodeIffEncoding(buf, len, Decode(buf, len).pkt);
      AcceptedIsOverlooked(p, d, at, rest, Decode(buf, len).pkt);
    }
    if d == Encode(p) {
      DecodeIffEncoding(buf, len, p);
    }
    if Overlooked(p, d) {
      if Missed(Encode(p), d, 8) {
        OverlookedHeader(p, d);
      } else {
        OverlookedPayload(p, d);
      }
      DecodeIffEncoding(buf, len, TakenFor(p, d));
    }
  }

  function Patched(e: seq<byte>, b: nat, x: seq<byte>): (d: seq<byte>)
    requires 2 <= b && b + 2 <= |e| && |x| == 4
    ensures |d| == |e|
  {
    e[..b - 2] + x + e[b + 2..]
  }

  lemma PatchedIsMissed(e: seq<byte>, b: nat, x: seq<byte>)
    requires 2 <= b && b + 2 <= |e| && |x| == 4
    requires DiffersBy(e[b - 2], x[0], 0x61) && DiffersBy(e[b - 1], x[1], 0xD8)
    requires DiffersBy(e[b], x[2], 0xF4) && DiffersBy(e[b + 1], x[3], 0xEE)
    ensures Missed(e, Patched(e, b, x), b)
  {
    hide DiffersBy;
  }

  /** Every packet can be damaged like that, in the header and, if there are two
      bytes of payload, in the payload. */
  lemma SomeOverlooked(p: Pkt, inPayload: bool) returns (d: seq<byte>)
    requires p.WellFormed() && (inPayload ==> p.Length() >= 2)
    ensures Missed(Encode(p), d, if inPayload then 12 + p.Length() else 8) && Overlooked(p, d)
  {
    hide Encode, DiffersBy, Missed;
    var e, b := Encode(p), if inPayload then 12 + p.Length() else 8;
    var x0 := Flip(e[b - 2], 0x61);
    var x1 := Flip(e[b - 1], 0xD8);
    var x2 := Flip(e[b], 0xF4);
    var x3 := Flip(e[b + 1], 0xEE);
    d := Patched(e, b, [x0, x1, x2, x3]);
    PatchedIsMissed(e, b, [x0, x1, x2, x3]);
  }

  lemma ZeroTimestamp(p: Pkt)
    requires p.WellFormed() && p.timestamp == 0
    ensures Encode(p)[4] == Encode(p)[5] == Encode(p)[6] == Encode(p)[7] == 0
  {
    hide Crc32, Network32;
    assert Encode(p)[..8] == Header(p);
    assert Header(p)[4..8] == [0, 0, 0, 0];
  }

  /** An overlooked change of the header is read as another timestamp. */
  lemma Misread(p: Pkt, d: seq<byte>)
    requires p.WellFormed() && p.tr == 0 && Missed(Encode(p), d, 8)
    ensures Readable(d, |d|) && Decode(d, |d|) == Packet(p.(timestamp := Load32(d, 4)))
  {
    hide Encode, Decode, Readable, Header, DiffersBy, Load32;
    OverlookedHeader(p, d);
    assert d + [] == d;
    RoundTrip(TakenFor(p, d), []);
  }

  /** The bytes of such a change where the timestamp was zero. */
  lemma FlipTimestamp(e: seq<byte>) returns (d: seq<byte>)
    requires |e| >= 12 && e[4] == e[5] == e[6] == e[7] == 0
    ensures Missed(e, d, 8) && d[6] == 0x61 && d[7] == 0xD8 && Load32(d, 4) == 0xD861_0000
  {
    hide DiffersBy, Missed;
    FlipZero(0x61);
    FlipZero(0xD8);
    var x2 := Flip(e[8], 0xF4);
    var x3 := Flip(e[9], 0xEE);
    PatchedIsMissed(e, 8, [0x61, 0xD8, x2, x3]);
    d := Patched(e, 8, [0x61, 0xD8, x2, x3]);
  }

  /** For instance, four bytes of an acknowledgement with timestamp 0 can be changed
      so that it is still accepted, with the timestamp 0xD8610000. */
  lemma TimestampMisread(p: Pkt) returns (d: seq<byte>)
    requires p.WellFormed() && p.kind == PTYPE_ACK && p.tr == 0 && p.length == 0 && p.timestamp == 0
    ensures Burst(Encode(p), d, 6) && d[6] == 0x61 && d[7] == 0xD8
    ensures Readable(d, |d|) && Decode(d, |d|) == Packet(p.(timestamp := 0xD861_0000))
  {
    ZeroTimestamp(p);
    hide Encode, Decode, Readable, Header, Missed, Load32, Burst;
    d := FlipTimestamp(Encode(p));
    MissedIsBurst(Encode(p), d, 8);
    Misread(p, d);
  }
}
