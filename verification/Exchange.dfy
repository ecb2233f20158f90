/** What the two loops send and what they make of what arrives, byte by byte and with
    the numbers of `packet_interface.h`. */
module Exchange {
  import opened Bytes
  import opened Common
  import opened Ring
  import opened PacketSpec
  import opened Layout
  import opened Datagrams
  import S = SenderSpec
  import R = ReceiverSpec

  /** The first four bytes and the clock of a packet. */
  predicate Starts(bytes: seq<byte>, first: int, second: int, length: int, now: word32) {
    |bytes| >= 12 && bytes[0] == first && bytes[1] == second && High2(bytes, 2) == length && Low4(bytes, 4) == now
  }

  lemma PacketStarts(p: Pkt)
    requires p.WellFormed()
    ensures PacketAt(p, Encode(p))
    ensures Starts(Encode(p), 64 * p.kind + 32 * p.tr + p.window, p.seqnum, p.length, p.timestamp)
  {
    hide Encode, Low4, High2;
    EncodeIffLayout(p, Encode(p));
  }

  /** The bytes of a data packet: it begins with 64 and its window. */
  predicate SentAs(bytes: seq<byte>, window: int, num: byte, block: Block, now: word32) {
    var n := |block|;
    && Starts(bytes, 64 + window, num, n, now)
    && |bytes| == (if n > 0 then 16 + n else 12) && bytes[12..12 + n] == block
  }

  lemma DataBytes(num: byte, window: int, block: Block, now: word32)
    requires 0 <= window <= 31 && |block| <= 512
    ensures SentAs(Encode(DataPacket(num, window, block, now)), window, num, block, now)
  {
    hide Encode, Low4, High2, Starts, PacketAt;
    var p := DataPacket(num, window, block, now);
    PacketStarts(p);
    PayloadPart(p, Encode(p));
  }

  lemma PayloadPart(p: Pkt, s: seq<byte>)
    requires p.WellFormed() && PacketAt(p, s)
    ensures |s| >= 12 + p.Length() && s[12..12 + p.Length()] == p.payload
  {
  }

  /** The fields of an accepted packet in its bytes. */
  lemma AcceptedBytes(buf: seq<byte>, len: nat)
    requires Readable(buf, len) && Decode(buf, len).Packet?
    ensures var p := Decode(buf, len).pkt;
            && |buf| >= 12 && p.WellFormed() && p.kind == buf[0] / 64 && p.tr == buf[0] / 32 % 2
            && p.window == buf[0] % 32 && p.seqnum == buf[1] && p.length == High2(buf, 2)
            && |buf| >= 12 + p.Length() && p.payload == buf[12..12 + p.Length()]
  {
    hide Decode, Readable, Low4, High2;
    var p := Decode(buf, len).pkt;
    DecodeIffLayout(buf, len, p);
    HeaderByte(p, buf[0]);
  }

  /** `buf` begins with a data packet without TR: its first byte is from 64 to 95. */
  predicate IsData(buf: seq<byte>, accepted: bool) {
    accepted && |buf| >= 4 && 64 <= buf[0] < 96
  }

  /** `buf` begins with a data packet with TR set. */
  predicate IsTruncated(buf: seq<byte>, accepted: bool) {
    accepted && |buf| >= 4 && 96 <= buf[0] < 128
  }

  /** A data packet without TR is stored under its number, or ends the loop if its
      length is 0; nothing else changes the receiver. */
  lemma ReceivedBytes(r: R.Receiver, buf: seq<byte>, len: nat)
    requires R.Indexed(r) && Readable(buf, len)
    ensures var d := Decode(buf, len);
            && (IsData(buf, d.Packet?) && High2(buf, 2) > 0 ==>
                  && 12 + High2(buf, 2) <= |buf|
                  && Receive(r, d) == R.Receive(r, buf[1], buf[12..12 + High2(buf, 2)]))
            && (IsData(buf, d.Packet?) && High2(buf, 2) == 0 ==> Receive(r, d) == r.(ended := true))
            && (!IsData(buf, d.Packet?) ==> Receive(r, d) == r)
  {
    hide Decode, Readable, High2, R.Receive;
    if Decode(buf, len).Packet? {
      AcceptedBytes(buf, len);
    }
  }

  /** The bytes of the answer to what stands in `buf`: an acknowledgement, 128 and the
      window, of the number of blocks written; a refusal, 192 and the window, of the
      number after that of the packet; or nothing. */
  predicate AnswerIs(answer: seq<byte>, buf: seq<byte>, accepted: bool, w: nat, written: nat, now: word32) {
    if IsData(buf, accepted) && High2(buf, 2) > 0 then
      |answer| == 12 && Starts(answer, 128 + w, written % 256, 0, now)
    else if IsTruncated(buf, accepted) then
      var num: int := buf[1];
      |answer| == 12 && Starts(answer, 192 + w, (num + 1) % 256, 0, now)
    else
      answer == []
  }

  lemma AnswerBytes(r: R.Receiver, buf: seq<byte>, len: nat, now: word32)
    requires R.Valid(r) && R.Indexed(r) && Readable(buf, len)
    ensures var d := Decode(buf, len);
            AnswerIs(BytesOf(Answer(r, d, now)), buf, d.Packet?, |r.ring|, |Receive(r, d).out|, now)
  {
    hide Decode, Readable, High2, Low4, R.Receive, Encode, PacketAt, Slot;
    var d := Decode(buf, len);
    if d.Packet? {
      AcceptedBytes(buf, len);
      R.ReceiveStaysValid(r, d.pkt.seqnum, d.pkt.payload);
      if Answer(r, d, now).Some? {
        PacketStarts(Answer(r, d, now).value);
      }
    }
  }

  /** What the sender takes from accepted bytes: the window if it is larger than its
      own, and the number if the first byte is from 128 to 191. */
  lemma TakenBytes(s: S.Sender, buf: seq<byte>, len: nat)
    requires S.InRange(s) && Readable(buf, len) && (Decode(buf, len).Packet? ==> Decode(buf, len).pkt.WellFormed())
    ensures var d, s' := Decode(buf, len), TakeAnswer(s, Decode(buf, len));
            && s' == s.(window := s'.window, smallSeq := s'.smallSeq, smallInd := s'.smallInd)
            && (d.Refused? ==> s' == s)
            && (d.Packet? ==>
                  && |buf| >= 2
                  && s'.window == (if buf[0] % 32 > s.window then buf[0] % 32 else s.window)
                  && s'.smallSeq == (if 128 <= buf[0] < 192 then buf[1] else s.smallSeq)
                  && s'.smallInd == if 128 <= buf[0] < 192 then (s.smallInd + Distance(s.smallSeq, buf[1])) % s'.window
                                    else s.smallInd)
  {
    hide Decode, Readable, Distance;
    if Decode(buf, len).Packet? {
      AcceptedBytes(buf, len);
    }
  }
}
