/** What either side makes of a decoded datagram, and the packets both send. */
module Datagrams {
  import opened Bytes
  import opened Common
  import opened PacketSpec
  import S = SenderSpec
  import R = ReceiverSpec

  function DataPacket(num: byte, window: int, block: Block, now: word32): Pkt {
    Pkt(PTYPE_DATA, 0, window, num, |block|, now, block)
  }

  /** A packet kept for retransmission, with a new timestamp. */
  function Again(kept: S.Stored, now: word32): Pkt {
    DataPacket(kept.num, kept.window, kept.block, now)
  }

  /** An acknowledgement (`PTYPE_ACK`) or a refusal (`PTYPE_NACK`). Its timestamp
      is the clock's: encoding overwrites the one taken from the data packet. */
  function Reply(kind: int, num: byte, window: int, now: word32): Pkt {
    Pkt(kind, 0, window, num, 0, now, [])
  }

  /** The receiver after one datagram: only intact data packets without TR count;
      the empty one ends the loop. */
  function Receive(r: R.Receiver, d: Decoded): (r': R.Receiver)
    requires R.Indexed(r)
    ensures R.Indexed(r') && |r'.ring| == |r.ring|
  {
    if d.Packet? && d.pkt.kind == PTYPE_DATA && d.pkt.tr == 0 then
      if d.pkt.Length() == 0 then r.(ended := true) else R.Receive(r, d.pkt.seqnum, d.pkt.payload)
    else
      r
  }

  /** What the receiver answers: the number it expects next, whatever block has
      arrived; nothing to the empty packet. */
  function Answer(r: R.Receiver, d: Decoded, now: word32): (p: Option<Pkt>)
    requires R.Indexed(r)
    ensures p.Some? ==> p.value.WellFormed()
  {
    if d.Packet? && d.pkt.kind == PTYPE_DATA then
      if d.pkt.tr == 1 then Some(Reply(PTYPE_NACK, (d.pkt.seqnum + 1) % 256, |r.ring|, now))
      else if d.pkt.Length() == 0 then None
      else Some(Reply(PTYPE_ACK, Receive(r, d).seqExp, |r.ring|, now))
    else
      None
  }

  /** The sender after one datagram: any packet may grow the window, and an
      acknowledgement slides it. */
  function TakeAnswer(s: S.Sender, d: Decoded): (s': S.Sender)
    requires S.InRange(s) && (d.Packet? ==> d.pkt.WellFormed())
    ensures S.InRange(s')
  {
    if d.Refused? then s
    else if d.pkt.kind == PTYPE_ACK then S.Acknowledge(s, d.pkt.seqnum, d.pkt.window)
    else S.Grow(s, d.pkt.window)
  }

  /** The bytes of a packet, or none. */
  function BytesOf(p: Option<Pkt>): seq<byte>
    requires p.Some? ==> p.value.WellFormed()
  {
    if p.Some? then Encode(p.value) else []
  }

  /** What a turn of the sender's loop leads to. `unset` says that the timer ran out
      on a slot that was never filled: there the original reads a pointer that is
      not set, and what it does then is undefined. */
  datatype LoopResult = LoopResult(snd: S.Sender, sent: Option<Pkt>, ended: bool, unset: bool)

  /** The file is read if it is ready and the test allows it; a datagram is taken if
      one arrived; and if nothing was sent and nothing decoded, the timer has run
      out. */
  function LoopTurn(s: S.Sender, fileReady: bool, data: Block, d: Decoded, now: word32): (r: LoopResult)
    requires S.InRange(s) && S.Sendable(s.buffer) && |data| <= MAX_PAYLOAD_SIZE && (d.Packet? ==> d.pkt.WellFormed())
    ensures S.InRange(r.snd) && (r.sent.Some? ==> r.sent.value.WellFormed())
  {
    var atFile := fileReady && S.MayRead(s);
    var sends := atFile && data != [];
    var v := if sends then S.Send(s, data) else s;
    var timer := !sends && d.Refused?;
    LoopResult(TakeAnswer(v, d),
               if sends then Some(DataPacket(s.seqExp, s.window, data, now))
               else if timer && S.Oldest(v).Some? then Some(Again(S.Oldest(v).value, now))
               else None,
               atFile && data == [],
               timer && S.Oldest(v).None?)
  }

  /** The answer to a data packet carries the timestamp of that packet, as
      `server.h` says it does, only by coincidence: exactly if the clock at the time
      of encoding shows it. */
  lemma TimestampEchoedIff(r: R.Receiver, d: Decoded, now: word32, rest: seq<byte>)
    requires R.Indexed(r) && Answer(r, d, now).Some?
    ensures d.Packet?
    ensures var bytes := BytesOf(Answer(r, d, now));
            && Readable(bytes + rest, |bytes|) && Decode(bytes + rest, |bytes|).Packet?
            && (Decode(bytes + rest, |bytes|).pkt.timestamp == d.pkt.timestamp <==> now == d.pkt.timestamp)
  {
    hide Encode, Decode, Readable, R.Receive;
    RoundTrip(Answer(r, d, now).value, rest);
  }
}
